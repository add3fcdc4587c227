/** Resolvents of two clauses on a variable, as the simplifier's two merge loops compute them. */
module Resolution {
  import opened Logic

  /** At most one literal per variable. */
  predicate Mentions(c: Clause, v: nat) { exists i :: 0 <= i < |c| && c[i].variable == v }

  /** The clauses disagree on a variable other than `v`: their resolvent is a tautology. */
  ghost predicate Clash(p: Clause, q: Clause, v: nat) {
    exists l :: l in p && l.variable != v && l.Negated() in q
  }

  /** `c` is the resolvent on `v`: all literals of both clauses over other variables, once. */
  ghost predicate IsResolvent(p: Clause, q: Clause, v: nat, c: Clause) {
    Clean(c) && forall l :: l in c <==> l.variable != v && (l in p || l in q)
  }

  /** What a resolvent is made of. */
  ghost function Joined(p: Clause, q: Clause, v: nat): set<Literal> { set l | l in p + q && l.variable != v }

  lemma ResolventSize(p: Clause, q: Clause, v: nat, c: Clause)
    requires IsResolvent(p, q, v, c)
    ensures |c| == |Joined(p, q, v)|
  {
    CleanSize(c);
    assert LiteralsOf(c) == Joined(p, q, v);
  }

  /** Every model of both clauses satisfies their resolvent. */
  lemma ResolventImplied(p: Clause, q: Clause, v: nat, c: Clause, m: Model)
    requires Clean(p) && Clean(q) && IsResolvent(p, q, v, c) && Satisfies(m, p) && Satisfies(m, q)
    requires Literal(v, true) in p && Literal(v, false) in q
    ensures Satisfies(m, c)
  {
    var k, l :| k in p && Holds(m, k) && l in q && Holds(m, l);
    if k.variable == v && l.variable == v {
      CleanPolarity(p, k, Literal(v, true));
      CleanPolarity(q, l, Literal(v, false));
      assert false;
    } else {
      assert k in c || l in c;
    }
  }

  lemma CleanPolarity(c: Clause, a: Literal, b: Literal)
    requires Clean(c) && a in c && b in c && a.variable == b.variable
    ensures a == b
  {
    var i, j :| 0 <= i < |c| && c[i] == a && 0 <= j < |c| && c[j] == b;
    assert i == j;
  }

  lemma SameOrOpposite(a: Literal, b: Literal)
    requires a.variable == b.variable
    ensures a == b || a == b.Negated()
  {
  }

  /** What the first loop does with the `i`-th literal of the smaller clause. */
  datatype Found = Absent | Same | Opposite

  /** Looks for the variable of `q` in a clause. */
  method Find(ps: Clause, q: Literal) returns (f: Found)
    requires Clean(ps)
    ensures f == Absent <==> !Mentions(ps, q.variable)
    ensures f == Same <==> q in ps
    ensures f == Opposite <==> q.Negated() in ps
  {
    var j := 0;
    while j < |ps|
      invariant j <= |ps| && forall k :: 0 <= k < j ==> ps[k].variable != q.variable
    {
      if ps[j].variable == q.variable {
        assert ps[j] == q || ps[j] == q.Negated();
        if ps[j] == q.Negated() {
          if q in ps { CleanPolarity(ps, q, ps[j]); }
          return Opposite;
        } else {
          if q.Negated() in ps { CleanPolarity(ps, q.Negated(), ps[j]); }
          return Same;
        }
      }
      j := j + 1;
    }
    f := Absent;
  }

  /** The literals of `qs` before slot `n` that go into the resolvent with `ps`. */
  ghost predicate Half(ps: Clause, qs: Clause, v: nat, n: nat, out: Clause) {
    n <= |qs| && Clean(out) &&
    (forall l :: l in out <==> l in qs[..n] && l.variable != v && !Mentions(ps, l.variable)) &&
    (forall l :: l in qs[..n] && l.variable != v ==> l.Negated() !in ps)
  }

  lemma HalfNext(ps: Clause, qs: Clause, v: nat, n: nat, out: Clause)
    requires Clean(ps) && Clean(qs) && Half(ps, qs, v, n, out) && n < |qs|
    requires qs[n].variable != v ==> qs[n].Negated() !in ps
    ensures Half(ps, qs, v, n + 1, if qs[n].variable != v && !Mentions(ps, qs[n].variable) then out + [qs[n]] else out)
  {
    assert qs[..n + 1] == qs[..n] + [qs[n]];
    forall l | l in out ensures l.variable != qs[n].variable {
      assert l in qs[..n];
      var k :| 0 <= k < n && qs[k] == l;
    }
  }

  /** The other clause without the literal over `v`. */
  ghost predicate Rest(ps: Clause, v: nat, n: nat, first: Clause, out: Clause) {
    n <= |ps| && Clean(out) && forall l :: l in out <==> l in first || (l in ps[..n] && l.variable != v)
  }

  lemma RestNext(ps: Clause, qs: Clause, v: nat, n: nat, first: Clause, out: Clause)
    requires Clean(ps) && Half(ps, qs, v, |qs|, first) && Rest(ps, v, n, first, out) && n < |ps|
    ensures Rest(ps, v, n + 1, first, if ps[n].variable != v then out + [ps[n]] else out)
  {
    assert ps[..n + 1] == ps[..n] + [ps[n]];
    forall l | l in out ensures ps[n].variable != v ==> l.variable != ps[n].variable {
      if l in ps[..n] {
        var k :| 0 <= k < n && ps[k] == l;
      } else {
        assert Mentions(ps, ps[n].variable);
      }
    }
  }

  lemma RestIsResolvent(ps: Clause, qs: Clause, v: nat, first: Clause, out: Clause)
    requires Clean(ps) && Clean(qs) && Half(ps, qs, v, |qs|, first) && Rest(ps, v, |ps|, first, out)
    ensures IsResolvent(ps, qs, v, out) && IsResolvent(qs, ps, v, out) && !Clash(ps, qs, v) && !Clash(qs, ps, v)
  {
    assert ps[..|ps|] == ps && qs[..|qs|] == qs;
    forall l | l in qs && l.variable != v && l !in first ensures l in ps {
      assert Mentions(ps, l.variable);
      var i :| 0 <= i < |ps| && ps[i].variable == l.variable;
      SameOrOpposite(ps[i], l);
    }
    forall l | l in ps && l.variable != v ensures l.Negated() !in qs {
      assert l.Negated() in qs ==> l.Negated().Negated() !in ps;
      assert l.Negated().Negated() == l;
    }
    forall l | l in qs && l.variable != v ensures l.Negated() !in ps {
    }
  }

  lemma ClashFound(ps: Clause, qs: Clause, v: nat, i: nat)
    requires i < |qs| && qs[i].variable != v && qs[i].Negated() in ps
    ensures Clash(ps, qs, v) && Clash(qs, ps, v)
  {
    assert qs[i].Negated().Negated() == qs[i];
  }

  /** The resolvent of two clauses, or no for a tautology. */
  method Merge(ps0: Clause, qs0: Clause, v: nat) returns (ok: bool, out: Clause)
    requires Clean(ps0) && Clean(qs0)
    ensures ok <==> !Clash(ps0, qs0, v)
    ensures ok ==> IsResolvent(ps0, qs0, v, out)
  {
    hide Clean, Half, Rest, Clash, IsResolvent, Mentions;
    var psSmallest := |ps0| < |qs0|;
    var ps := if psSmallest then qs0 else ps0;
    var qs := if psSmallest then ps0 else qs0;
    out := [];
    HalfNone(ps, qs, v);
    var i := 0;
    while i < |qs|
      invariant i <= |qs| && Half(ps, qs, v, i, out)
    {
      if qs[i].variable != v {
        var f := Find(ps, qs[i]);
        if f == Opposite {
          ClashFound(ps, qs, v, i);
          return false, [];
        }
        HalfNext(ps, qs, v, i, out);
        if f == Absent {
          out := out + [qs[i]];
        }
      } else {
        HalfNext(ps, qs, v, i, out);
      }
      i := i + 1;
    }
    ghost var first := out;
    RestNone(ps, qs, v, first);
    i := 0;
    while i < |ps|
      invariant i <= |ps| && Rest(ps, v, i, first, out)
    {
      RestNext(ps, qs, v, i, first, out);
      if ps[i].variable != v {
        out := out + [ps[i]];
      }
      i := i + 1;
    }
    RestIsResolvent(ps, qs, v, first, out);
    ok := true;
  }

  /** Only the size of the resolvent. */
  method MergeSize(ps0: Clause, qs0: Clause, v: nat) returns (ok: bool, size: int)
    requires Clean(ps0) && Clean(qs0) && Mentions(ps0, v) && Mentions(qs0, v)
    ensures ok <==> !Clash(ps0, qs0, v)
    ensures ok ==> size == |Joined(ps0, qs0, v)|
  {
    hide Clean, Half, Rest, Clash, IsResolvent, Mentions;
    var psSmallest := |ps0| < |qs0|;
    var ps := if psSmallest then qs0 else ps0;
    var qs := if psSmallest then ps0 else qs0;
    size := |ps| - 1;
    ghost var out: Clause := [];
    HalfNone(ps, qs, v);
    var i := 0;
    while i < |qs|
      invariant i <= |qs| && Half(ps, qs, v, i, out) && size == |ps| - 1 + |out|
    {
      if qs[i].variable != v {
        var f := Find(ps, qs[i]);
        if f == Opposite {
          ClashFound(ps, qs, v, i);
          return false, 0;
        }
        HalfNext(ps, qs, v, i, out);
        if f == Absent {
          out := out + [qs[i]];
          size := size + 1;
        }
      } else {
        HalfNext(ps, qs, v, i, out);
      }
      i := i + 1;
    }
    var rest := Without(ps, v);
    HalfSize(ps, qs, v, out, rest);
    ok := true;
    ResolventSize(ps0, qs0, v, out + rest);
  }

  lemma HalfNone(ps: Clause, qs: Clause, v: nat)
    ensures Half(ps, qs, v, 0, [])
  {
  }

  lemma RestNone(ps: Clause, qs: Clause, v: nat, first: Clause)
    requires Half(ps, qs, v, |qs|, first)
    ensures Rest(ps, v, 0, first, first)
  {
  }

  ghost function Without(c: Clause, v: nat): (r: Clause)
    ensures forall l :: l in r <==> l in c && l.variable != v
  {
    if c == [] then []
    else Without(c[..|c| - 1], v) + if c[|c| - 1].variable == v then [] else [c[|c| - 1]]
  }

  lemma CleanFront(c: Clause)
    requires Clean(c) && c != []
    ensures var d, l := c[..|c| - 1], c[|c| - 1];
            Clean(d) && c == d + [l] && !Mentions(d, l.variable) && forall v :: Mentions(c, v) <==>
              Mentions(d, v) || v == l.variable
  {
    var d, l := c[..|c| - 1], c[|c| - 1];
    forall v ensures Mentions(c, v) <==> Mentions(d, v) || v == l.variable {
      if Mentions(d, v) {
        var i :| 0 <= i < |d| && d[i].variable == v;
        assert c[i].variable == v;
      }
      assert c[|c| - 1].variable == l.variable;
    }
  }

  lemma MentionsMember(c: Clause, l: Literal)
    requires l in c
    ensures Mentions(c, l.variable)
  {
  }

  lemma {:induction false} WithoutSize(c: Clause, v: nat)
    requires Clean(c)
    ensures Clean(Without(c, v)) && |Without(c, v)| == |c| - if Mentions(c, v) then 1 else 0
  {
    if c != [] {
      var d, l := c[..|c| - 1], c[|c| - 1];
      CleanFront(c);
      WithoutSize(d, v);
      hide Mentions;
      forall k | k in Without(d, v) ensures k.variable != l.variable {
        MentionsMember(d, k);
      }
    } else {
      assert !Mentions(c, v);
    }
  }

  lemma HalfSize(ps: Clause, qs: Clause, v: nat, out: Clause, rest: Clause)
    requires Clean(ps) && Clean(qs) && Mentions(ps, v) && Half(ps, qs, v, |qs|, out) && rest == Without(ps, v)
    ensures |rest| == |ps| - 1 && IsResolvent(ps, qs, v, out + rest) && IsResolvent(qs, ps, v, out + rest)
    ensures !Clash(ps, qs, v) && !Clash(qs, ps, v)
  {
    WithoutSize(ps, v);
    assert ps[..|ps|] == ps;
    assert Clean(out + rest) by {
      forall a, b | 0 <= a < |out| && 0 <= b < |rest| ensures out[a].variable != rest[b].variable {
        assert out[a] in out && rest[b] in rest;
        var k :| 0 <= k < |ps| && ps[k] == rest[b];
      }
    }
    RestIsResolvent(ps, qs, v, out, out + rest);
  }

  lemma {:induction false} CleanSize(c: Clause)
    requires Clean(c)
    ensures |LiteralsOf(c)| == |c|
  {
    if c == [] {
      assert LiteralsOf(c) == {};
    } else {
      var d, l := c[..|c| - 1], c[|c| - 1];
      CleanSize(d);
      assert c == d + [l];
      assert LiteralsOf(c) == LiteralsOf(d) + {l};
      assert l !in d;
    }
  }
}
