/** Subsumption and self-subsuming resolution. */
module Subsumption {
  // With the 32-bit abstraction of a clause as a filter.

  import opened Logic
  import opened Resolution

  function Bit(v: nat): bv32 { (1 as bv32) << (v % 32) }

  function Or(x: bv32, y: bv32): bv32 { x | y }

  /** The bits of `x` are bits of `w`. */
  predicate BitsIn(x: bv32, w: bv32) { x & !w == 0 }

  /** One bit per residue of the variables. */
  function Abstraction(c: Clause): bv32 {
    if c == [] then 0 else Or(Abstraction(c[..|c| - 1]), Bit(c[|c| - 1].variable))
  }

  method CalcAbstraction(c: Clause) returns (abstraction: bv32)
    ensures abstraction == Abstraction(c)
  {
    hide Bit, Or;
    abstraction := 0;
    var i := 0;
    while i < |c|
      invariant i <= |c| && abstraction == Abstraction(c[..i])
    {
      assert c[..i + 1][..i] == c[..i];
      abstraction := Or(abstraction, Bit(c[i].variable));
      i := i + 1;
    }
    assert c[..i] == c;
  }

  lemma NoBits(w: bv32)
    ensures BitsIn(0, w)
  {
  }

  lemma OwnBits(x: bv32, w: bv32)
    ensures BitsIn(x, Or(w, x))
  {
  }

  lemma MoreBits(x: bv32, y: bv32, w: bv32)
    requires BitsIn(x, w)
    ensures BitsIn(x, Or(w, y))
  {
  }

  lemma BothBits(x: bv32, y: bv32, w: bv32)
    requires BitsIn(x, w) && BitsIn(y, w)
    ensures BitsIn(Or(x, y), w)
  {
  }

  lemma {:induction false} BitIn(d: Clause, v: nat)
    requires Mentions(d, v)
    ensures BitsIn(Bit(v), Abstraction(d))
  {
    hide Bit, Or, BitsIn;
    var e, l := d[..|d| - 1], d[|d| - 1];
    if l.variable != v {
      var i :| 0 <= i < |d| && d[i].variable == v;
      assert e[i].variable == v;
      BitIn(e, v);
      MoreBits(Bit(v), Bit(l.variable), Abstraction(e));
    } else {
      OwnBits(Bit(v), Abstraction(e));
    }
  }

  /** The filter lets every pair through in which all variables of one clause occur in the other. */
  lemma {:induction false} FilterPasses(c: Clause, d: Clause)
    requires forall i :: 0 <= i < |c| ==> Mentions(d, c[i].variable)
    ensures BitsIn(Abstraction(c), Abstraction(d))
  {
    hide Bit, Or, BitsIn;
    if c == [] {
      NoBits(Abstraction(d));
    } else {
      var e, l := c[..|c| - 1], c[|c| - 1];
      forall i | 0 <= i < |e| ensures Mentions(d, e[i].variable) {
        assert e[i] == c[i];
      }
      FilterPasses(e, d);
      BitIn(d, l.variable);
      BothBits(Abstraction(e), Bit(l.variable), Abstraction(d));
    }
  }

  ghost function Vars(c: Clause): set<nat> { set i | 0 <= i < |c| :: c[i].variable }

  lemma {:induction false} VarsSize(c: Clause)
    requires Clean(c)
    ensures |Vars(c)| == |c|
  {
    if c == [] {
      assert Vars(c) == {};
    } else {
      var d, l := c[..|c| - 1], c[|c| - 1];
      CleanFront(c);
      VarsSize(d);
      forall v ensures v in Vars(c) <==> v in Vars(d) + {l.variable} {
        assert v in Vars(c) <==> Mentions(c, v);
        assert v in Vars(d) <==> Mentions(d, v);
      }
      assert Vars(c) == Vars(d) + {l.variable};
      assert l.variable !in Vars(d);
    }
  }

  /** Nor does the size. */
  lemma SizePasses(c: Clause, d: Clause)
    requires Clean(c) && Clean(d) && forall i :: 0 <= i < |c| ==> Mentions(d, c[i].variable)
    ensures |c| <= |d|
  {
    VarsSize(c);
    VarsSize(d);
    forall v | v in Vars(c) ensures v in Vars(d) {
      var i :| 0 <= i < |c| && c[i].variable == v;
      assert Mentions(d, v);
    }
    SubsetSize(Vars(c), Vars(d));
  }

  datatype Outcome = Unrelated | Subsumed | Strengthens(p: Literal)

  ghost predicate Contains(c: Clause, d: Clause) { forall l :: l in c ==> l in d }

  /** All of `c` but `p` is in the other clause, and `p` is there negated. */
  ghost predicate ContainsBut(c: Clause, d: Clause, p: Literal) {
    p in c && p.Negated() in d && forall l :: l in c && l != p ==> l in d
  }

  lemma RelatedMentions(c: Clause, d: Clause, p: Literal)
    requires Contains(c, d) || ContainsBut(c, d, p)
    ensures forall i :: 0 <= i < |c| ==> Mentions(d, c[i].variable)
  {
    forall i | 0 <= i < |c| ensures Mentions(d, c[i].variable) {
      assert c[i] in c;
      if c[i] in d {
        MentionsMember(d, c[i]);
      } else {
        MentionsMember(d, p.Negated());
      }
    }
  }

  /** The part of `c` before slot `n` has been found with outcome `r`. */
  ghost predicate FoundUpTo(c: Clause, d: Clause, n: nat, r: Outcome) {
    n <= |c| &&
    match r
    case Unrelated => false
    case Subsumed => Contains(c[..n], d)
    case Strengthens(p) => ContainsBut(c[..n], d, p)
  }

  lemma FoundNext(c: Clause, d: Clause, n: nat, r: Outcome)
    requires FoundUpTo(c, d, n, r) && n < |c|
    ensures c[n] in d ==> FoundUpTo(c, d, n + 1, r)
    ensures c[n].Negated() in d && r == Subsumed ==> FoundUpTo(c, d, n + 1, Strengthens(c[n]))
  {
    assert c[..n + 1] == c[..n] + [c[n]];
  }

  /** No outcome once a literal is neither in the other clause nor the one exception. */
  lemma NotFound(c: Clause, d: Clause, n: nat, r: Outcome)
    requires Clean(c) && Clean(d) && FoundUpTo(c, d, n, r) && n < |c| && c[n] !in d
    requires r != Subsumed || c[n].Negated() !in d
    ensures !Contains(c, d) && forall p :: !ContainsBut(c, d, p)
  {
    assert c[n] in c;
    forall p ensures !ContainsBut(c, d, p) {
      if ContainsBut(c, d, p) {
        TwoExceptions(c, d, n, r, p);
      }
    }
  }

  lemma TwoExceptions(c: Clause, d: Clause, n: nat, r: Outcome, p: Literal)
    requires Clean(c) && Clean(d) && FoundUpTo(c, d, n, r) && n < |c| && c[n] !in d && ContainsBut(c, d, p)
    ensures r == Subsumed && c[n].Negated() in d
  {
    assert c[n] in c;
    if r.Strengthens? {
      assert r.p in c[..n] && r.p in c;
      var i :| 0 <= i < n && c[i] == r.p;
      OnePolarity(d, r.p);
    }
  }

  lemma OnePolarity(c: Clause, l: Literal)
    requires Clean(c)
    ensures !(l in c && l.Negated() in c)
  {
    if l in c && l.Negated() in c {
      CleanPolarity(c, l, l.Negated());
    }
  }

  /** Whether `c` subsumes `d`, or which of its literals can be resolved away from `d`. */
  method Subsumes(c: Clause, d: Clause, abstractionC: bv32, abstractionD: bv32) returns (r: Outcome)
    requires Clean(c) && Clean(d) && abstractionC == Abstraction(c) && abstractionD == Abstraction(d)
    ensures r == Subsumed <==> Contains(c, d)
    ensures forall p :: r == Strengthens(p) <==> ContainsBut(c, d, p)
  {
    hide Clean, FoundUpTo, Contains, ContainsBut, Abstraction, Mentions, BitsIn;
    if |d| < |c| || !BitsIn(abstractionC, abstractionD) {
      Rejected(c, d);
      return Unrelated;
    }
    r := Subsumed;
    NothingFound(c, d);
    var i := 0;
    while i < |c|
      invariant i <= |c| && FoundUpTo(c, d, i, r)
    {
      var found := false;
      var j := 0;
      ghost var before := r;
      FoundNext(c, d, i, r);
      while j < |d| && !found
        invariant j <= |d| && (found ==> FoundUpTo(c, d, i + 1, r))
        invariant !found ==> r == before && forall k :: 0 <= k < j ==>
            c[i] != d[k] && (before == Subsumed ==> c[i] != d[k].Negated())
      {
        if c[i] == d[j] {
          found := true;
        } else if r == Subsumed && c[i] == d[j].Negated() {
          assert c[i].Negated() == d[j];
          r := Strengthens(c[i]);
          found := true;
        }
        j := j + 1;
      }
      if !found {
        NotThere(d, c[i], before);
        NotFound(c, d, i, before);
        return Unrelated;
      }
      i := i + 1;
    }
    AllFound(c, d, r);
  }

  lemma Rejected(c: Clause, d: Clause)
    requires Clean(c) && Clean(d) && (|d| < |c| || !BitsIn(Abstraction(c), Abstraction(d)))
    ensures !Contains(c, d) && forall p :: !ContainsBut(c, d, p)
  {
    hide Abstraction, Clean, BitsIn;
    if forall i :: 0 <= i < |c| ==> Mentions(d, c[i].variable) {
      FilterPasses(c, d);
      SizePasses(c, d);
      assert false;
    }
    forall p ensures !ContainsBut(c, d, p) {
      if ContainsBut(c, d, p) {
        RelatedMentions(c, d, p);
      }
    }
    if Contains(c, d) {
      RelatedMentions(c, d, Literal(0, true));
    }
  }

  lemma NothingFound(c: Clause, d: Clause)
    ensures FoundUpTo(c, d, 0, Subsumed)
  {
  }

  lemma NotThere(d: Clause, l: Literal, r: Outcome)
    requires forall k :: 0 <= k < |d| ==> l != d[k] && (r == Subsumed ==> l != d[k].Negated())
    ensures l !in d && (r == Subsumed ==> l.Negated() !in d)
  {
    if l.Negated() in d {
      var k :| 0 <= k < |d| && d[k] == l.Negated();
      assert l == d[k].Negated();
    }
  }

  lemma AllFound(c: Clause, d: Clause, r: Outcome)
    requires Clean(c) && Clean(d) && FoundUpTo(c, d, |c|, r)
    ensures r == Subsumed <==> Contains(c, d)
    ensures forall p :: r == Strengthens(p) <==> ContainsBut(c, d, p)
  {
    assert c[..|c|] == c;
    forall p ensures r == Strengthens(p) <==> ContainsBut(c, d, p) {
      OnePolarity(d, p);
      if r.Strengthens? {
        OnePolarity(d, r.p);
      }
    }
    if r.Strengthens? {
      OnePolarity(d, r.p);
    }
  }

  /** A subsumed clause says nothing new. */
  lemma SubsumedImplied(c: Clause, d: Clause, m: Model)
    requires Contains(c, d) && Satisfies(m, c)
    ensures Satisfies(m, d)
  {
  }

  /** The clause without the literal resolved away. */
  function Removed(c: Clause, l: Literal): Clause {
    if c == [] then [] else if c[0] == l then c[1..] else [c[0]] + Removed(c[1..], l)
  }

  lemma {:induction false} RemovedIs(c: Clause, l: Literal)
    requires Clean(c)
    ensures Clean(Removed(c, l)) && forall k :: k in Removed(c, l) <==> k in c && k != l
    ensures |Removed(c, l)| == |c| - if l in c then 1 else 0
    ensures forall v :: Mentions(Removed(c, l), v) <==> Mentions(c, v) && !(l in c && v == l.variable)
  {
    if c != [] {
      assert c == [c[0]] + c[1..];
      assert Clean(c[1..]);
      assert !Mentions(c[1..], c[0].variable);
      RemovedIs(c[1..], l);
      forall v ensures Mentions(c, v) <==> v == c[0].variable || Mentions(c[1..], v) {
        MentionsFirst(c, v);
      }
      if c[0] != l {
        forall v ensures Mentions(Removed(c, l), v) <==> v == c[0].variable || Mentions(Removed(c[1..], l), v) {
          MentionsFirst(Removed(c, l), v);
        }
        CleanFirst(c[0], Removed(c[1..], l));
        if l in c[1..] {
          MentionsMember(c[1..], l);
        }
      }
    }
  }

  lemma CleanFirst(l: Literal, c: Clause)
    requires Clean(c) && !Mentions(c, l.variable)
    ensures Clean([l] + c)
  {
  }

  lemma MentionsFirst(c: Clause, v: nat)
    requires c != []
    ensures Mentions(c, v) <==> v == c[0].variable || Mentions(c[1..], v)
  {
    if Mentions(c, v) && c[0].variable != v {
      var i :| 0 <= i < |c| && c[i].variable == v;
      assert c[1..][i - 1].variable == v;
    }
    if Mentions(c[1..], v) {
      var i :| 0 <= i < |c[1..]| && c[1..][i].variable == v;
      assert c[i + 1].variable == v;
    }
  }

  /** Beside the first clause, the strengthened clause says the same as the old one. */
  lemma StrengthenedSame(c: Clause, d: Clause, p: Literal, m: Model)
    requires Clean(c) && Clean(d) && ContainsBut(c, d, p) && Satisfies(m, c)
    ensures Satisfies(m, d) <==> Satisfies(m, Removed(d, p.Negated()))
  {
    RemovedIs(d, p.Negated());
    hide Clean, Mentions, Removed;
    var r := Removed(d, p.Negated());
    if Satisfies(m, d) {
      var l :| l in d && Holds(m, l);
      if l == p.Negated() {
        var k :| k in c && Holds(m, k);
        assert k != p;
        OnePolarity(c, p);
        assert k in d && k != p.Negated();
        assert k in r;
      } else {
        assert l in r;
      }
    }
    if Satisfies(m, r) {
      var l :| l in r && Holds(m, l);
      assert l in d;
    }
  }
}
