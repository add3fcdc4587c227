/** Glucose: shortening a learnt clause with the binary clauses of its asserting literal. */
module BinaryMinimisation {
  import opened Logic
  import opened Trails
  import opened Watching
  import opened Analysis

  lemma {:induction false} DistinctSize(c: Clause)
    requires Clean(c)
    ensures |VariablesOf(c)| == |c|
  {
    if c != [] {
      var d, l := c[..|c| - 1], c[|c| - 1];
      DistinctSize(d);
      forall v ensures v in VariablesOf(c) <==> v in VariablesOf(d) + {l.variable} {
        if v in VariablesOf(c) {
          var k :| 0 <= k < |c| && c[k].variable == v;
          assert k < |d| ==> d[k] == c[k];
        }
        if v in VariablesOf(d) {
          var k :| 0 <= k < |d| && d[k].variable == v;
          assert c[k].variable == v;
        }
      }
      assert VariablesOf(c) == VariablesOf(d) + {l.variable};
      assert l.variable !in VariablesOf(d);
    } else {
      assert VariablesOf(c) == {};
    }
  }

  /** A binary clause of the asserting literal implies the negation of `l`. */
  ghost predicate Resolvable(wbin: seq<Watcher>, l: Literal) {
    exists k :: 0 <= k < |wbin| && wbin[k].blocker == l.Negated()
  }

  ghost function Levels(t: Trail, c: Clause): set<nat> { set k | 0 <= k < |c| :: Level(t, c[k].variable) }

  /** The variables after the first that a true literal among the first `n` watchers gets rid of. */
  ghost predicate Removed(t: Trail, c: Clause, wbin: seq<Watcher>, n: nat, r: set<nat>) {
    n <= |wbin| && forall v :: v in r <==>
      v in Lower(c) && exists k :: 0 <= k < n && IsTrue(t, wbin[k].blocker) && wbin[k].blocker.variable == v
  }

  lemma RemovedNext(t: Trail, c: Clause, wbin: seq<Watcher>, n: nat, r: set<nat>)
    requires Removed(t, c, wbin, n, r) && n < |wbin|
    ensures var imp := wbin[n].blocker;
            Removed(t, c, wbin, n + 1, if IsTrue(t, imp) && imp.variable in Lower(c) then r + {imp.variable} else r)
  {
  }

  /** For a false clause these are the resolvable literals. */
  lemma RemovedIsResolvable(t: Trail, c: Clause, wbin: seq<Watcher>, r: set<nat>, i: nat)
    requires Removed(t, c, wbin, |wbin|, r) && 1 <= i < |c| && IsFalse(t, c[i])
    ensures c[i].variable in r <==> Resolvable(wbin, c[i])
  {
    assert c[i].variable in Lower(c);
    if c[i].variable in r {
      var k :| 0 <= k < |wbin| && IsTrue(t, wbin[k].blocker) && wbin[k].blocker.variable == c[i].variable;
      assert wbin[k].blocker == c[i].Negated();
    }
    if Resolvable(wbin, c[i]) {
      var k :| 0 <= k < |wbin| && wbin[k].blocker == c[i].Negated();
      assert IsTrue(t, wbin[k].blocker);
    }
  }

  /** The part of the clause still to be scanned lies between `i` and `l`: before are kept literals,
      behind removed ones. */
  ghost predicate Partitioned(original: Clause, out: Clause, r: set<nat>, i: nat, l: int) {
    |out| == |original| && 1 <= i <= |out| && 0 <= l < |out| && multiset(out) == multiset(original) &&
      out[0] == original[0] &&
    Clean(out) && r <= Lower(out) &&
    (forall k :: 1 <= k < i ==> out[k].variable !in r) && (forall k :: l < k < |out| ==> out[k].variable in r)
  }

  /** At most as many literals have been moved to the end as are to be removed. */
  lemma TailFits(original: Clause, out: Clause, r: set<nat>, i: nat, l: int)
    requires Partitioned(original, out, r, i, l)
    ensures |out| - 1 - l <= |r|
  {
    var tail := out[l + 1..];
    assert Clean(tail) by {
      forall a, b | 0 <= a < b < |tail| ensures tail[a].variable != tail[b].variable {
        assert tail[a] == out[l + 1 + a] && tail[b] == out[l + 1 + b];
      }
    }
    DistinctSize(tail);
    forall v | v in VariablesOf(tail) ensures v in r {
      var k :| 0 <= k < |tail| && tail[k].variable == v;
      assert tail[k] == out[l + 1 + k];
    }
    SubsetSize(VariablesOf(tail), r);
  }

  lemma PartitionSwap(original: Clause, out: Clause, r: set<nat>, i: nat, l: int)
    requires Partitioned(original, out, r, i, l) && i <= l && out[i].variable in r
    ensures Partitioned(original, out[l := out[i]][i := out[l]], r, i, l - 1)
  {
    var d := out[l := out[i]][i := out[l]];
    forall a, b | 0 <= a < b < |d| ensures d[a].variable != d[b].variable {
      var x := if a == i then l else if a == l then i else a;
      var y := if b == i then l else if b == l then i else b;
      assert d[a] == out[x] && d[b] == out[y] && x != y;
      assert if x < y then out[x].variable != out[y].variable else out[y].variable != out[x].variable;
    }
    SwapLower(out, r, i, l);
  }

  lemma SwapLower(out: Clause, r: set<nat>, i: nat, l: int)
    requires 1 <= i <= l < |out| && r <= Lower(out)
    ensures r <= Lower(out[l := out[i]][i := out[l]])
  {
    var d := out[l := out[i]][i := out[l]];
    forall v | v in r ensures v in Lower(d) {
      assert v in Lower(out);
      var k :| 1 <= k < |out| && out[k].variable == v;
      assert d[if k == i then l else if k == l then i else k].variable == v;
    }
  }

  /** When the scan is over the removed literals are exactly the last ones. */
  lemma PartitionDone(original: Clause, out: Clause, r: set<nat>, i: nat, l: int, nb: nat)
    requires Partitioned(original, out, r, i, l) && nb == |r| && i == |out| - nb
    ensures forall k :: 1 <= k < |out| ==> (k < i <==> out[k].variable !in r)
  {
    var tail := out[i..];
    assert Clean(tail) by {
      forall a, b | 0 <= a < b < |tail| ensures tail[a].variable != tail[b].variable {
        assert tail[a] == out[i + a] && tail[b] == out[i + b];
      }
    }
    DistinctSize(tail);
    forall v | v in r ensures v in VariablesOf(tail) {
      assert v in Lower(out);
      var k :| 1 <= k < |out| && out[k].variable == v;
      assert tail[k - i].variable == v;
    }
    SubsetSize(r, VariablesOf(tail));
    forall k | i <= k < |out| ensures out[k].variable in r {
      assert tail[k - i] == out[k];
      assert out[k].variable in VariablesOf(tail);
    }
  }

  class BinaryMinimiser {
    var permDiff: seq<nat>
    var flag: nat

    constructor (size: nat)
      ensures Valid() && |permDiff| == size
    {
      permDiff, flag := seq(size, _ => 0), 0;
    }

    /** No stamp is newer than the current one. */
    ghost predicate Valid()
      reads this
    {
      forall k :: 0 <= k < |permDiff| ==> permDiff[k] <= flag
    }

    ghost predicate Stamped(s: set<nat>)
      reads this
    {
      forall k :: 0 <= k < |permDiff| ==> (permDiff[k] == flag <==> k in s)
    }

    /** The number of distinct decision levels. */
    method ComputeLBD(c: Clause, t: Trail) returns (levels: nat)
      requires Valid() && forall k :: 0 <= k < |c| ==> Level(t, c[k].variable) < |permDiff|
      modifies this
      ensures Valid() && |permDiff| == |old(permDiff)| && levels == |Levels(t, c)|
    {
      levels := 0;
      flag := flag + 1;
      ghost var s: set<nat> := {};
      var i := 0;
      assert Levels(t, c[..0]) == {};
      while i < |c|
        invariant i <= |c| && Valid() && |permDiff| == |old(permDiff)|
        invariant s == Levels(t, c[..i]) && levels == |s| && Stamped(s)
      {
        var l := Level(t, c[i].variable);
        LevelsNext(t, c, i);
        assert l in s ==> s + {l} == s;
        if permDiff[l] != flag {
          permDiff := permDiff[l := flag];
          levels := levels + 1;
        }
        s := s + {l};
        i := i + 1;
      }
      assert c[..i] == c;
    }

    /** Stamps the variables after the first literal. */
    method StampAll(c: Clause)
      requires Valid() && Stamped({}) && forall l :: l in c ==> l.variable < |permDiff|
      modifies this`permDiff
      ensures Valid() && |permDiff| == |old(permDiff)| && Stamped(Lower(c))
    {
      var i := 1;
      ghost var s: set<nat> := {};
      while i < |c|
        invariant 1 <= i && Valid() && |permDiff| == |old(permDiff)|
        invariant s == (set k | 1 <= k < i && k < |c| :: c[k].variable) && Stamped(s)
      {
        permDiff := permDiff[c[i].variable := flag];
        s := s + {c[i].variable};
        i := i + 1;
      }
      assert s == Lower(c);
    }

    /** Takes the stamp from every variable that a binary clause resolves away. */
    method CountResolved(c: Clause, wbin: seq<Watcher>, t: Trail) returns (nb: nat, ghost r: set<nat>)
      requires Valid() && flag > 0 && Stamped(Lower(c))
      requires forall k :: 0 <= k < |wbin| ==> wbin[k].blocker.variable < |permDiff|
      modifies this`permDiff
      ensures Valid() && |permDiff| == |old(permDiff)| && nb == |r|
      ensures Removed(t, c, wbin, |wbin|, r) && Stamped(Lower(c) - r)
    {
      hide Lower;
      nb, r := 0, {};
      var k := 0;
      while k < |wbin|
        invariant k <= |wbin| && Valid() && |permDiff| == |old(permDiff)| && nb == |r|
        invariant Removed(t, c, wbin, k, r) && Stamped(Lower(c) - r)
      {
        var imp := wbin[k].blocker;
        RemovedNext(t, c, wbin, k, r);
        if permDiff[imp.variable] == flag && IsTrue(t, imp) {
          nb := nb + 1;
          permDiff := permDiff[imp.variable := flag - 1];
          r := r + {imp.variable};
        } else if IsTrue(t, imp) && imp.variable in Lower(c) {
          assert r + {imp.variable} == r;
        }
        k := k + 1;
      }
    }

    /** In a clause of few levels, drops exactly the literals that binary clauses resolve away. */
    method Minimise(learnt: Clause, wbin: seq<Watcher>, t: Trail, lbdLimit: nat) returns (out: Clause)
      requires Valid() && learnt != [] && Clean(learnt) && forall l :: l in learnt ==> IsFalse(t, l)
      requires forall l :: l in learnt ==> l.variable < |permDiff| && Level(t, l.variable) < |permDiff|
      requires forall k :: 0 <= k < |wbin| ==> wbin[k].blocker.variable < |permDiff|
      modifies this
      ensures Valid() && |permDiff| == |old(permDiff)|
      ensures out != [] && out[0] == learnt[0] && Clean(out)
      ensures forall l :: l in out <==>
                l in learnt && (l == learnt[0] || |Levels(t, learnt)| > lbdLimit || !Resolvable(wbin, l))
    {
      hide Levels, Resolvable, Removed, Partitioned, Lower, Clean;
      out := learnt;
      var lbd := ComputeLBD(out, t);
      if lbd <= lbdLimit {
        flag := flag + 1;
        StampAll(out);
        ghost var r: set<nat>;
        var nb: nat;
        nb, r := CountResolved(out, wbin, t);
        var l := |out| - 1;
        PartitionBegins(t, learnt, wbin, r);
        if nb > 0 {
          var i := 1;
          while i < |out| - nb
            invariant Partitioned(learnt, out, r, i, l) && 1 <= i <= |out| - nb && |out| == |learnt|
            invariant Stamped(Lower(learnt) - r) && Valid() && |permDiff| == |old(permDiff)|
            decreases l + |out| - 2 * i
          {
            TailFits(learnt, out, r, i, l);
            PartitionAt(learnt, out, r, i, l);
            if permDiff[out[i].variable] != flag {
              PartitionSwap(learnt, out, r, i, l);
              var p := out[l];
              out := out[l := out[i]];
              out := out[i := p];
              l := l - 1;
            } else {
              PartitionKeep(learnt, out, r, i, l);
              i := i + 1;
            }
          }
          PartitionDone(learnt, out, r, i, l, nb);
          PartitionMeans(t, learnt, out, wbin, r, i, l);
          out := out[..|out| - nb];
        } else {
          assert r == {};
          PartitionMeans(t, learnt, out, wbin, r, |out|, l);
          assert out[..|out|] == out;
        }
      }
    }
  }

  lemma PartitionBegins(t: Trail, c: Clause, wbin: seq<Watcher>, r: set<nat>)
    requires c != [] && Clean(c) && Removed(t, c, wbin, |wbin|, r)
    ensures Partitioned(c, c, r, 1, |c| - 1) && |r| < |c|
    ensures r == {} ==> Partitioned(c, c, r, |c|, |c| - 1)
  {
    DistinctSize(c);
    assert Lower(c) <= VariablesOf(c) && c[0].variable in VariablesOf(c) && c[0].variable !in Lower(c);
    SubsetSize(r + {c[0].variable}, VariablesOf(c));
  }

  lemma PartitionAt(original: Clause, out: Clause, r: set<nat>, i: nat, l: int)
    requires Partitioned(original, out, r, i, l) && i < |out| && Clean(original)
    ensures out[i].variable in Lower(original) && out[i] in original
    ensures out[i].variable in r && |out| - 1 - l <= |r| && i < |out| - |r| ==> i <= l
    ensures l < |out|
  {
    assert out[i] in multiset(out);
    assert out[i] in original;
    var k :| 0 <= k < |original| && original[k] == out[i];
    assert out[0].variable != out[i].variable;
  }

  lemma PartitionKeep(original: Clause, out: Clause, r: set<nat>, i: nat, l: int)
    requires Partitioned(original, out, r, i, l) && i < |out| && out[i].variable !in r
    ensures Partitioned(original, out, r, i + 1, l)
  {
  }

  /** The literals before `i` are the asserting one and those no binary clause resolves away. */
  lemma PartitionMeans(t: Trail, c: Clause, out: Clause, wbin: seq<Watcher>, r: set<nat>, i: nat, l: int)
    requires Partitioned(c, out, r, i, l) && Removed(t, c, wbin, |wbin|, r) && forall x :: x in c ==> IsFalse(t, x)
    requires forall k :: 1 <= k < |out| ==> (k < i <==> out[k].variable !in r)
    ensures out[..i] != [] && out[..i][0] == c[0] && Clean(out[..i])
    ensures forall x :: x in out[..i] <==> x in c && (x == c[0] || !Resolvable(wbin, x))
  {
    forall x ensures x in c <==> x in out {
      assert x in c <==> x in multiset(c);
      assert x in out <==> x in multiset(out);
    }
    forall x | x in c && x != c[0] ensures x.variable in r <==> Resolvable(wbin, x) {
      var k :| 0 <= k < |c| && c[k] == x;
      RemovedIsResolvable(t, c, wbin, r, k);
    }
    forall x ensures x in out[..i] <==> x in c && (x == c[0] || !Resolvable(wbin, x)) {
      if x in out {
        var k :| 0 <= k < |out| && out[k] == x;
        if k < i {
          assert out[..i][k] == x;
        }
        if x in out[..i] {
          var j :| 0 <= j < i && out[j] == x;
          assert j == k by { OnlyOnce(out, j, k); }
        }
        if x == out[0] {
          OnlyOnce(out, 0, k);
        }
      }
    }
  }

  lemma OnlyOnce(c: Clause, i: nat, j: nat)
    requires Clean(c) && i < |c| && j < |c| && c[i] == c[j]
    ensures i == j
  {
  }

  lemma LevelsNext(t: Trail, c: Clause, i: nat)
    requires i < |c|
    ensures Levels(t, c[..i + 1]) == Levels(t, c[..i]) + {Level(t, c[i].variable)}
  {
    var d, e := c[..i], c[..i + 1];
    forall v ensures v in Levels(t, e) <==> v in Levels(t, d) + {Level(t, c[i].variable)} {
      if v in Levels(t, e) {
        var k :| 0 <= k < |e| && Level(t, e[k].variable) == v;
        assert k < i ==> d[k] == e[k];
      }
      if v in Levels(t, d) {
        var k :| 0 <= k < |d| && Level(t, d[k].variable) == v;
        assert e[k] == d[k];
      }
      assert e[i] == c[i];
    }
  }

  /** What is dropped was resolved away: the shorter clause follows from the learnt one and the
      stored binary clauses. */
  lemma MinimisedFollows(ca: Clauses, learnt: Clause, wbin: seq<Watcher>, out: Clause, m: Model)
    requires learnt != [] && ModelsAll(m, ca) && Satisfies(m, learnt)
    requires forall k :: 0 <= k < |wbin| ==>
        wbin[k].cref in ca && LiteralsOf(ca[wbin[k].cref]) == {learnt[0], wbin[k].blocker}
    requires forall l :: l in learnt && (l == learnt[0] || !Resolvable(wbin, l)) ==> l in out
    ensures Satisfies(m, out)
  {
    var l :| l in learnt && Holds(m, l);
    if l !in out {
      var k :| 0 <= k < |wbin| && wbin[k].blocker == l.Negated();
      var x :| x in ca[wbin[k].cref] && Holds(m, x);
      assert x in LiteralsOf(ca[wbin[k].cref]);
      assert learnt[0] in learnt && Holds(m, learnt[0]);
    }
  }
}
