/** Variable elimination: what is stored, and how a model of the residual clauses is extended. */
module Elimination {
  import opened Logic
  import opened Resolution

  /** A stored clause; its first literal is set when all others are false. */
  type Entry = Clause

  type Assignment = map<nat, bool>

  predicate NotFalse(a: Assignment, l: Literal) { l.variable in a ==> a[l.variable] == l.positive }

  predicate SatisfiedBy(a: Assignment, c: Clause) {
    exists i :: 0 <= i < |c| && c[i].variable in a && a[c[i].variable] == c[i].positive
  }

  ghost predicate AllSatisfiedBy(a: Assignment, f: set<Clause>) { forall c :: c in f ==> SatisfiedBy(a, c) }

  predicate RestFalse(a: Assignment, e: Entry, n: nat) { forall k :: n <= k < |e| ==> !NotFalse(a, e[k]) }

  function ExtendOne(a: Assignment, e: Entry): Assignment {
    if e != [] && RestFalse(a, e, 1) then a[e[0].variable := e[0].positive] else a
  }

  /** The entries are used from the last to the first. */
  function Extend(a: Assignment, es: seq<Entry>): Assignment
    decreases |es|
  {
    if es == [] then a else Extend(ExtendOne(a, es[|es| - 1]), es[..|es| - 1])
  }

  lemma {:induction false} ExtendJoin(a: Assignment, es: seq<Entry>, ds: seq<Entry>)
    ensures Extend(a, es + ds) == Extend(Extend(a, ds), es)
    decreases |ds|
  {
    if ds == [] {
      assert es + ds == es;
    } else {
      assert (es + ds)[..|es + ds| - 1] == es + ds[..|ds| - 1];
      ExtendJoin(ExtendOne(a, ds[|ds| - 1]), es, ds[..|ds| - 1]);
    }
  }

  function Codes(c: Clause): (r: seq<nat>)
    ensures |r| == |c| && forall i :: 0 <= i < |c| ==> r[i] == c[i].Index()
  {
    if c == [] then [] else Codes(c[..|c| - 1]) + [c[|c| - 1].Index()]
  }

  /** The stack as one vector: the literals of each entry, then its length. */
  function Flat(es: seq<Entry>): seq<nat> {
    if es == [] then [] else Flat(es[..|es| - 1]) + Codes(es[|es| - 1]) + [|es[|es| - 1]|]
  }

  ghost predicate NoneEmpty(es: seq<Entry>) { forall i :: 0 <= i < |es| ==> es[i] != [] }

  lemma {:induction false} FlatPrefix(es: seq<Entry>, k: nat)
    requires k <= |es|
    ensures Flat(es[..k]) <= Flat(es)
  {
    if k == |es| {
      assert es[..k] == es;
    } else {
      FlatPrefix(es[..|es| - 1], k);
      assert es[..|es| - 1][..k] == es[..k];
    }
  }

  /** Where the `k`-th entry lies in the vector. */
  lemma FlatAt(es: seq<Entry>, k: nat)
    requires k < |es|
    ensures var flat, start, e := Flat(es), |Flat(es[..k])|, es[k];
            |Flat(es[..k + 1])| == start + |e| + 1 <= |flat| && flat[start + |e|] == |e| &&
            forall j :: 0 <= j < |e| ==> flat[start + j] == e[j].Index()
  {
    FlatPrefix(es, k + 1);
    assert es[..k + 1][..k] == es[..k];
  }

  lemma IndexRound(l: Literal)
    ensures FromIndex(l.Index()) == l
  {
  }

  /** Walks the vector backwards. */
  method ExtendModel(elimclauses: seq<nat>, start: Assignment, ghost es: seq<Entry>) returns (model: Assignment)
    requires elimclauses == Flat(es) && NoneEmpty(es)
    ensures model == Extend(start, es)
  {
    hide Flat, Codes;
    model := start;
    var i: int := |elimclauses| - 1;
    ghost var k := |es|;
    assert es[..k] == es;
    FlatNone(es);
    while i > 0
      invariant k <= |es| && i == |Flat(es[..k])| - 1 && i < |elimclauses|
      invariant Extend(start, es) == Extend(model, es[..k])
      decreases i
    {
      NonEmptyFlat(es, k);
      k := k - 1;
      FlatAt(es, k);
      ghost var e, base := es[k], |Flat(es[..k])|;
      assert es[..k + 1][..k] == es[..k];
      var j := elimclauses[i];
      i := i - 1;
      var skip := false;
      while j > 1 && !skip
        invariant 1 <= j <= |e| && i == base + j - 1 && RestFalse(model, e, j)
        invariant skip ==> j > 1 && NotFalse(model, e[j - 1])
        decreases j, !skip
      {
        IndexRound(e[j - 1]);
        if NotFalse(model, FromIndex(elimclauses[i])) {
          skip := true;
        } else {
          j, i := j - 1, i - 1;
        }
      }
      ghost var before := model;
      if !skip {
        IndexRound(e[0]);
        var x := FromIndex(elimclauses[i]);
        model := model[x.variable := x.positive];
      }
      assert model == ExtendOne(before, e);
      i := i - j;
    }
    if k > 0 {
      assert es[k - 1] != [];
      FlatAt(es, k - 1);
    }
  }

  lemma FlatNone(es: seq<Entry>)
    ensures Flat(es[..0]) == []
  {
  }

  lemma NonEmptyFlat(es: seq<Entry>, k: nat)
    requires k <= |es| && |Flat(es[..k])| > 0
    ensures k > 0
  {
  }

  /** The literal over `v` exchanged with the first one. */
  function WitnessFirst(c: Clause, v: nat): Entry
    requires Mentions(c, v)
  {
    var i := Slot(c, v);
    c[i := c[0]][0 := c[i]]
  }

  function Slot(c: Clause, v: nat): (i: nat)
    requires Mentions(c, v)
    ensures i < |c| && c[i].variable == v
  {
    if c[|c| - 1].variable == v then |c| - 1
    else assert Mentions(c[..|c| - 1], v) by { SlotBefore(c, v); } Slot(c[..|c| - 1], v)
  }

  lemma SlotBefore(c: Clause, v: nat)
    requires Mentions(c, v) && c[|c| - 1].variable != v
    ensures Mentions(c[..|c| - 1], v)
  {
    var i :| 0 <= i < |c| && c[i].variable == v;
    assert c[..|c| - 1][i].variable == v;
  }

  /** Appends a clause with the literal over `v` in front. */
  method MkElimClause(elimclauses: seq<nat>, v: nat, c: Clause) returns (r: seq<nat>)
    requires Mentions(c, v) && Clean(c)
    ensures r == elimclauses + Codes(WitnessFirst(c, v)) + [|c|]
  {
    hide Codes;
    r := elimclauses;
    var first := |r|;
    var vPos := first;
    var i := 0;
    NoCodes(c);
    while i < |c|
      invariant i <= |c| && r == elimclauses + Codes(c[..i])
      invariant Slot(c, v) < i ==> vPos == first + Slot(c, v)
    {
      CodesNext(c, i);
      r := r + [c[i].Index()];
      if c[i].variable == v {
        OneSlot(c, v, i);
        vPos := i + first;
      }
      i := i + 1;
    }
    assert c[..i] == c;
    CodesSwapped(elimclauses, c, v);
    var tmp := r[vPos];
    r := r[vPos := r[first]];
    r := r[first := tmp];
    r := r + [|c|];
  }

  lemma NoCodes(c: Clause)
    ensures Codes(c[..0]) == []
  {
  }

  lemma CodesNext(c: Clause, i: nat)
    requires i < |c|
    ensures Codes(c[..i + 1]) == Codes(c[..i]) + [c[i].Index()]
  {
    assert c[..i + 1][..i] == c[..i];
  }

  lemma CodesSwapped(before: seq<nat>, c: Clause, v: nat)
    requires Mentions(c, v)
    ensures var r, p, n := before + Codes(c), |before| + Slot(c, v), |before|;
            r[p := r[n]][n := r[p]] == before + Codes(WitnessFirst(c, v))
  {
    var r, p, n := before + Codes(c), |before| + Slot(c, v), |before|;
    var s := r[p := r[n]][n := r[p]];
    forall i | 0 <= i < |s| ensures s[i] == (before + Codes(WitnessFirst(c, v)))[i] {
      if i >= n {
        assert r[i] == c[i - n].Index();
      }
    }
  }

  lemma OneSlot(c: Clause, v: nat, i: nat)
    requires Clean(c) && i < |c| && c[i].variable == v && Mentions(c, v)
    ensures Slot(c, v) == i
  {
  }

  /** Appends a literal that is set whatever the model. */
  method MkElimUnit(elimclauses: seq<nat>, x: Literal) returns (r: seq<nat>)
    ensures r == elimclauses + Codes([x]) + [1]
  {
    r := elimclauses + [x.Index()];
    r := r + [1];
    assert Codes([x]) == [x.Index()];
  }
}
