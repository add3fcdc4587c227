/** The assignment stack of the solver with its decision levels and reasons. */
module Trails {
  import opened Logic

  datatype Reason = NoReason | Because(cref: nat)

  datatype VarData = VarData(reason: Reason, level: nat)

  /** The assigned literals in order, the start of every decision level, the values and, possibly
      stale for unassigned variables, reasons and levels. */
  datatype Trail = Trail(lits: seq<Literal>, lim: seq<nat>, assigns: map<nat, bool>, vardata: map<nat, VarData>)

  type Clauses = map<nat, Clause>

  predicate IsTrue(t: Trail, l: Literal) { l.variable in t.assigns && t.assigns[l.variable] == l.positive }

  predicate IsFalse(t: Trail, l: Literal) { l.variable in t.assigns && t.assigns[l.variable] != l.positive }

  function Level(t: Trail, v: nat): nat { if v in t.vardata then t.vardata[v].level else 0 }

  function ReasonOf(t: Trail, v: nat): Reason { if v in t.vardata then t.vardata[v].reason else NoReason }

  /** Where a variable stands on the trail; the length of the trail when it does not. */
  ghost function Pos(lits: seq<Literal>, v: nat): (r: nat)
    ensures r <= |lits| && (r < |lits| ==> lits[r].variable == v)
    ensures forall i :: 0 <= i < r ==> lits[i].variable != v
  {
    if lits == [] then 0
    else var r := Pos(lits[..|lits| - 1], v);
         if r == |lits| - 1 && lits[r].variable != v then |lits| else r
  }

  lemma PosAppend(lits: seq<Literal>, p: Literal, v: nat)
    ensures Pos(lits + [p], v) ==
              if Pos(lits, v) < |lits| then Pos(lits, v) else if p.variable == v then |lits| else |lits| + 1
  {
    assert (lits + [p])[..|lits|] == lits;
  }

  lemma PosPrefix(lits: seq<Literal>, n: nat, v: nat)
    requires n <= |lits|
    ensures Pos(lits[..n], v) == if Pos(lits, v) < n then Pos(lits, v) else n
  {
    hide Pos;
    var r, s := Pos(lits[..n], v), Pos(lits, v);
    if s < n {
      assert lits[..n][s].variable == v;
    }
    if r < n {
      assert lits[..n][r] == lits[r];
    }
  }

  ghost predicate Distinct(lits: seq<Literal>) {
    forall i, j :: 0 <= i < j < |lits| ==> lits[i].variable != lits[j].variable
  }

  lemma PosAt(lits: seq<Literal>, i: nat)
    requires Distinct(lits) && i < |lits|
    ensures Pos(lits, lits[i].variable) == i
  {
    hide Pos;
  }

  ghost predicate Recorded(t: Trail) {
    (forall i :: 0 <= i < |t.lits| ==> IsTrue(t, t.lits[i]) && t.lits[i].variable in t.vardata) &&
    (forall v {:trigger Pos(t.lits, v)} :: v in t.assigns ==> Pos(t.lits, v) < |t.lits|)
  }

  ghost predicate Limited(t: Trail) {
    (forall c, d :: 0 <= c <= d < |t.lim| ==> t.lim[c] <= t.lim[d]) &&
    (forall d :: 0 <= d < |t.lim| ==> t.lim[d] <= |t.lits|)
  }

  /** A literal's level is the number of decision levels started at or before it. */
  ghost predicate Leveled(t: Trail) {
    (forall i :: 0 <= i < |t.lits| ==> Level(t, t.lits[i].variable) <= |t.lim|) &&
    (forall i, d {:trigger t.lits[i], t.lim[d]} :: 0 <= i < |t.lits| && 0 <= d < |t.lim| ==>
       (t.lim[d] <= i <==> d < Level(t, t.lits[i].variable)))
  }

  ghost predicate Ok(t: Trail) {
    Distinct(t.lits) && Recorded(t) && Limited(t) && Leveled(t)
  }

  /** The position of an assigned literal. */
  lemma Locate(t: Trail, l: Literal) returns (i: nat)
    requires Ok(t) && (IsTrue(t, l) || IsFalse(t, l))
    ensures i == Pos(t.lits, l.variable) && i < |t.lits|
    ensures IsTrue(t, l) <==> t.lits[i] == l
    ensures IsFalse(t, l) <==> t.lits[i] == l.Negated()
  {
    hide Pos;
    i := Pos(t.lits, l.variable);
    assert IsTrue(t, t.lits[i]);
  }

  lemma LevelsGrow(t: Trail, i: nat, j: nat)
    requires Ok(t) && i <= j < |t.lits|
    ensures Level(t, t.lits[i].variable) <= Level(t, t.lits[j].variable) <= |t.lim|
  {
    var d := Level(t, t.lits[j].variable);
    if d < |t.lim| {
      assert t.lim[d] <= j <==> d < d;
      assert t.lim[d] <= i <==> d < Level(t, t.lits[i].variable);
    }
  }

  function Start(t: Trail): nat { if t.lim == [] then 0 else t.lim[|t.lim| - 1] }

  lemma CurrentLevel(t: Trail, i: nat)
    requires Ok(t) && i < |t.lits|
    ensures Start(t) <= i <==> Level(t, t.lits[i].variable) == |t.lim|
  {
    if t.lim != [] {
      assert t.lim[|t.lim| - 1] <= i <==> |t.lim| - 1 < Level(t, t.lits[i].variable);
    }
  }

  /** `p` put on the trail at the current level. */
  function Enqueued(t: Trail, p: Literal, from: Reason): Trail {
    Trail(t.lits + [p], t.lim, t.assigns[p.variable := p.positive], t.vardata[p.variable := VarData(from, |t.lim|)])
  }

  lemma EnqueuedOk(t: Trail, p: Literal, from: Reason)
    requires Ok(t) && p.variable !in t.assigns
    ensures Ok(Enqueued(t, p, from))
  {
    hide Pos;
    var u := Enqueued(t, p, from);
    forall i | 0 <= i < |t.lits| ensures t.lits[i].variable != p.variable {
      assert IsTrue(t, t.lits[i]);
    }
    forall v | v in u.assigns ensures Pos(u.lits, v) < |u.lits| {
      PosAppend(t.lits, p, v);
    }
    forall i, d | 0 <= i < |u.lits| && 0 <= d < |u.lim| ensures u.lim[d] <= i <==> d < Level(u, u.lits[i].variable) {
      assert i < |t.lits| ==> u.lits[i] == t.lits[i] && Level(t, t.lits[i].variable) == Level(u, u.lits[i].variable);
    }
  }

  function Decided(t: Trail): Trail { t.(lim := t.lim + [|t.lits|]) }

  lemma DecidedOk(t: Trail)
    requires Ok(t)
    ensures Ok(Decided(t))
  {
    var u := Decided(t);
    forall i, d | 0 <= i < |u.lits| && 0 <= d < |u.lim| ensures u.lim[d] <= i <==> d < Level(u, u.lits[i].variable) {
      assert d < |t.lim| ==> u.lim[d] == t.lim[d];
    }
  }

  /** Everything above a level taken off. */
  ghost function Backtracked(t: Trail, level: nat): Trail
    requires level < |t.lim| && t.lim[level] <= |t.lits|
  {
    Trail(t.lits[..t.lim[level]], t.lim[..level], AssignedBefore(t, t.lim[level]), t.vardata)
  }

  ghost function AssignedBefore(t: Trail, n: nat): map<nat, bool> {
    map v | v in t.assigns && Pos(t.lits, v) < n :: t.assigns[v]
  }

  lemma BacktrackedOk(t: Trail, level: nat)
    requires Ok(t) && level < |t.lim|
    ensures t.lim[level] <= |t.lits| && Ok(Backtracked(t, level))
  {
    hide Pos;
    var u, n := Backtracked(t, level), t.lim[level];
    forall i | 0 <= i < |u.lits| ensures IsTrue(u, u.lits[i]) && Level(u, u.lits[i].variable) <= |u.lim| {
      PosAt(t.lits, i);
      assert u.lits[i] == t.lits[i] && IsTrue(t, t.lits[i]);
      assert t.lim[level] <= i <==> level < Level(t, t.lits[i].variable);
    }
    forall v | v in u.assigns ensures Pos(u.lits, v) < |u.lits| {
      PosPrefix(t.lits, n, v);
    }
    assert forall d :: 0 <= d < |u.lim| ==> u.lim[d] == t.lim[d];
  }

  /** Literals kept on the trail keep value and level. */
  lemma BacktrackedKeeps(t: Trail, level: nat, l: Literal)
    requires Ok(t) && level < |t.lim|
    ensures t.lim[level] <= |t.lits|
    ensures IsTrue(Backtracked(t, level), l) <==> IsTrue(t, l) && Level(t, l.variable) <= level
    ensures IsFalse(Backtracked(t, level), l) <==> IsFalse(t, l) && Level(t, l.variable) <= level
    ensures IsTrue(t, l) || IsFalse(t, l) ==>
        (Pos(t.lits, l.variable) < t.lim[level] <==> Level(t, l.variable) <= level)
  {
    hide Pos;
    if IsTrue(t, l) || IsFalse(t, l) {
      var i := Locate(t, l);
      assert t.lim[level] <= i <==> level < Level(t, t.lits[i].variable);
    }
  }

  /** `l` was made false before position `n`. */
  ghost predicate FalseBefore(t: Trail, l: Literal, n: nat) {
    Pos(t.lits, l.variable) < n && Pos(t.lits, l.variable) < |t.lits| && t.lits[Pos(t.lits, l.variable)] == l.Negated()
  }

  /** Clause `c` forced the literal at position `i`: it is its first literal and the others were false. */
  ghost predicate Forces(t: Trail, c: Clause, i: nat)
    requires i < |t.lits|
  {
    c != [] && c[0] == t.lits[i] && forall k :: 1 <= k < |c| ==> FalseBefore(t, c[k], i)
  }

  ghost predicate ReasonAt(ca: Clauses, t: Trail, i: nat)
    requires i < |t.lits|
  {
    var r := ReasonOf(t, t.lits[i].variable);
    r.Because? ==> r.cref in ca && Forces(t, ca[r.cref], i)
  }

  ghost predicate Reasoned(ca: Clauses, t: Trail) {
    forall i {:trigger ReasonAt(ca, t, i)} :: 0 <= i < |t.lits| ==> ReasonAt(ca, t, i)
  }

  lemma FalseBeforeAppend(t: Trail, p: Literal, from: Reason, l: Literal, n: nat)
    requires FalseBefore(t, l, n)
    ensures FalseBefore(Enqueued(t, p, from), l, n)
  {
    hide Pos;
    PosAppend(t.lits, p, l.variable);
  }

  lemma FalseIsBefore(t: Trail, l: Literal)
    requires Ok(t)
    ensures IsFalse(t, l) <==> FalseBefore(t, l, |t.lits|)
  {
    hide Pos;
    if IsFalse(t, l) {
      var _ := Locate(t, l);
    }
    if FalseBefore(t, l, |t.lits|) {
      assert IsTrue(t, t.lits[Pos(t.lits, l.variable)]);
    }
  }

  lemma EnqueuedReasoned(ca: Clauses, t: Trail, p: Literal, from: Reason)
    requires Ok(t) && Reasoned(ca, t) && p.variable !in t.assigns
    requires from.Because? ==> from.cref in ca && ca[from.cref] != [] && ca[from.cref][0] == p &&
                               forall k :: 1 <= k < |ca[from.cref]| ==> IsFalse(t, ca[from.cref][k])
    ensures Reasoned(ca, Enqueued(t, p, from))
  {
    hide Pos, FalseBefore, Ok;
    var u := Enqueued(t, p, from);
    forall i | 0 <= i < |u.lits| ensures ReasonAt(ca, u, i) {
      if i < |t.lits| {
        assert ReasonAt(ca, t, i);
        NotYet(t, p, i);
        var r := ReasonOf(t, t.lits[i].variable);
        if r.Because? {
          forall k | 1 <= k < |ca[r.cref]| ensures FalseBefore(u, ca[r.cref][k], i) {
            FalseBeforeAppend(t, p, from, ca[r.cref][k], i);
          }
        }
      } else if from.Because? {
        forall k | 1 <= k < |ca[from.cref]| ensures FalseBefore(u, ca[from.cref][k], i) {
          FalseIsBefore(t, ca[from.cref][k]);
          FalseBeforeAppend(t, p, from, ca[from.cref][k], i);
        }
      }
    }
  }

  lemma NotYet(t: Trail, p: Literal, i: nat)
    requires Ok(t) && p.variable !in t.assigns && i < |t.lits|
    ensures t.lits[i].variable != p.variable
  {
    assert IsTrue(t, t.lits[i]);
  }

  lemma BacktrackedReasoned(ca: Clauses, t: Trail, level: nat)
    requires Ok(t) && Reasoned(ca, t) && level < |t.lim|
    ensures t.lim[level] <= |t.lits| && Reasoned(ca, Backtracked(t, level))
  {
    hide Pos;
    var u, n := Backtracked(t, level), t.lim[level];
    forall i | 0 <= i < |u.lits| ensures ReasonAt(ca, u, i) {
      assert ReasonAt(ca, t, i) && u.lits[i] == t.lits[i];
      var r := ReasonOf(t, t.lits[i].variable);
      if r.Because? {
        forall k | 1 <= k < |ca[r.cref]| ensures FalseBefore(u, ca[r.cref][k], i) {
          PosPrefix(t.lits, n, ca[r.cref][k].variable);
        }
      }
    }
  }

  ghost predicate ModelsAll(m: Model, ca: Clauses) {
    forall cr :: cr in ca ==> Satisfies(m, ca[cr])
  }

  /** Agreement with the literals that have no reason: decisions and unit facts. */
  ghost predicate Accepts(m: Model, t: Trail, n: nat)
    requires n <= |t.lits|
  {
    forall i :: 0 <= i < n && ReasonOf(t, t.lits[i].variable) == NoReason ==> Holds(m, t.lits[i])
  }

  /** Every literal with a reason follows from the clauses and the reasonless literals before it. */
  lemma {:induction false} TrailImplied(ca: Clauses, t: Trail, m: Model, n: nat)
    requires Ok(t) && Reasoned(ca, t) && ModelsAll(m, ca)
    requires n <= |t.lits| && Accepts(m, t, n)
    ensures forall i :: 0 <= i < n ==> Holds(m, t.lits[i])
  {
    hide Pos, Ok;
    if n > 0 {
      TrailImplied(ca, t, m, n - 1);
      assert ReasonAt(ca, t, n - 1);
      var r := ReasonOf(t, t.lits[n - 1].variable);
      if r.Because? {
        var l :| l in ca[r.cref] && Holds(m, l);
        var k :| 0 <= k < |ca[r.cref]| && ca[r.cref][k] == l;
        assert k > 0 ==> FalseBefore(t, l, n - 1);
      }
    }
  }
}
