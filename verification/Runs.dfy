/** The symmetry layer as a state machine. */
module Runs {
  // The solver notifies and cancels literals in last-in first-out order, the statuses walk and
  // undo, and clauses are emitted.

  import opened Logic
  import opened LexLeader
  import opened Lookup
  import opened Soundness

  /** `trail` holds the literals notified and not yet cancelled, `pending` the clauses that
      wait in the injector under their cause, `emitted` every clause ever handed over. */
  datatype System = System(
    values: Partial,
    trail: seq<Literal>,
    statuses: seq<Status>,
    pending: map<nat, seq<Clause>>,
    emitted: set<Clause>)

  ghost predicate ValidGroup(gens: seq<Generator>, order: seq<nat>, ranks: seq<nat>, mode: ValueMode) {
    forall i :: 0 <= i < |gens| ==>
      ValidGenerator(gens[i]) && gens[i].order == order && gens[i].ranks == ranks && gens[i].mode == mode
  }

  ghost function Watch(gens: seq<Generator>, v: nat): set<nat> {
    set i: nat | i < |gens| && Moves(gens[i].inverse, v)
  }

  // ---------------------------------------------------------------- the steps

  /** Units are generated once, when every walk is at its start. */
  ghost function Units(gens: seq<Generator>): set<Clause> {
    set i | 0 <= i < |gens| && IsInverting(gens[i], 0) :: InvertingUnit(gens[i], 0)
  }

  ghost predicate Init(gens: seq<Generator>, base: Partial, s: System) {
    s.values == base && s.trail == [] && s.pending == map[] && s.emitted == Units(gens) &&
    |s.statuses| == |gens| &&
    forall i :: 0 <= i < |gens| ==> s.statuses[i] == Status(0, [], ACTIVE)
  }

  function AddPending(pending: map<nat, seq<Clause>>, cause: nat, c: Clause): map<nat, seq<Clause>> {
    if cause in pending && pending[cause] != [] then pending else pending[cause := [c]]
  }

  /** The statuses in `visited` have seen the assignment `p` of variable `v`, the others not. */
  ghost predicate Visited(gens: seq<Generator>, p: Partial, v: nat, visited: set<nat>,
                          before: seq<Status>, after: seq<Status>)
  {
    |before| == |after| == |gens| &&
    forall i {:trigger after[i]} :: 0 <= i < |gens| ==>
      if i in visited
      then ValidGenerator(gens[i]) && before[i].index <= |gens[i].lookup| &&
           after[i] == Notified(gens[i], p, v, before[i])
      else after[i] == before[i]
  }

  ghost predicate Quiet(visited: set<nat>, after: seq<Status>) {
    forall i :: i in visited && i < |after| ==> after[i].state != REDUCER
  }

  /** All watchers were visited and none reduces. */
  ghost predicate NotifyQuietly(gens: seq<Generator>, s: System, l: Literal, t: System) {
    l.variable !in s.values &&
    t.values == s.values[l.variable := l.positive] && t.trail == s.trail + [l] &&
    t.pending == s.pending && t.emitted == s.emitted &&
    Visited(gens, t.values, l.variable, Watch(gens, l.variable), s.statuses, t.statuses) &&
    Quiet(Watch(gens, l.variable), t.statuses)
  }

  /** Some watchers were visited, the last of them, `r`, reduces and emits `c`; the loop
      breaks and the remaining watchers do not hear of the literal. */
  ghost predicate NotifyEmits(gens: seq<Generator>, s: System, l: Literal, visited: set<nat>, r: nat, c: Clause,
                              t: System) {
    l.variable !in s.values &&
    t.values == s.values[l.variable := l.positive] && t.trail == s.trail + [l] &&
    t.pending == AddPending(s.pending, l.variable, c) && t.emitted == s.emitted + {c} &&
    visited <= Watch(gens, l.variable) && r in visited && r < |t.statuses| &&
    Visited(gens, t.values, l.variable, visited, s.statuses, t.statuses) &&
    Quiet(visited - {r}, t.statuses) && t.statuses[r].state == REDUCER &&
    IsEsbp(gens[r], t.values, l.variable, t.statuses[r].index, c)
  }

  ghost predicate Notify(gens: seq<Generator>, s: System, l: Literal, t: System) {
    NotifyQuietly(gens, s, l, t) || exists visited, r, c :: NotifyEmits(gens, s, l, visited, r, c, t)
  }

  /** The solver cancels the latest notified literal, or one it had queued but not notified. */
  ghost predicate Cancel(gens: seq<Generator>, s: System, l: Literal, t: System) {
    (if l.variable in s.values
     then s.trail != [] && s.trail[|s.trail| - 1] == l && t.trail == s.trail[..|s.trail| - 1]
     else t.trail == s.trail) &&
    t.values == s.values - {l.variable} &&
    t.pending == s.pending[l.variable := []] && t.emitted == s.emitted &&
    |t.statuses| == |s.statuses| == |gens| &&
    forall i {:trigger t.statuses[i]} :: 0 <= i < |gens| ==>
      t.statuses[i] == if i in Watch(gens, l.variable) then Cancelled(l.variable, s.statuses[i]) else s.statuses[i]
  }

  /** The solver takes a waiting clause. */
  ghost predicate Fetch(s: System, l: Literal, t: System) {
    l.variable in s.pending && s.pending[l.variable] != [] &&
    t == s.(pending := s.pending[l.variable := s.pending[l.variable][..|s.pending[l.variable]| - 1]])
  }

  ghost predicate Step(gens: seq<Generator>, s: System, l: Literal, t: System) {
    Notify(gens, s, l, t) || Cancel(gens, s, l, t) || Fetch(s, l, t)
  }

  ghost predicate ValidRun(gens: seq<Generator>, run: seq<System>, events: seq<Literal>) {
    |run| == |events| + 1 &&
    forall i :: 0 <= i < |events| ==> Step(gens, run[i], events[i], run[i + 1])
  }

  // ---------------------------------------------------------------- the invariant

  ghost function AssignedBy(base: Partial, trail: seq<Literal>): Partial {
    if trail == [] then base
    else var l := trail[|trail| - 1]; AssignedBy(base, trail[..|trail| - 1])[l.variable := l.positive]
  }

  ghost predicate FreshTrail(base: Partial, trail: seq<Literal>) {
    trail != [] ==>
      FreshTrail(base, trail[..|trail| - 1]) &&
      trail[|trail| - 1].variable !in AssignedBy(base, trail[..|trail| - 1])
  }

  /** Popping the stack along with the trail always leads back to an earlier lookup index
      below which all pairs were assigned equal values already. */
  ghost predicate Undoable(g: Generator, base: Partial, trail: seq<Literal>, index: nat, infos: seq<LookupInfo>)
    decreases |trail|
  {
    index <= |g.lookup| && PairsAgree(g, AssignedBy(base, trail), index) &&
    if trail == [] then index == 0 && infos == []
    else if infos != [] && infos[|infos| - 1].variable == trail[|trail| - 1].variable then
      infos[|infos| - 1].backIndex < index && Moves(g.inverse, trail[|trail| - 1].variable) &&
      Undoable(g, base, trail[..|trail| - 1], infos[|infos| - 1].backIndex, infos[..|infos| - 1])
    else Undoable(g, base, trail[..|trail| - 1], index, infos)
  }

  ghost predicate Inv(gens: seq<Generator>, base: Partial, s: System) {
    s.values == AssignedBy(base, s.trail) && FreshTrail(base, s.trail) &&
    |s.statuses| == |gens| &&
    (forall i {:trigger s.statuses[i]} :: 0 <= i < |gens| ==>
       Undoable(gens[i], base, s.trail, s.statuses[i].index, s.statuses[i].infos)) &&
    (forall v :: v in s.pending && s.pending[v] != [] ==> exists i :: 0 <= i < |s.trail| && s.trail[i].variable == v)
  }

  lemma {:induction false} InfosInTrail(g: Generator, base: Partial, trail: seq<Literal>, index: nat,
                                        infos: seq<LookupInfo>)
    requires Undoable(g, base, trail, index, infos) && infos != []
    ensures infos[|infos| - 1].variable in AssignedBy(base, trail)
    decreases |trail|
  {
    if infos[|infos| - 1].variable != trail[|trail| - 1].variable {
      InfosInTrail(g, base, trail[..|trail| - 1], index, infos);
    }
  }

  lemma PairsStillAgree(g: Generator, p: Partial, q: Partial, k: nat)
    requires PairsAgree(g, p, k) && forall v :: v in p ==> v in q && q[v] == p[v]
    ensures PairsAgree(g, q, k)
  {
    forall i | 0 <= i < k ensures PairAgrees(g, q, i) { assert PairAgrees(g, p, i); }
  }

  lemma NotifyKeepsUndoable(g: Generator, base: Partial, trail: seq<Literal>, l: Literal, s: Status, visit: bool)
    requires ValidGenerator(g) && Undoable(g, base, trail, s.index, s.infos)
    requires l.variable !in AssignedBy(base, trail) && (visit ==> Moves(g.inverse, l.variable))
    ensures var t := if visit then Notified(g, AssignedBy(base, trail + [l]), l.variable, s) else s;
            Undoable(g, base, trail + [l], t.index, t.infos)
  {
    var p := AssignedBy(base, trail);
    assert (trail + [l])[..|trail|] == trail;
    PairsStillAgree(g, p, p[l.variable := l.positive], s.index);
    if s.infos != [] { InfosInTrail(g, base, trail, s.index, s.infos); }
    var t := Notified(g, p[l.variable := l.positive], l.variable, s);
    assert t.index > s.index ==> t.infos[..|t.infos| - 1] == s.infos;
  }

  lemma NotifyKeepsInv(gens: seq<Generator>, base: Partial, s: System, l: Literal, visited: set<nat>, t: System)
    requires Inv(gens, base, s) && l.variable !in s.values
    requires t.values == s.values[l.variable := l.positive] && t.trail == s.trail + [l]
    requires forall v :: v in t.pending && t.pending[v] != [] ==>
        v == l.variable || (v in s.pending && s.pending[v] != [])
    requires Visited(gens, t.values, l.variable, visited, s.statuses, t.statuses) && visited <= Watch(gens, l.variable)
    requires forall i :: 0 <= i < |gens| ==> ValidGenerator(gens[i])
    ensures Inv(gens, base, t)
  {
    assert t.trail[..|t.trail| - 1] == s.trail;
    forall i | 0 <= i < |gens|
      ensures Undoable(gens[i], base, t.trail, t.statuses[i].index, t.statuses[i].infos)
    {
      NotifyKeepsUndoable(gens[i], base, s.trail, l, s.statuses[i], i in visited);
    }
    forall v | v in t.pending && t.pending[v] != []
      ensures exists i :: 0 <= i < |t.trail| && t.trail[i].variable == v
    {
      if v == l.variable {
        assert t.trail[|s.trail|].variable == v;
      } else {
        var i :| 0 <= i < |s.trail| && s.trail[i].variable == v;
        assert t.trail[i].variable == v;
      }
    }
  }

  lemma {:induction false} TrailAssigned(base: Partial, trail: seq<Literal>, i: int)
    requires FreshTrail(base, trail) && 0 <= i < |trail|
    ensures trail[i].variable in AssignedBy(base, trail)
    ensures AssignedBy(base, trail)[trail[i].variable] == trail[i].positive
    decreases |trail|
  {
    if i < |trail| - 1 { TrailAssigned(base, trail[..|trail| - 1], i); }
  }

  /** A status pops its stack on exactly the literals it pushed for, so whether a literal is
      watched makes no difference. */
  lemma CancelKeepsInv(gens: seq<Generator>, base: Partial, s: System, l: Literal, t: System)
    requires Inv(gens, base, s) && Cancel(gens, s, l, t)
    ensures Inv(gens, base, t)
  {
    forall i | 0 <= i < |gens|
      ensures Undoable(gens[i], base, t.trail, t.statuses[i].index, t.statuses[i].infos)
    {
      var st := s.statuses[i];
      if l.variable !in s.values && st.infos != [] {
        InfosInTrail(gens[i], base, s.trail, st.index, st.infos);
      }
    }
    if l.variable in s.values {
      assert t.values == AssignedBy(base, t.trail);
    }
    forall v | v in t.pending && t.pending[v] != []
      ensures exists i :: 0 <= i < |t.trail| && t.trail[i].variable == v
    {
      var i :| 0 <= i < |s.trail| && s.trail[i].variable == v;
      assert i < |t.trail| ==> t.trail[i] == s.trail[i];
    }
  }

  lemma StepKeepsInv(gens: seq<Generator>, base: Partial, s: System, l: Literal, t: System)
    requires forall i :: 0 <= i < |gens| ==> ValidGenerator(gens[i])
    requires Inv(gens, base, s) && Step(gens, s, l, t)
    ensures Inv(gens, base, t)
  {
    if NotifyQuietly(gens, s, l, t) {
      NotifyKeepsInv(gens, base, s, l, Watch(gens, l.variable), t);
    } else if Notify(gens, s, l, t) {
      var visited, r, c :| NotifyEmits(gens, s, l, visited, r, c, t);
      NotifyKeepsInv(gens, base, s, l, visited, t);
    } else if Cancel(gens, s, l, t) {
      CancelKeepsInv(gens, base, s, l, t);
    }
  }

  /** In every reachable state all pairs below each lookup index are assigned equal values,
      and each undo stack leads back through such states. */
  lemma {:induction false} RunKeepsInv(gens: seq<Generator>, base: Partial, run: seq<System>, events: seq<Literal>,
                                       i: nat)
    requires forall j :: 0 <= j < |gens| ==> ValidGenerator(gens[j])
    requires ValidRun(gens, run, events) && Inv(gens, base, run[0]) && i < |run|
    ensures Inv(gens, base, run[i])
    ensures forall j {:trigger run[i].statuses[j]} :: 0 <= j < |gens| ==>
        PairsAgree(gens[j], run[i].values, run[i].statuses[j].index)
  {
    if i > 0 {
      RunKeepsInv(gens, base, run, events, i - 1);
      StepKeepsInv(gens, base, run[i - 1], events[i - 1], run[i]);
    }
  }

  lemma InitInv(gens: seq<Generator>, base: Partial, s: System)
    requires Init(gens, base, s)
    ensures Inv(gens, base, s)
  {
  }

  // ---------------------------------------------------------------- backtracking restores

  /** Lookup index and stack once the trail is cancelled down to its first `k` literals. */
  ghost function Unwind(trail: seq<Literal>, k: nat, index: nat, infos: seq<LookupInfo>): (nat, seq<LookupInfo>)
    requires k <= |trail|
    decreases |trail|
  {
    if |trail| == k then (index, infos)
    else if infos != [] && infos[|infos| - 1].variable == trail[|trail| - 1].variable
    then Unwind(trail[..|trail| - 1], k, infos[|infos| - 1].backIndex, infos[..|infos| - 1])
    else Unwind(trail[..|trail| - 1], k, index, infos)
  }

  ghost predicate UnwindsTo(gens: seq<Generator>, s: System, t: System) {
    |s.statuses| == |t.statuses| == |gens| && s.trail <= t.trail &&
    forall j {:trigger t.statuses[j]} :: 0 <= j < |gens| ==>
      Unwind(t.trail, |s.trail|, t.statuses[j].index, t.statuses[j].infos) == (s.statuses[j].index, s.statuses[j].infos)
  }

  lemma NotifyUnwinds(g: Generator, base: Partial, trail: seq<Literal>, l: Literal, s: Status, visit: bool, k: nat)
    requires ValidGenerator(g) && Undoable(g, base, trail, s.index, s.infos)
    requires l.variable !in AssignedBy(base, trail) && k <= |trail|
    ensures var t := if visit then Notified(g, AssignedBy(base, trail + [l]), l.variable, s) else s;
            Unwind(trail + [l], k, t.index, t.infos) == Unwind(trail, k, s.index, s.infos)
  {
    assert (trail + [l])[..|trail|] == trail;
    if s.infos != [] { InfosInTrail(g, base, trail, s.index, s.infos); }
    var t := Notified(g, AssignedBy(base, trail + [l]), l.variable, s);
    assert t.index > s.index ==> t.infos[..|t.infos| - 1] == s.infos;
  }

  lemma NotifyKeepsUnwind(gens: seq<Generator>, base: Partial, z: System, s: System, l: Literal, visited: set<nat>,
                          t: System)
    requires forall i :: 0 <= i < |gens| ==> ValidGenerator(gens[i])
    requires Inv(gens, base, s) && UnwindsTo(gens, z, s) && l.variable !in s.values
    requires t.values == s.values[l.variable := l.positive] && t.trail == s.trail + [l]
    requires Visited(gens, t.values, l.variable, visited, s.statuses, t.statuses)
    ensures UnwindsTo(gens, z, t)
  {
    assert t.trail[..|t.trail| - 1] == s.trail;
    forall j | 0 <= j < |gens|
      ensures Unwind(t.trail, |z.trail|, t.statuses[j].index, t.statuses[j].infos) ==
                (z.statuses[j].index, z.statuses[j].infos)
    {
      NotifyUnwinds(gens[j], base, s.trail, l, s.statuses[j], j in visited, |z.trail|);
    }
  }

  lemma StepKeepsUnwind(gens: seq<Generator>, base: Partial, z: System, s: System, l: Literal, t: System)
    requires forall i :: 0 <= i < |gens| ==> ValidGenerator(gens[i])
    requires Inv(gens, base, s) && UnwindsTo(gens, z, s)
    requires Step(gens, s, l, t) && |z.trail| <= |t.trail|
    ensures UnwindsTo(gens, z, t)
  {
    if NotifyQuietly(gens, s, l, t) {
      NotifyKeepsUnwind(gens, base, z, s, l, Watch(gens, l.variable), t);
    } else if Notify(gens, s, l, t) {
      var visited, r, c :| NotifyEmits(gens, s, l, visited, r, c, t);
      NotifyKeepsUnwind(gens, base, z, s, l, visited, t);
    } else if Cancel(gens, s, l, t) {
      forall j | 0 <= j < |gens|
        ensures Unwind(t.trail, |z.trail|, t.statuses[j].index, t.statuses[j].infos) ==
                (z.statuses[j].index, z.statuses[j].infos)
      {
        var st := s.statuses[j];
        if l.variable !in s.values && st.infos != [] {
          InfosInTrail(gens[j], base, s.trail, st.index, st.infos);
        }
      }
    }
  }

  /** Whatever happens between two states with equally long trails, in whatever order watchers
      were visited and wherever a loop broke off: if the trail was never shorter in between,
      the values, every lookup index and every undo stack are back where they were. */
  lemma BacktrackRestores(gens: seq<Generator>, base: Partial, run: seq<System>, events: seq<Literal>)
    requires forall i :: 0 <= i < |gens| ==> ValidGenerator(gens[i])
    requires ValidRun(gens, run, events) && Inv(gens, base, run[0])
    requires forall i :: 0 <= i < |run| ==> |run[0].trail| <= |run[i].trail|
    requires |run[|run| - 1].trail| == |run[0].trail|
    ensures var s, t := run[0], run[|run| - 1];
            t.trail == s.trail && t.values == s.values && |s.statuses| == |t.statuses| == |gens| &&
            forall j {:trigger t.statuses[j]} :: 0 <= j < |gens| ==>
              t.statuses[j].index == s.statuses[j].index && t.statuses[j].infos == s.statuses[j].infos
  {
    RunUnwinds(gens, base, run, events, |run| - 1);
    RunKeepsInv(gens, base, run, events, |run| - 1);
  }

  lemma {:induction false} RunUnwinds(gens: seq<Generator>, base: Partial, run: seq<System>, events: seq<Literal>,
                                      i: nat)
    requires forall j :: 0 <= j < |gens| ==> ValidGenerator(gens[j])
    requires ValidRun(gens, run, events) && Inv(gens, base, run[0]) && i < |run|
    requires forall j :: 0 <= j < |run| ==> |run[0].trail| <= |run[j].trail|
    ensures UnwindsTo(gens, run[0], run[i])
  {
    if i > 0 {
      RunUnwinds(gens, base, run, events, i - 1);
      RunKeepsInv(gens, base, run, events, i - 1);
      StepKeepsUnwind(gens, base, run[0], run[i - 1], events[i - 1], run[i]);
    }
  }

  // ---------------------------------------------------------------- soundness of every run

  /** A reducing status stands at a pair that is assigned and differs. */
  lemma EmitterDecided(gens: seq<Generator>, base: Partial, s: System, l: Literal, visited: set<nat>, r: nat,
                       c: Clause, t: System)
    requires NotifyEmits(gens, s, l, visited, r, c, t) && Inv(gens, base, t)
    ensures ValidGenerator(gens[r]) && DecidedAt(gens[r], t.values, t.statuses[r].index)
    ensures Verdict(gens[r], t.values, t.statuses[r].index) == REDUCER
  {
    assert t.statuses[r] == Notified(gens[r], t.values, l.variable, s.statuses[r]);
  }

  ghost predicate Reduces(g: Generator, p: Partial, k: nat) {
    ValidGenerator(g) && DecidedAt(g, p, k) && Verdict(g, p, k) == REDUCER
  }

  /** Where a walk has come to an assigned pair that differs and the verdict is REDUCER, the
      element is not later than its inverse. */
  ghost predicate AlignedState(gens: seq<Generator>, s: System) {
    |s.statuses| == |gens| &&
    forall r {:trigger s.statuses[r]} :: 0 <= r < |gens| && Reduces(gens[r], s.values, s.statuses[r].index) ==>
      Aligned(gens[r], s.statuses[r].index)
  }

  lemma StepSound(gens: seq<Generator>, f: set<Clause>, order: seq<nat>, ranks: seq<nat>, mode: ValueMode,
                  base: Partial, s: System, l: Literal, t: System, m: Model)
    requires ValidGroup(gens, order, ranks, mode) && forall i :: 0 <= i < |gens| ==> IsSymmetry(gens[i], f)
    requires LexLeast(order, mode, f, m)
    requires Inv(gens, base, s) && Step(gens, s, l, t) && AlignedState(gens, t)
    requires Models(m, s.emitted)
    ensures Models(m, t.emitted)
  {
    StepKeepsInv(gens, base, s, l, t);
    if Notify(gens, s, l, t) && !NotifyQuietly(gens, s, l, t) {
      var visited, r, c :| NotifyEmits(gens, s, l, visited, r, c, t);
      EmissionSound(gens, f, base, s, l, visited, r, c, t, m);
    }
  }

  lemma EmissionSound(gens: seq<Generator>, f: set<Clause>, base: Partial, s: System, l: Literal,
                      visited: set<nat>, r: nat, c: Clause, t: System, m: Model)
    requires NotifyEmits(gens, s, l, visited, r, c, t) && Inv(gens, base, t) && AlignedState(gens, t)
    requires IsSymmetry(gens[r], f) && LexLeast(gens[r].order, gens[r].mode, f, m)
    ensures Satisfies(m, c)
  {
    EmitterDecided(gens, base, s, l, visited, r, c, t);
    EsbpHolds(gens[r], f, t.values, l.variable, t.statuses[r].index, c, m);
  }

  /** Every clause a run emits, unit or symmetry-breaking, holds in every lexicographically
      least model of the formula. */
  lemma {:induction false} RunSound(gens: seq<Generator>, f: set<Clause>, order: seq<nat>, ranks: seq<nat>,
                                    mode: ValueMode,
                                    base: Partial, run: seq<System>, events: seq<Literal>, i: nat, m: Model)
    requires ValidGroup(gens, order, ranks, mode) && forall j :: 0 <= j < |gens| ==> IsSymmetry(gens[j], f)
    requires LexLeast(order, mode, f, m)
    requires ValidRun(gens, run, events) && Init(gens, base, run[0]) && i < |run|
    requires forall j :: 0 <= j < |run| ==> AlignedState(gens, run[j])
    ensures Models(m, run[i].emitted)
  {
    if i == 0 {
      forall c | c in Units(gens) ensures Satisfies(m, c) {
        var j :| 0 <= j < |gens| && IsInverting(gens[j], 0) && c == InvertingUnit(gens[j], 0);
        InvertingUnitHolds(gens[j], f, m);
      }
    } else {
      RunSound(gens, f, order, ranks, mode, base, run, events, i - 1, m);
      InitInv(gens, base, run[0]);
      RunKeepsInv(gens, base, run, events, i - 1);
      StepSound(gens, f, order, ranks, mode, base, run[i - 1], events[i - 1], run[i], m);
    }
  }

  lemma EmittedGrows(gens: seq<Generator>, run: seq<System>, events: seq<Literal>, i: nat)
    requires ValidRun(gens, run, events) && i < |run|
    ensures run[0].emitted <= run[i].emitted
  {
    if i > 0 { EmittedGrows(gens, run, events, i - 1); }
  }

  /** Symmetry breaking never makes a satisfiable formula unsatisfiable: the formula with all
      clauses of a run is satisfiable if and only if the formula is. */
  lemma RunEquisatisfiable(gens: seq<Generator>, f: set<Clause>, order: seq<nat>, ranks: seq<nat>, mode: ValueMode,
                           base: Partial, run: seq<System>, events: seq<Literal>)
    requires ValidGroup(gens, order, ranks, mode) && forall j :: 0 <= j < |gens| ==> IsSymmetry(gens[j], f)
    requires ValidRun(gens, run, events) && Init(gens, base, run[0])
    requires forall j :: 0 <= j < |run| ==> AlignedState(gens, run[j])
    ensures Satisfiable(f + run[|run| - 1].emitted) <==> Satisfiable(f)
  {
    if Satisfiable(f) {
      LexLeastExists(order, mode, f);
      var m :| LexLeast(order, mode, f, m);
      RunSound(gens, f, order, ranks, mode, base, run, events, |run| - 1, m);
      assert Models(m, f + run[|run| - 1].emitted);
    }
    if Satisfiable(f + run[|run| - 1].emitted) {
      var m :| Models(m, f + run[|run| - 1].emitted);
      assert Models(m, f);
    }
  }

  /** For generators all of whose cycles have length two no hypothesis on the run is left. */
  lemma InvolutionsEquisatisfiable(gens: seq<Generator>, f: set<Clause>, order: seq<nat>, ranks: seq<nat>,
                                   mode: ValueMode,
                                   base: Partial, run: seq<System>, events: seq<Literal>)
    requires ValidGroup(gens, order, ranks, mode)
    requires forall j :: 0 <= j < |gens| ==> IsSymmetry(gens[j], f) && Involution(gens[j])
    requires ValidRun(gens, run, events) && Init(gens, base, run[0])
    ensures Satisfiable(f + run[|run| - 1].emitted) <==> Satisfiable(f)
  {
    InitInv(gens, base, run[0]);
    forall j | 0 <= j < |run| ensures AlignedState(gens, run[j]) {
      RunKeepsInv(gens, base, run, events, j);
      forall r | 0 <= r < |gens| && Reduces(gens[r], run[j].values, run[j].statuses[r].index)
        ensures Aligned(gens[r], run[j].statuses[r].index)
      {
        InvolutionAligned(gens[r], run[j].values, run[j].statuses[r].index);
      }
    }
    RunEquisatisfiable(gens, f, order, ranks, mode, base, run, events);
  }

  /** The clause of a REDUCER verdict as the solver receives it: every literal false, the
      reason's falsified literal in slot 1, at least two literals unless the first pair of the
      emitting generator is x, not x and x has just been assigned. */
  lemma EmittedIsConflict(gens: seq<Generator>, base: Partial, s: System, l: Literal, visited: set<nat>, r: nat,
                          c: Clause, t: System)
    requires forall i :: 0 <= i < |gens| ==> ValidGenerator(gens[i])
    requires Inv(gens, base, s) && NotifyEmits(gens, s, l, visited, r, c, t)
    ensures forall k :: k in c ==> FalseIn(t.values, k)
    ensures NoRepeats(c)
    ensures |c| >= 2 <==>
        !(t.statuses[r].index == 0 && IsInverting(gens[r], 0) && gens[r].lookup[0].variable == l.variable)
    ensures |c| >= 2 ==> c[1] == l.Negated()
    ensures l.variable in t.pending && t.pending[l.variable] == [c]
  {
    NotifyKeepsInv(gens, base, s, l, visited, t);
    EmitterDecided(gens, base, s, l, visited, r, c, t);
    EsbpIsFalsified(gens[r], t.values, l.variable, t.statuses[r].index, c);
    EsbpSize(gens[r], t.values, l.variable, t.statuses[r].index, c);
    if l.variable in s.pending && s.pending[l.variable] != [] {
      var i :| 0 <= i < |s.trail| && s.trail[i].variable == l.variable;
      TrailAssigned(base, s.trail, i);
    }
  }

  /** Once the solver has made the inverting units true, every emitted clause has at least two
      literals: a status never reduces at such a pair. */
  lemma UnitsPreventShortClauses(gens: seq<Generator>, base: Partial, s: System, l: Literal, visited: set<nat>,
                                 r: nat, c: Clause, t: System)
    requires forall i :: 0 <= i < |gens| ==> ValidGenerator(gens[i])
    requires Inv(gens, base, s) && NotifyEmits(gens, s, l, visited, r, c, t)
    requires IsInverting(gens[r], 0) ==> !FalseIn(t.values, InvertingUnit(gens[r], 0)[0])
    ensures |c| >= 2
  {
    EmittedIsConflict(gens, base, s, l, visited, r, c, t);
    NotifyKeepsInv(gens, base, s, l, visited, t);
    EmitterDecided(gens, base, s, l, visited, r, c, t);
  }
}
