/** What the early exit from the notify loop costs. */
module Detection {
  // Nothing, if the solver backtracks on an emitted clause.
  // Then every lookup index is the first pair that does not agree, and no generator stands
  // unnoticed at a pair that calls for a clause.

  import opened Logic
  import opened LexLeader
  import opened Lookup
  import opened Soundness
  import opened Runs

  ghost predicate Exact(g: Generator, p: Partial, index: nat) {
    ValidGenerator(g) && StopsAt(g, p, 0, index) && Verdict(g, p, index) != REDUCER
  }

  ghost predicate Pops(trail: seq<Literal>, infos: seq<LookupInfo>) {
    trail != [] && infos != [] && infos[|infos| - 1].variable == trail[|trail| - 1].variable
  }

  /** Exact on every prefix of the trail that the undo stack leads back to. */
  ghost predicate Tracks(g: Generator, base: Partial, trail: seq<Literal>, index: nat, infos: seq<LookupInfo>)
    decreases |trail|, 1
  {
    Exact(g, AssignedBy(base, trail), index) && TracksBelow(g, base, trail, index, infos)
  }

  ghost predicate TracksBelow(g: Generator, base: Partial, trail: seq<Literal>, index: nat, infos: seq<LookupInfo>)
    decreases |trail|, 0
  {
    trail != [] ==>
      if Pops(trail, infos)
      then Tracks(g, base, trail[..|trail| - 1], infos[|infos| - 1].backIndex, infos[..|infos| - 1])
      else Tracks(g, base, trail[..|trail| - 1], index, infos)
  }

  ghost predicate AllTrack(gens: seq<Generator>, base: Partial, s: System) {
    |s.statuses| == |gens| &&
    forall i {:trigger s.statuses[i]} :: 0 <= i < |gens| ==>
      Tracks(gens[i], base, s.trail, s.statuses[i].index, s.statuses[i].infos)
  }

  ghost predicate AllTrackBelow(gens: seq<Generator>, base: Partial, s: System) {
    |s.statuses| == |gens| && s.trail != [] &&
    forall i {:trigger s.statuses[i]} :: 0 <= i < |gens| ==>
      TracksBelow(gens[i], base, s.trail, s.statuses[i].index, s.statuses[i].infos)
  }

  lemma UnmovedPair(g: Generator, p: Partial, v: nat, b: bool, i: int)
    requires ValidGenerator(g) && !Moves(g.inverse, v) && 0 <= i < |g.lookup|
    ensures g.lookup[i].variable != v && g.inverse[g.lookup[i]].variable != v
    ensures PairAgrees(g, p[v := b], i) == PairAgrees(g, p, i)
  {
    var element, inverse := g.lookup[i], g.inverse[g.lookup[i]];
    var positive := Literal(inverse.variable, true);
    assert MovesImage(g.inverse, element) && MovesImage(g.inverse, inverse);
    assert inverse == positive || Opposite(inverse, positive);
  }

  /** A literal the generator does not move leaves its walk where it was. */
  lemma UnwatchedStaysExact(g: Generator, p: Partial, v: nat, b: bool, index: nat)
    requires Exact(g, p, index) && !Moves(g.inverse, v)
    ensures Exact(g, p[v := b], index)
  {
    var q := p[v := b];
    forall i | 0 <= i < index ensures PairAgrees(g, q, i) {
      assert PairAgrees(g, p, i);
      UnmovedPair(g, p, v, b, i);
    }
    if index < |g.lookup| { UnmovedPair(g, p, v, b, index); }
  }

  lemma StatusTracksOn(g: Generator, base: Partial, trail: seq<Literal>, l: Literal, s: Status, visit: bool)
    requires ValidGenerator(g) && s.index <= |g.lookup| && Tracks(g, base, trail, s.index, s.infos)
    requires Undoable(g, base, trail, s.index, s.infos) && l.variable !in AssignedBy(base, trail)
    ensures var t := if visit then Notified(g, AssignedBy(base, trail + [l]), l.variable, s) else s;
            TracksBelow(g, base, trail + [l], t.index, t.infos) &&
            ((if visit then t.state != REDUCER else !Moves(g.inverse, l.variable)) ==>
              Tracks(g, base, trail + [l], t.index, t.infos))
  {
    if visit {
      VisitedTracksOn(g, base, trail, l, s);
    } else {
      assert (trail + [l])[..|trail|] == trail;
      if s.infos != [] { InfosInTrail(g, base, trail, s.index, s.infos); }
      if !Moves(g.inverse, l.variable) {
        UnwatchedStaysExact(g, AssignedBy(base, trail), l.variable, l.positive, s.index);
      }
      hide Exact, ValidGenerator, PairsAgree, Walk, Notified;
    }
  }

  lemma VisitedTracksOn(g: Generator, base: Partial, trail: seq<Literal>, l: Literal, s: Status)
    requires ValidGenerator(g) && s.index <= |g.lookup| && Tracks(g, base, trail, s.index, s.infos)
    requires Undoable(g, base, trail, s.index, s.infos) && l.variable !in AssignedBy(base, trail)
    ensures var t := Notified(g, AssignedBy(base, trail + [l]), l.variable, s);
            TracksBelow(g, base, trail + [l], t.index, t.infos) && (t.state != REDUCER ==>
              Tracks(g, base, trail + [l], t.index, t.infos))
  {
    var p := AssignedBy(base, trail);
    var q := p[l.variable := l.positive];
    assert (trail + [l])[..|trail|] == trail;
    if s.infos != [] { InfosInTrail(g, base, trail, s.index, s.infos); }
    NotifiedExact(g, p, q, l.variable, s);
    hide Exact, Walk, Verdict, ValidGenerator, PairsAgree;
    var t := Notified(g, q, l.variable, s);
    assert t.index > s.index ==> t.infos[..|t.infos| - 1] == s.infos;
  }

  lemma NotifiedExact(g: Generator, p: Partial, q: Partial, v: nat, s: Status)
    requires ValidGenerator(g) && s.index <= |g.lookup| && Exact(g, p, s.index)
    requires forall x :: x in p ==> x in q && q[x] == p[x]
    ensures Notified(g, q, v, s).state != REDUCER ==> Exact(g, q, Notified(g, q, v, s).index)
    ensures Notified(g, q, v, s).index >= s.index
  {
    hide Verdict, PairAgrees;
    assert PairsAgree(g, p, s.index);
    PairsStillAgree(g, p, q, s.index);
  }

  lemma NotifyTracks(gens: seq<Generator>, base: Partial, s: System, l: Literal, visited: set<nat>, t: System)
    requires forall i :: 0 <= i < |gens| ==> ValidGenerator(gens[i])
    requires Inv(gens, base, s) && AllTrack(gens, base, s) && l.variable !in s.values
    requires t.values == s.values[l.variable := l.positive] && t.trail == s.trail + [l]
    requires Visited(gens, t.values, l.variable, visited, s.statuses, t.statuses)
    ensures AllTrackBelow(gens, base, t)
    ensures visited == Watch(gens, l.variable) && Quiet(visited, t.statuses) ==> AllTrack(gens, base, t)
  {
    assert t.trail[..|t.trail| - 1] == s.trail;
    forall i | 0 <= i < |gens|
      ensures TracksBelow(gens[i], base, t.trail, t.statuses[i].index, t.statuses[i].infos)
      ensures visited == Watch(gens, l.variable) && Quiet(visited, t.statuses) ==>
                Tracks(gens[i], base, t.trail, t.statuses[i].index, t.statuses[i].infos)
    {
      StatusTracksOn(gens[i], base, s.trail, l, s.statuses[i], i in visited);
    }
  }

  /** One step of a solver that answers an emitted clause by backtracking: it does not notify
      again before it has cancelled the literal that caused the clause. */
  ghost predicate Answers(gens: seq<Generator>, s: System, l: Literal, t: System, alarm: bool, next: bool) {
    (NotifyQuietly(gens, s, l, t) && !alarm && !next) ||
    ((exists visited, r, c :: NotifyEmits(gens, s, l, visited, r, c, t)) && !alarm && next) ||
    (Cancel(gens, s, l, t) && next == (alarm && l.variable !in s.values)) ||
    (Fetch(s, l, t) && next == alarm)
  }

  ghost predicate Faithful(gens: seq<Generator>, base: Partial, s: System, alarm: bool) {
    if alarm then AllTrackBelow(gens, base, s) else AllTrack(gens, base, s)
  }

  lemma StepFaithful(gens: seq<Generator>, base: Partial, s: System, l: Literal, t: System, alarm: bool, next: bool)
    requires forall i :: 0 <= i < |gens| ==> ValidGenerator(gens[i])
    requires Inv(gens, base, s) && Faithful(gens, base, s, alarm) && Answers(gens, s, l, t, alarm, next)
    ensures Faithful(gens, base, t, next)
  {
    if NotifyQuietly(gens, s, l, t) && !alarm && !next {
      NotifyTracks(gens, base, s, l, Watch(gens, l.variable), t);
    } else if visited, r, c :| NotifyEmits(gens, s, l, visited, r, c, t) && !alarm && next {
      NotifyTracks(gens, base, s, l, visited, t);
    } else if Cancel(gens, s, l, t) && next == (alarm && l.variable !in s.values) {
      CancelFaithful(gens, base, s, l, t, alarm);
    }
  }

  lemma CancelTracks(g: Generator, base: Partial, trail: seq<Literal>, l: Literal, s: Status)
    requires Undoable(g, base, trail, s.index, s.infos) && TracksBelow(g, base, trail, s.index, s.infos)
    requires trail != [] && trail[|trail| - 1] == l
    ensures var t := if Moves(g.inverse, l.variable) then Cancelled(l.variable, s) else s;
            Tracks(g, base, trail[..|trail| - 1], t.index, t.infos)
  {
  }

  lemma CancelFaithful(gens: seq<Generator>, base: Partial, s: System, l: Literal, t: System, alarm: bool)
    requires Inv(gens, base, s) && Faithful(gens, base, s, alarm) && Cancel(gens, s, l, t)
    ensures Faithful(gens, base, t, alarm && l.variable !in s.values)
  {
    if l.variable in s.values {
      forall i | 0 <= i < |gens|
        ensures Tracks(gens[i], base, t.trail, t.statuses[i].index, t.statuses[i].infos)
      {
        CancelTracks(gens[i], base, s.trail, l, s.statuses[i]);
      }
    } else {
      forall i | 0 <= i < |gens| ensures t.statuses[i] == s.statuses[i] {
        var st := s.statuses[i];
        if st.infos != [] { InfosInTrail(gens[i], base, s.trail, st.index, st.infos); }
      }
    }
  }

  ghost predicate AnsweringRun(gens: seq<Generator>, base: Partial, run: seq<System>, events: seq<Literal>,
                               alarms: seq<bool>) {
    |run| == |events| + 1 == |alarms| && Init(gens, base, run[0]) && !alarms[0] &&
    forall i :: 0 <= i < |events| ==> Answers(gens, run[i], events[i], run[i + 1], alarms[i], alarms[i + 1])
  }

  /** What is assigned before the symmetry layer starts does not already settle a first pair. */
  ghost predicate StartsExact(gens: seq<Generator>, base: Partial) {
    forall j :: 0 <= j < |gens| ==> Exact(gens[j], base, 0)
  }

  /** Every lookup index is the first pair that does not agree, and none of these is assigned
      against the order. */
  ghost predicate NoneOverlooked(gens: seq<Generator>, s: System) {
    |s.statuses| == |gens| &&
    forall j {:trigger s.statuses[j]} :: 0 <= j < |gens| ==> Exact(gens[j], s.values, s.statuses[j].index)
  }

  lemma {:induction false} EveryReducerDetected(gens: seq<Generator>, base: Partial, run: seq<System>,
                                                events: seq<Literal>,
                                                alarms: seq<bool>, i: nat)
    requires (forall j :: 0 <= j < |gens| ==> ValidGenerator(gens[j])) && StartsExact(gens, base)
    requires AnsweringRun(gens, base, run, events, alarms) && i < |run|
    ensures Inv(gens, base, run[i]) && Faithful(gens, base, run[i], alarms[i])
    ensures !alarms[i] ==> NoneOverlooked(gens, run[i])
  {
    if i == 0 {
      InitInv(gens, base, run[0]);
    } else {
      EveryReducerDetected(gens, base, run, events, alarms, i - 1);
      StepFaithful(gens, base, run[i - 1], events[i - 1], run[i], alarms[i - 1], alarms[i]);
      StepKeepsInv(gens, base, run[i - 1], events[i - 1], run[i]);
    }
  }

  /** Nothing is overlooked outside an alarm in any such run, exactly if nothing is at the start. */
  lemma DetectionExactly(gens: seq<Generator>, base: Partial)
    requires forall j :: 0 <= j < |gens| ==> ValidGenerator(gens[j])
    ensures StartsExact(gens, base) <==>
              forall run, events, alarms, i {:trigger AnsweringRun(gens, base, run, events, alarms), run[i]} ::
                AnsweringRun(gens, base, run, events, alarms) && 0 <= i < |run| && !alarms[i] ==>
                  NoneOverlooked(gens, run[i])
  {
    if StartsExact(gens, base) {
      forall run, events, alarms, i | AnsweringRun(gens, base, run, events, alarms) && 0 <= i < |run| && !alarms[i]
        ensures NoneOverlooked(gens, run[i])
      {
        EveryReducerDetected(gens, base, run, events, alarms, i);
      }
    } else {
      var s := System(base, [], seq(|gens|, i => Status(0, [], ACTIVE)), map[], Units(gens));
      assert AnsweringRun(gens, base, [s], [], [false]) && [s][0] == s;
      var j :| 0 <= j < |gens| && !Exact(gens[j], base, 0);
      assert s.statuses[j].index == 0;
    }
  }

  lemma NothingAssignedStartsExact(gens: seq<Generator>)
    requires forall j :: 0 <= j < |gens| ==> ValidGenerator(gens[j])
    ensures StartsExact(gens, map[])
  {
  }
}
