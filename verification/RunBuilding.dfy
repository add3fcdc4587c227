/** Building runs that end as wanted. */
module RunBuilding {
  // The runs are those of a solver that answers an emitted clause by backtracking.

  import opened Logic
  import opened LexLeader
  import opened Lookup
  import opened Soundness
  import opened Runs
  import opened Detection

  /** Such a run leads from `s`, a start with nothing assigned, to `t`, with or without an alarm at the end. */
  ghost predicate Reaches(gens: seq<Generator>, s: System, t: System, alarm: bool) {
    exists run, events, alarms :: Leads(gens, run, events, alarms, s, t, alarm)
  }

  ghost predicate Leads(gens: seq<Generator>, run: seq<System>, events: seq<Literal>, alarms: seq<bool>, s: System,
                        t: System, alarm: bool) {
    AnsweringRun(gens, map[], run, events, alarms) && run[0] == s && run[|run| - 1] == t &&
    alarms[|alarms| - 1] == alarm
  }

  lemma ReachesStep(gens: seq<Generator>, s: System, t: System, alarm: bool, l: Literal, u: System, next: bool)
    requires Reaches(gens, s, t, alarm) && Answers(gens, t, l, u, alarm, next)
    ensures Reaches(gens, s, u, next)
  {
    hide Answers, Init;
    var run, events, alarms :| Leads(gens, run, events, alarms, s, t, alarm);
    var more, calls, bells := run + [u], events + [l], alarms + [next];
    forall i | 0 <= i < |calls| ensures Answers(gens, more[i], calls[i], more[i + 1], bells[i], bells[i + 1]) {
      if i < |events| {
        assert Answers(gens, run[i], events[i], run[i + 1], alarms[i], alarms[i + 1]);
      }
    }
    assert Leads(gens, more, calls, bells, s, u, next);
  }

  lemma ReachesSelf(gens: seq<Generator>, s: System)
    requires Init(gens, map[], s)
    ensures Reaches(gens, s, s, false)
  {
    assert Leads(gens, [s], [], [false], s, s, false);
  }

  lemma Start(gens: seq<Generator>) returns (s: System)
    ensures Init(gens, map[], s) && Inv(gens, map[], s) && Reaches(gens, s, s, false)
  {
    s := System(map[], [], seq(|gens|, i => Status(0, [], ACTIVE)), map[], Units(gens));
    InitInv(gens, map[], s);
    ReachesSelf(gens, s);
  }

  lemma ReachedExact(gens: seq<Generator>, s: System, t: System, alarm: bool)
    requires forall i :: 0 <= i < |gens| ==> ValidGenerator(gens[i])
    requires Reaches(gens, s, t, alarm)
    ensures Inv(gens, map[], t) && (!alarm ==> NoneOverlooked(gens, t))
  {
    hide AnsweringRun, NoneOverlooked, ValidGenerator, Inv;
    var run, events, alarms :| Leads(gens, run, events, alarms, s, t, alarm);
    NothingAssignedStartsExact(gens);
    LastOf(gens, run, events, alarms);
    EveryReducerDetected(gens, map[], run, events, alarms, |run| - 1);
  }

  lemma LastOf(gens: seq<Generator>, run: seq<System>, events: seq<Literal>, alarms: seq<bool>)
    requires AnsweringRun(gens, map[], run, events, alarms)
    ensures |run| == |alarms| > 0
  {
  }

  // ---------------------------------------------------------------- notifying

  /** Some clause is built in the way a REDUCER verdict calls for. */
  lemma EsbpExists(g: Generator, p: Partial, reason: nat, k: nat) returns (c: Clause)
    requires ValidGenerator(g) && DecidedAt(g, p, k) && reason in p
    ensures IsEsbp(g, p, reason, k, c)
  {
    FirstForbidden(g, p, reason, k);
    var first, r := FalseLiteral(p, FirstOther(g, reason)), FalseLiteral(p, reason);
    var literals := set v | v in p && Forbids(g, p, reason, k, FalseLiteral(p, v)) :: FalseLiteral(p, v);
    var rest := Enumerate(literals - {first, r});
    c := (if first == r then [r] else [first, r]) + rest;
    forall l ensures l in c <==> Forbids(g, p, reason, k, l) {
      assert l in c <==> l == first || l == r || l in rest;
    }
    if first == r && rest != [] {
      assert rest[0] in rest && rest[0] in literals;
      OnlyReason(g, p, reason, k, rest[0]);
    }
  }

  lemma FirstForbidden(g: Generator, p: Partial, reason: nat, k: nat)
    requires ValidGenerator(g) && DecidedAt(g, p, k) && reason in p
    ensures FirstOther(g, reason) in p
    ensures Forbids(g, p, reason, k, FalseLiteral(p, FirstOther(g, reason)))
    ensures Forbids(g, p, reason, k, FalseLiteral(p, reason))
  {
    assert k > 0 ==> PairAgrees(g, p, 0);
    assert InPair(g, 0, k, g.lookup[0].variable) && InPair(g, 0, k, g.inverse[g.lookup[0]].variable);
  }

  lemma OnlyReason(g: Generator, p: Partial, reason: nat, k: nat, l: Literal)
    requires ValidGenerator(g) && DecidedAt(g, p, k) && FirstOther(g, reason) == reason
    requires Forbids(g, p, reason, k, l)
    ensures l.variable == reason
  {
    assert k > 0 ==> PairAgrees(g, p, 0);
  }

  lemma {:induction false} Enumerate<T>(s: set<T>) returns (q: seq<T>)
    ensures NoRepeats(q) && forall x :: x in q <==> x in s
  {
    if s == {} {
      q := [];
    } else {
      var x :| x in s;
      var rest := Enumerate(s - {x});
      q := [x] + rest;
    }
  }

  /** The status `r` is visited first; if it reduces the loop breaks. */
  lemma EmitStep(gens: seq<Generator>, s: System, l: Literal, r: nat) returns (t: System, c: Clause)
    requires forall i :: 0 <= i < |gens| ==> ValidGenerator(gens[i])
    requires Inv(gens, map[], s) && l.variable !in s.values && r < |gens| && Moves(gens[r].inverse, l.variable)
    requires Notified(gens[r], s.values[l.variable := l.positive], l.variable, s.statuses[r]).state == REDUCER
    ensures NotifyEmits(gens, s, l, {r}, r, c, t) && Inv(gens, map[], t)
    ensures forall z :: Reaches(gens, z, s, false) ==> Reaches(gens, z, t, true)
  {
    var q := s.values[l.variable := l.positive];
    var after := Notified(gens[r], q, l.variable, s.statuses[r]);
    PairsStillAgree(gens[r], s.values, q, s.statuses[r].index);
    assert PairsAgree(gens[r], q, after.index);
    assert DecidedAt(gens[r], q, after.index);
    c := EsbpExists(gens[r], q, l.variable, after.index);
    t := System(q, s.trail + [l], s.statuses[r := after], AddPending(s.pending, l.variable, c), s.emitted + {c});
    assert Visited(gens, q, l.variable, {r}, s.statuses, t.statuses);
    assert NotifyEmits(gens, s, l, {r}, r, c, t);
    NotifyKeepsInv(gens, map[], s, l, {r}, t);
    forall z | Reaches(gens, z, s, false) ensures Reaches(gens, z, t, true) {
      ReachesStep(gens, z, s, false, l, t, true);
    }
  }

  /** If no watcher reduces the notification is quiet. */
  lemma QuietStep(gens: seq<Generator>, s: System, l: Literal) returns (t: System)
    requires forall i :: 0 <= i < |gens| ==> ValidGenerator(gens[i])
    requires Inv(gens, map[], s) && l.variable !in s.values
    requires forall i {:trigger s.statuses[i]} :: 0 <= i < |gens| && Moves(gens[i].inverse, l.variable) ==>
        Notified(gens[i], s.values[l.variable := l.positive], l.variable, s.statuses[i]).state != REDUCER
    ensures NotifyQuietly(gens, s, l, t) && Inv(gens, map[], t)
    ensures forall z :: Reaches(gens, z, s, false) ==> Reaches(gens, z, t, false)
  {
    var q := s.values[l.variable := l.positive];
    t := System(q, s.trail + [l],
      seq(|gens|, i requires 0 <= i < |gens| =>
        if i in Watch(gens, l.variable) then Notified(gens[i], q, l.variable, s.statuses[i]) else s.statuses[i]),
      s.pending, s.emitted);
    assert Visited(gens, q, l.variable, Watch(gens, l.variable), s.statuses, t.statuses);
    NotifyKeepsInv(gens, map[], s, l, Watch(gens, l.variable), t);
    forall z | Reaches(gens, z, s, false) ensures Reaches(gens, z, t, false) {
      ReachesStep(gens, z, s, false, l, t, false);
    }
  }

  ghost predicate HeadOpen(g: Generator, p: Partial) {
    |g.lookup| > 0 && !Assigned(p, g.lookup[0])
  }

  lemma OpenIsQuiet(g: Generator, p: Partial, q: Partial, v: nat, s: Status)
    requires ValidGenerator(g) && s.index <= |g.lookup| && PairsAgree(g, p, s.index)
    requires (forall x :: x in p ==> x in q && q[x] == p[x]) && HeadOpen(g, q)
    ensures Notified(g, q, v, s).state != REDUCER
  {
    PairsStillAgree(g, p, q, s.index);
    assert s.index > 0 ==> PairAgrees(g, q, 0);
  }

  lemma NotifiedStops(g: Generator, p: Partial, q: Partial, v: nat, s: Status, k: nat)
    requires ValidGenerator(g) && s.index <= |g.lookup| && PairsAgree(g, p, s.index)
    requires forall x :: x in p ==> x in q && q[x] == p[x]
    requires StopsAt(g, q, 0, k)
    ensures Notified(g, q, v, s).index == k && Notified(g, q, v, s).state == Verdict(g, q, k)
  {
    PairsStillAgree(g, p, q, s.index);
    var stop := Walk(g, q, s.index);
    assert stop < k ==> PairAgrees(g, q, stop);
  }

  /** Literals notified one after the other while every walk waits at its first pair. */
  lemma {:induction false} Climb(gens: seq<Generator>, s: System, ls: seq<Literal>) returns (t: System)
    requires forall i :: 0 <= i < |gens| ==> ValidGenerator(gens[i])
    requires Inv(gens, map[], s) && FreshTrail(map[], s.trail + ls)
    requires forall i :: 0 <= i < |gens| ==> HeadOpen(gens[i], AssignedBy(map[], s.trail + ls))
    ensures forall z :: Reaches(gens, z, s, false) ==> Reaches(gens, z, t, false)
    ensures Inv(gens, map[], t) && t.trail == s.trail + ls && t.emitted == s.emitted
    decreases |ls|
  {
    if ls == [] {
      t := s;
      assert s.trail + ls == s.trail;
    } else {
      var front, l := ls[..|ls| - 1], ls[|ls| - 1];
      assert (s.trail + ls)[..|s.trail + ls| - 1] == s.trail + front;
      var u := Climb(gens, s, front);
      assert s.trail + ls == (s.trail + front) + [l];
      forall i | 0 <= i < |gens| && Moves(gens[i].inverse, l.variable)
        ensures Notified(gens[i], u.values[l.variable := l.positive], l.variable, u.statuses[i]).state != REDUCER
      {
        OpenIsQuiet(gens[i], u.values, u.values[l.variable := l.positive], l.variable, u.statuses[i]);
      }
      t := QuietStep(gens, u, l);
    }
  }

  // ---------------------------------------------------------------- cancelling

  lemma {:induction false} CancelAll(gens: seq<Generator>, s: System, alarm: bool) returns (t: System)
    requires forall i :: 0 <= i < |gens| ==> ValidGenerator(gens[i])
    requires Inv(gens, map[], s) && (alarm ==> s.trail != [])
    ensures forall z :: Reaches(gens, z, s, alarm) ==> Reaches(gens, z, t, false)
    ensures Inv(gens, map[], t) && t.trail == [] && t.emitted == s.emitted
    decreases |s.trail|
  {
    if s.trail == [] {
      t := s;
    } else {
      var l := s.trail[|s.trail| - 1];
      var u := System(s.values - {l.variable}, s.trail[..|s.trail| - 1],
        seq(|gens|, i requires 0 <= i < |gens| =>
          if i in Watch(gens, l.variable) then Cancelled(l.variable, s.statuses[i]) else s.statuses[i]),
        s.pending[l.variable := []], s.emitted);
      assert Cancel(gens, s, l, u);
      CancelKeepsInv(gens, map[], s, l, u);
      t := CancelAll(gens, u, false);
      forall z | Reaches(gens, z, s, alarm) ensures Reaches(gens, z, t, false) {
        ReachesStep(gens, z, s, alarm, l, u, false);
      }
    }
  }

  /** From an empty trail: notify `ls`, then `l`, on which generator `r` emits. */
  lemma ClimbAndEmit(gens: seq<Generator>, s: System, ls: seq<Literal>, l: Literal, r: nat, k: nat)
    returns (u: System, t: System, c: Clause)
    requires forall i :: 0 <= i < |gens| ==> ValidGenerator(gens[i])
    requires Inv(gens, map[], s) && s.trail == [] && FreshTrail(map[], ls)
    requires forall i :: 0 <= i < |gens| ==> HeadOpen(gens[i], AssignedBy(map[], ls))
    requires l.variable !in AssignedBy(map[], ls) && r < |gens| && Moves(gens[r].inverse, l.variable)
    requires var q := AssignedBy(map[], ls)[l.variable := l.positive];
             StopsAt(gens[r], q, 0, k) && Verdict(gens[r], q, k) == REDUCER
    ensures forall z :: Reaches(gens, z, s, false) ==> Reaches(gens, z, u, false) && Reaches(gens, z, t, true)
    ensures Inv(gens, map[], u) && u.trail == ls && u.emitted == s.emitted && Inv(gens, map[], t)
    ensures NotifyEmits(gens, u, l, {r}, r, c, t) && t.statuses[r].index == k
  {
    assert s.trail + ls == ls;
    u := Climb(gens, s, ls);
    NotifiedStops(gens[r], u.values, u.values[l.variable := l.positive], l.variable, u.statuses[r], k);
    t, c := EmitStep(gens, u, l, r);
  }

  /** The same, and then everything is cancelled. */
  lemma Phase(gens: seq<Generator>, s: System, ls: seq<Literal>, l: Literal, r: nat, k: nat)
    returns (t: System, c: Clause)
    requires forall i :: 0 <= i < |gens| ==> ValidGenerator(gens[i])
    requires Inv(gens, map[], s) && s.trail == [] && FreshTrail(map[], ls)
    requires forall i :: 0 <= i < |gens| ==> HeadOpen(gens[i], AssignedBy(map[], ls))
    requires l.variable !in AssignedBy(map[], ls) && r < |gens| && Moves(gens[r].inverse, l.variable)
    requires var q := AssignedBy(map[], ls)[l.variable := l.positive];
             StopsAt(gens[r], q, 0, k) && Verdict(gens[r], q, k) == REDUCER
    ensures forall z :: Reaches(gens, z, s, false) ==> Reaches(gens, z, t, false)
    ensures Inv(gens, map[], t) && t.trail == [] && t.emitted == s.emitted + {c}
    ensures IsEsbp(gens[r], AssignedBy(map[], ls)[l.variable := l.positive], l.variable, k, c)
  {
    var u, w;
    u, w, c := ClimbAndEmit(gens, s, ls, l, r, k);
    t := CancelAll(gens, w, true);
  }
}
