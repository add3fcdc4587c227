/** The CDCL solver. */
module Solvers {
  // The clause database, trail and watcher lists, and the methods that change them.
  // No symmetry controller is attached.

  import opened Logic
  import opened Trails
  import opened Watching
  import opened Propagation
  import opened Analysis
  import opened Reaching
  import opened Minimisation
  import opened Searching
  import opened Counting
  import Sorting

  datatype Conflict = NoConflict | Conflict(cref: nat)

  datatype Decision = NoDecision | Decide(literal: Literal)

  datatype LBool = LTrue | LFalse | LUndef

  /** The trail has only grown, by literals with reasons and at the current level. */
  ghost predicate Grown(t: Trail, u: Trail) {
    t.lits <= u.lits && t.lim == u.lim &&
    (forall v :: v in t.assigns ==>
      v in u.assigns && t.assigns[v] == u.assigns[v] && Level(t, v) == Level(u, v) &&
      ReasonOf(t, v) == ReasonOf(u, v)) &&
    (forall i :: |t.lits| <= i < |u.lits| ==>
      u.lits[i].variable in u.assigns && ReasonOf(u, u.lits[i].variable).Because?)
  }

  lemma GrownEnqueued(t: Trail, u: Trail, p: Literal, cr: nat)
    requires Grown(t, u) && Ok(u) && p.variable !in u.assigns
    ensures Grown(t, Enqueued(u, p, Because(cr)))
  {
    var w := Enqueued(u, p, Because(cr));
    forall i | |t.lits| <= i < |w.lits| ensures w.lits[i].variable in w.assigns &&
      ReasonOf(w, w.lits[i].variable).Because? {
      if i < |u.lits| {
        NotYet(u, p, i);
      }
    }
  }

  lemma FactsGrown(t: Trail, u: Trail)
    requires Ok(t) && Ok(u) && Grown(t, u)
    ensures Facts(u) == Facts(t)
  {
    hide Pos;
    forall v | v in Facts(u) ensures v in Facts(t) {
      var i := Pos(u.lits, v);
      assert u.lits[i].variable == v && i < |u.lits|;
      if i < |t.lits| {
        assert IsTrue(t, t.lits[i]);
      }
    }
  }

  lemma PropagatedStock(ca: Clauses, t: Trail, cb: Clauses, u: Trail)
    requires Ok(t) && Ok(u) && Grown(t, u) && SameClauses(ca, cb)
    ensures Stock(cb, u) == Stock(ca, t)
  {
    hide Ok, Grown, Facts;
    FactsGrown(t, u);
    assert |cb| == |cb.Keys| && |ca| == |ca.Keys|;
  }

  lemma CancelledStock(ca: Clauses, t: Trail)
    requires Ok(t)
    ensures t.lim != [] ==> t.lim[0] <= |t.lits| && Stock(ca, Backtracked(t, 0)) == Stock(ca, t)
  {
    hide Ok, Facts;
    if t.lim != [] {
      FactsBacktracked(t, 0);
    }
  }

  lemma BranchStock(ca: Clauses, t: Trail, p: Literal)
    requires p.variable !in t.assigns
    ensures Stock(ca, Enqueued(Decided(t), p, NoReason)) == Stock(ca, t)
  {
    FactsDecided(t);
    hide Facts, Enqueued;
    FactsEnqueued(Decided(t), p, NoReason);
  }

  /** What is kept of an added clause at level 0: the unassigned literals, once each, by their codes. */
  ghost predicate Leaves(t: Trail, c: Clause, out: Clause) {
    (forall l :: l in out <==> l in c && l.variable !in t.assigns) &&
    forall i, j :: 0 <= i < j < |out| ==> out[i].Index() < out[j].Index()
  }

  /** A clause with a true literal or with both literals of a variable changes nothing; of any other one
      what is left is stored, or asserted and propagated if it is a unit. */
  ghost predicate Adopts(ca: Clauses, t: Trail, c: Clause, cb: Clauses, u: Trail) {
    if Idle(t, c) then cb == ca && u == t
    else exists out :: Leaves(t, c, out) && Keeps(ca, t, out, cb, u)
  }

  ghost predicate Idle(t: Trail, c: Clause) { exists l :: l in c && (IsTrue(t, l) || l.Negated() in c) }

  ghost predicate Keeps(ca: Clauses, t: Trail, out: Clause, cb: Clauses, u: Trail) {
    if |out| == 1 then SameClauses(ca, cb) && Grown(Enqueued(t, out[0], NoReason), u)
    else |out| > 1 && u == t && exists cr: nat :: cr !in ca && cb == ca[cr := out]
  }

  lemma IdleAt(t: Trail, c: Clause, ps: Clause, i: nat, out: Clause)
    requires multiset(c) == multiset(ps) && i < |c| && Reduced(t, c, i, out)
    requires IsTrue(t, c[i]) || (out != [] && c[i] == out[|out| - 1].Negated())
    ensures Idle(t, ps)
  {
    assert c[i] in multiset(ps);
    if !IsTrue(t, c[i]) {
      assert out[|out| - 1] in multiset(c);
      assert c[i].Negated() == out[|out| - 1];
    }
  }

  lemma OneSign(out: Clause, l: Literal)
    requires forall i, j :: 0 <= i < j < |out| ==> out[i].variable != out[j].variable
    ensures !(l in out && l.Negated() in out)
  {
    assert forall i, j :: 0 <= i < |out| && 0 <= j < |out| && i != j ==> out[i].variable != out[j].variable;
  }

  lemma ReducedLeaves(t: Trail, c: Clause, ps: Clause, out: Clause)
    requires multiset(c) == multiset(ps) && Reduced(t, c, |c|, out) && forall k :: 0 <= k < |c| ==> !IsTrue(t, c[k])
    ensures Leaves(t, ps, out) && !Idle(t, ps)
  {
    forall l ensures l in out <==> l in ps && l.variable !in t.assigns {
      assert l in multiset(c) <==> l in multiset(ps);
      if l in ps && l.variable !in t.assigns {
        var k :| 0 <= k < |c| && c[k] == l;
      }
    }
    if Idle(t, ps) {
      var l :| l in ps && (IsTrue(t, l) || l.Negated() in ps);
      assert l in multiset(c);
      var k :| 0 <= k < |c| && c[k] == l;
      assert l.Negated() in multiset(c);
      var h :| 0 <= h < |c| && c[h] == l.Negated();
      OneSign(out, l);
    }
  }

  lemma AdoptsKept(ca: Clauses, t: Trail, c: Clause, out: Clause, cb: Clauses, u: Trail)
    requires Leaves(t, c, out) && !Idle(t, c) && Keeps(ca, t, out, cb, u)
    ensures Adopts(ca, t, c, cb, u)
  {
    hide Leaves, Keeps, Idle;
  }

  /** What is stored and asserted is the clause the analysis of the conflict must find, and the level
      returned to is the lowest at which it asserts. */
  ghost predicate LearnsFrom(ca: Clauses, t: Trail, c: Clause, ccminMode: int, cb: Clauses, u: Trail) {
    exists learnt, level ::
      LearntExactly(ca, t, c, learnt, ccminMode) && Asserting(t, learnt, level) && Learns(ca, t, learnt, level, cb, u)
  }

  ghost function Variables(ca: Clauses): set<nat> {
    set cr, i | cr in ca && 0 <= i < |ca[cr]| :: ca[cr][i].variable
  }

  class Solver {
    var ca: Clauses
    var watches: WatchLists
    var assigns: map<nat, bool>
    var vardata: map<nat, VarData>
    var trail: seq<Literal>
    var trailLim: seq<nat>
    var qhead: nat
    var ok: bool
    var seen: set<nat>
    var analyzeToclear: seq<Literal>

    constructor ()
      ensures Valid() && ca == map[] && assigns == map[] && trail == [] && trailLim == [] && ok && seen == {}
    {
      ok, seen, analyzeToclear := true, {}, [];
      ca, watches, assigns, vardata := map[], map[], map[], map[];
      trail, trailLim, qhead := [], [], 0;
    }

    function T(): Trail
      reads this
    {
      Trail(trail, trailLim, assigns, vardata)
    }

    /** Everything before the queue head is propagated. */
    ghost predicate Valid()
      reads this
    {
      Steady(ca, watches, T(), qhead) && Decisive(T())
    }

    /** After a conflict only the lower decision levels are propagated. */
    ghost predicate Halted()
      reads this
    {
      Steady(ca, watches, T(), Start(T())) && Decisive(T()) && qhead == |trail|
    }

    method UncheckedEnqueue(p: Literal, from: Reason)
      modifies this`assigns, this`vardata, this`trail
      ensures T() == Enqueued(old(T()), p, from)
    {
      assigns := assigns[p.variable := p.positive];
      vardata := vardata[p.variable := VarData(from, |trailLim|)];
      trail := trail + [p];
    }

    method NewDecisionLevel()
      requires Valid() && qhead == |trail|
      modifies this`trailLim
      ensures Valid() && T() == Decided(old(T()))
    {
      DecidedSteady(ca, watches, T());
      DecidedDecisive(T());
      trailLim := trailLim + [|trail|];
    }

    /** Takes everything above `level` off the trail; the rest is propagated already. */
    method CancelUntil(level: nat)
      requires Valid() || Halted()
      modifies this`assigns, this`trail, this`trailLim, this`qhead
      ensures |old(trailLim)| > level ==>
                old(trailLim[level]) <= |old(trail)| && T() == Backtracked(old(T()), level) && qhead == |trail| &&
                  Valid()
      ensures |old(trailLim)| <= level ==> T() == old(T()) && qhead == old(qhead)
      ensures SameFits(ca, old(T()), ca, T())
    {
      hide Steady, Pos, SameFits, Decisive, Ok, AssignedBefore;
      SteadyStart(ca, watches, T(), if Steady(ca, watches, T(), qhead) then qhead else Start(T()));
      ghost var t := T();
      FitsSelf(ca, t);
      if |trailLim| > level {
        BacktrackedSteady(ca, watches, t, Start(t), level);
        BacktrackedFits(ca, t, level);
        BacktrackedDecisive(t, level);
        AssignedAll(t);
        var c := |trail|;
        while c > trailLim[level]
          invariant t.lim[level] <= c <= |trail| && trail == t.lits && trailLim == t.lim
          invariant assigns == AssignedBefore(t, c)
        {
          c := c - 1;
          AssignedNext(t, c);
          assigns := assigns - {trail[c].variable};
        }
        qhead := trailLim[level];
        trail := trail[..trailLim[level]];
        trailLim := trailLim[..level];
      }
    }

    /** Puts a clause on the lists of its first two literals. */
    method AttachClause(cr: nat)
      requires cr in ca && |ca[cr]| > 1
      modifies this`watches
      ensures watches == Attached(old(watches), cr, ca[cr])
    {
      var c := ca[cr];
      watches := watches[c[0].Negated() := ListOf(watches, c[0].Negated()) + [Watcher(cr, c[1])]];
      watches := watches[c[1].Negated() := ListOf(watches, c[1].Negated()) + [Watcher(cr, c[0])]];
    }

    /** The first literal from slot 2 on that is not false; the length if there is none. */
    method FindWatch(cr: nat) returns (k: nat)
      requires cr in ca && |ca[cr]| >= 2
      ensures 2 <= k <= |ca[cr]| && (k < |ca[cr]| ==> !IsFalse(T(), ca[cr][k]))
      ensures forall h :: 2 <= h < k ==> IsFalse(T(), ca[cr][h])
    {
      k := 2;
      while k < |ca[cr]| && IsFalse(T(), ca[cr][k])
        invariant 2 <= k <= |ca[cr]|
        invariant forall h :: 2 <= h < k ==> IsFalse(T(), ca[cr][h])
      {
        k := k + 1;
      }
    }

    static method CopyRest(ghost lists: WatchLists, ghost p: Literal, list: seq<Watcher>, from: nat, to: nat)
      returns (ws: seq<Watcher>, i: nat, j: nat)
      requires to <= from <= |list|
      ensures i == |ws| && j <= i && View(lists, p, ws, i, j) == View(lists, p, list, from, to)
    {
      hide View;
      ws, i, j := list, from, to;
      while i < |ws|
        invariant j <= i <= |ws| && View(lists, p, ws, i, j) == View(lists, p, list, from, to)
      {
        ViewAt(lists, p, ws, i, j, ws[i]);
        ws := ws[j := ws[i]];
        j, i := j + 1, i + 1;
      }
    }

    /** Visits the `i`-th watcher of `p`; the kept ones are moved to the front of the list. */
    method Visit(p: Literal, list: seq<Watcher>, i: nat, to: nat) returns (ws: seq<Watcher>, j: nat, confl: Conflict)
      requires qhead > 0 && to <= i < |list| && Busy(ca, View(watches, p, list, i, to), T(), qhead - 1, p, to)
      modifies this`ca, this`watches, this`assigns, this`vardata, this`trail, this`qhead
      ensures |ws| == |list| && j <= i + 1 && Progress(old(ca), old(T()), ca, T())
      ensures confl.NoConflict? ==>
                qhead == old(qhead) && Busy(ca, View(watches, p, ws, i + 1, j), T(), qhead - 1, p, j)
      ensures confl.Conflict? ==>
                qhead == |trail| && Steady(ca, View(watches, p, ws, i + 1, j), T(), Start(T())) &&
                confl.cref in ca && IsConflict(T(), ca[confl.cref])
    {
      hide Busy, Steady, Progress, Moved, Swap, Pos, Proper, IsConflict, View, Enqueued;
      ws, j, confl := list, to, NoConflict;
      ghost var t := T();
      ghost var view := View(watches, p, ws, i, j);
      ProgressNone(ca, t);
      ViewAt(watches, p, ws, i, j, ws[i]);
      BusyEntry(ca, view, t, qhead - 1, p, j, j);
      var blocker := ws[i].blocker;
      if IsTrue(T(), blocker) {
        BusySkip(ca, view, t, qhead - 1, p, j);
        ws, j := ws[j := ws[i]], j + 1;
        return;
      }
      var cr := ws[i].cref;
      var falseLit := p.Negated();
      if ca[cr][0] == falseLit {
        BusySwap(ca, view, t, qhead - 1, p, j, cr);
        SwappedWatches(ca[cr]);
        ProgressSwapped(old(ca), t, ca, t, cr, 0, 1);
        ca := ca[cr := Swap(ca[cr], 0, 1)];
      }
      var first := ca[cr][0];
      var w := Watcher(cr, first);
      BusyVisit(ca, view, t, qhead - 1, p, j, cr);
      ViewAt(watches, p, ws, i, j, w);
      if first != blocker && IsTrue(T(), first) {
        BusyTrue(ca, view, t, qhead - 1, p, j, cr);
        ws, j := ws[j := w], j + 1;
        return;
      }
      ghost var db := ca;
      ws, j, confl := Rewatch(p, ws, i, j, cr);
      ProgressTrans(old(ca), t, db, t, ca, T());
    }

    /** The clause is not satisfied by its first literal: watch another literal, enqueue the first
        or report the conflict. */
    method Rewatch(p: Literal, list: seq<Watcher>, i: nat, to: nat, cr: nat)
      returns (ws: seq<Watcher>, j: nat, confl: Conflict)
      requires qhead > 0 && to <= i < |list| && Busy(ca, View(watches, p, list, i, to), T(), qhead - 1, p, to)
      requires Visits(ca, View(watches, p, list, i, to), p, to, cr) && !IsTrue(T(), ca[cr][0])
      modifies this`ca, this`watches, this`assigns, this`vardata, this`trail, this`qhead
      ensures |ws| == |list| && j <= i + 1 && Progress(old(ca), old(T()), ca, T())
      ensures confl.NoConflict? ==>
                qhead == old(qhead) && Busy(ca, View(watches, p, ws, i + 1, j), T(), qhead - 1, p, j)
      ensures confl.Conflict? ==>
                qhead == |trail| && Steady(ca, View(watches, p, ws, i + 1, j), T(), Start(T())) &&
                confl.cref in ca && IsConflict(T(), ca[confl.cref])
    {
      hide Busy, Steady, Progress, Moved, Swap, Pos, Proper, IsConflict, View, Enqueued;
      ws, j, confl := list, to, NoConflict;
      ghost var t := T();
      ghost var view := View(watches, p, ws, i, j);
      ProgressNone(ca, t);
      var first := ca[cr][0];
      var w := Watcher(cr, first);
      BusyVisit(ca, view, t, qhead - 1, p, j, cr);
      ViewAt(watches, p, ws, i, j, w);
      var k := FindWatch(cr);
      if k < |ca[cr]| {
        BusyMove(ca, view, t, qhead - 1, p, j, cr, k);
        ViewMoved(ca, watches, p, ws, i, j, k);
        MovedWatches(ca[cr], k);
        ProgressSwapped(old(ca), t, ca, t, cr, 1, k);
        ca := ca[cr := Swap(ca[cr], 1, k)];
        watches := watches[ca[cr][1].Negated() := ListOf(watches, ca[cr][1].Negated()) + [w]];
        return;
      }
      ws, j := ws[j := w], j + 1;
      if IsFalse(T(), first) {
        ConflictFalse(t, ca[cr]);
        BusyConflict(ca, view, t, qhead - 1, p, to, cr);
        confl := Conflict(cr);
        qhead := |trail|;
      } else {
        BusyUnit(ca, view, t, qhead - 1, p, to, cr);
        BusyOk(ca, view, t, qhead - 1, p, to);
        ProgressEnqueued(old(ca), t, ca, t, cr);
        UncheckedEnqueue(first, Because(cr));
      }
    }

    /** Visits the clauses that watch the negation of `p`. */
    method PropagateLiteral(p: Literal) returns (confl: Conflict)
      requires qhead > 0 && Busy(ca, watches, T(), qhead - 1, p, 0)
      modifies this`ca, this`watches, this`assigns, this`vardata, this`trail, this`qhead
      ensures Progress(old(ca), old(T()), ca, T())
      ensures confl.NoConflict? ==> Steady(ca, watches, T(), qhead) && qhead == old(qhead)
      ensures confl.Conflict? ==>
                Steady(ca, watches, T(), Start(T())) && qhead == |trail| && confl.cref in ca &&
                  IsConflict(T(), ca[confl.cref])
    {
      hide Busy, Steady, Progress, IsConflict, View;
      ProgressNone(ca, T());
      BusyView(ca, watches, T(), qhead - 1, p);
      var ws := ListOf(watches, p);
      var i, j := 0, 0;
      confl := NoConflict;
      while i != |ws|
        invariant 0 <= j <= i <= |ws| && Progress(old(ca), old(T()), ca, T())
        invariant confl.NoConflict? ==>
            qhead == old(qhead) && Busy(ca, View(watches, p, ws, i, j), T(), qhead - 1, p, j)
        invariant confl.Conflict? ==>
            i == |ws| && Steady(ca, View(watches, p, ws, i, j), T(), Start(T())) && qhead == |trail|
        invariant confl.Conflict? ==> confl.cref in ca && IsConflict(T(), ca[confl.cref])
      {
        ghost var db, t := ca, T();
        ws, j, confl := Visit(p, ws, i, j);
        ProgressTrans(old(ca), old(T()), db, t, ca, T());
        i := i + 1;
        if confl.Conflict? {
          ws, i, j := CopyRest(watches, p, ws, i, j);
        }
      }
      ViewEnds(watches, p, ws, j);
      if confl.NoConflict? {
        BusyEnds(ca, View(watches, p, ws, i, j), T(), qhead - 1, p);
      }
      watches := watches[p := ws[..j]];
    }

    /** Propagates every literal in the queue.  Without a conflict nothing is left unit or false;
        a returned clause is false.  Clauses keep their literals and the trail grows by literals
        their reasons imply. */
    method Propagate() returns (confl: Conflict)
      requires Valid()
      modifies this`ca, this`watches, this`assigns, this`vardata, this`trail, this`qhead
      ensures qhead == |trail| && SameClauses(old(ca), ca) && Grown(old(T()), T())
      ensures confl.NoConflict? ==> Valid() && forall cr :: cr in ca ==> !Unit(T(), ca[cr])
      ensures confl.Conflict? ==> Halted() && confl.cref in ca && IsConflict(T(), ca[confl.cref])
      ensures SameFits(old(ca), old(T()), ca, T())
    {
      hide Busy, Steady, Progress, IsConflict, Unit, SameFits, Decisive, Grown, SameClauses, Unassigned;
      confl := NoConflict;
      ProgressNone(ca, T());
      while qhead < |trail|
        invariant Progress(old(ca), old(T()), ca, T())
        invariant confl.NoConflict? ==> Steady(ca, watches, T(), qhead)
        invariant confl.Conflict? ==>
                    Steady(ca, watches, T(), Start(T())) && qhead == |trail| && confl.cref in ca &&
                      IsConflict(T(), ca[confl.cref])
        decreases Unassigned(ca, T()), |trail| - qhead
      {
        var p := trail[qhead];
        BusyBegins(ca, watches, T(), qhead);
        qhead := qhead + 1;
        ghost var db, t := ca, T();
        confl := PropagateLiteral(p);
        ProgressTrans(old(ca), old(T()), db, t, ca, T());
        ProgressMeasure(db, t, ca, T());
      }
      ProgressMeans(old(ca), old(T()), ca, T());
      SteadyOk(old(ca), old(watches), old(T()), old(qhead));
      SteadyOk(ca, watches, T(), if confl.NoConflict? then qhead else Start(T()));
      GrownDecisive(old(T()), T());
      GrownFits(old(ca), old(T()), ca, T());
      if confl.NoConflict? {
        SteadyEnds(ca, watches, T(), qhead);
      }
    }

    /** The literals of a clause from slot `from` on become seen; those of the current level are
        counted, the others collected. */
    method AddReason(confl: nat, from: nat, outLearnt: seq<Literal>, pathC: nat) returns (out: seq<Literal>, count: nat)
      requires confl in ca && from <= |ca[confl]| && Collected(T(), seen, outLearnt) && pathC == |Current(T(), seen)|
      requires forall k :: from <= k < |ca[confl]| ==> Assigned(T(), ca[confl][k])
      modifies this`seen
      ensures seen == old(seen) + High(T(), ca[confl], from, |ca[confl]|)
      ensures Collected(T(), seen, out) && count == |Current(T(), seen)|
    {
      hide Collected, Current, High, Assigned;
      ghost var t := T();
      var c := ca[confl];
      out, count := outLearnt, pathC;
      var j := from;
      HighNone(t, c, from);
      while j < |c|
        invariant from <= j <= |c| && T() == t
        invariant seen == old(seen) + High(t, c, from, j)
        invariant Collected(t, seen, out) && count == |Current(t, seen)|
      {
        var q := c[j];
        SeenNext(t, old(seen), seen, c, from, j);
        AssignedMeans(t, q);
        if q.variable !in seen && Level(T(), q.variable) > 0 {
          if Level(T(), q.variable) >= |trailLim| {
            CollectedCurrent(t, seen, out, q.variable);
            CurrentNot(t, seen, q.variable);
            count := count + 1;
          } else {
            CollectedLower(t, seen, out, q);
            out := out + [q];
          }
          seen := seen + {q.variable};
        }
        j := j + 1;
      }
    }

    /** The latest seen literal of the trail at or before a position. */
    method LastSeen(index: int, ghost out: seq<Literal>) returns (i: nat)
      requires Ok(T()) && Collected(T(), seen, out) && Current(T(), seen) != {} && index < |trail|
      requires Under(T(), seen, index + 1)
      ensures Start(T()) <= i <= index && trail[i].variable in Current(T(), seen) && Under(T(), seen, i + 1)
    {
      hide Collected, Current, Ok, Pos;
      ghost var t := T();
      ghost var v :| v in Current(t, seen);
      CurrentPosition(t, seen, out, v);
      i := index;
      while trail[i].variable !in seen
        invariant Start(t) <= Pos(t.lits, v) <= i <= index && Under(t, seen, i + 1)
        decreases i
      {
        UnderNext(t, seen, out, i);
        i := i - 1;
      }
      SeenIsCurrent(t, seen, i);
    }

    /** Resolves the conflict backwards along the trail until one literal of the current level is left. */
    method FirstUIP(confl: nat) returns (outLearnt: seq<Literal>, ghost at: nat)
      requires Halted() && trailLim != [] && confl in ca && IsConflict(T(), ca[confl]) && seen == {}
      modifies this`seen
      ensures outLearnt != [] && IsFalse(T(), outLearnt[0]) && Level(T(), outLearnt[0].variable) == |trailLim|
      ensures Collected(T(), seen, outLearnt) && Current(T(), seen) == {}
      ensures Cuts(ca, T(), seen + {outLearnt[0].variable})
      ensures at < |trail| && IsFirstUIP(ca, T(), ca[confl], at) && outLearnt[0] == trail[at].Negated()
      ensures seen == Front(ca, T(), ca[confl], at + 1) - {trail[at].variable}
    {
      hide Steady, Collected, Current, High, Cuts, Pos, Ok, Reasoned, Decisive, IsConflict, Under, Pending,
        IsFirstUIP, Front, Shared, Resolving;
      ghost var t, c0 := T(), ca[confl];
      SteadyOk(ca, watches, t, Start(t));
      var clause, p := confl, FromIndex(0);
      var from: nat, pathC: nat := 0, 0;
      var index: int := |trail| - 1;
      outLearnt := [p];
      NothingCollected(t, outLearnt);
      ResolvingBegins(ca, t, confl);
      at := 0;
      var done := false;
      while !done
        invariant T() == t && -1 <= index < |trail| && Collected(t, seen, outLearnt) && pathC == |Current(t, seen)|
        invariant !done ==> from <= 1 && Resolving(ca, t, c0, seen, clause, from, index + 1)
        invariant done ==>
            Current(t, seen) == {} && IsTrue(t, p) && Level(t, p.variable) == |trailLim| &&
            Cuts(ca, t, seen + {p.variable})
        invariant done ==>
            at < |trail| && IsFirstUIP(ca, t, c0, at) && p == trail[at] &&
            seen == Front(ca, t, c0, at + 1) - {trail[at].variable}
        decreases index + 1
      {
        ResolvingClause(ca, t, c0, seen, clause, from, index + 1);
        outLearnt, pathC := AddReason(clause, from, outLearnt, pathC);
        var i := LastSeen(index, outLearnt);
        LastResolved(ca, t, seen, outLearnt, i);
        FrontAtLast(ca, t, c0, seen, i, index);
        ghost var s := seen;
        index := (i as int) - 1;
        p := trail[i];
        var reason := ReasonOf(T(), p.variable);
        seen := seen - {p.variable};
        pathC := pathC - 1;
        if pathC > 0 {
          ResolvingNext(ca, t, c0, s, outLearnt, i);
          clause, from := reason.cref, 1;
        } else {
          done, at := true, i;
        }
      }
      CollectedFirst(t, seen, outLearnt, p.Negated());
      outLearnt := outLearnt[0 := p.Negated()];
    }

    /** Whether all a literal depends on, up to seen literals, has a reason and one of the levels.  What is met
        on the way becomes seen; if the answer is no it is unseen again. */
    method LitRedundant(p: Literal, abstractLevels: set<nat>) returns (redundant: bool)
      requires Halted() && p.variable in assigns && ReasonOf(T(), p.variable).Because?
      modifies this`seen, this`analyzeToclear
      ensures redundant ==>
                Exploring(ca, T(), old(seen), seen, p.variable, []) &&
                  Marked(old(seen), old(analyzeToclear), seen, analyzeToclear)
      ensures !redundant ==> seen == old(seen) && analyzeToclear == old(analyzeToclear)
      ensures redundant <==> Removable(ca, T(), old(seen), abstractLevels, p.variable)
      ensures redundant ==>
                forall w :: w in seen <==> w in old(seen) || Reaches(ca, T(), old(seen), p.variable, w)
    {
      hide Steady, Exploring, Follows, Marked, High, Ok, Reasoned, Reached, Reaches, Needs, Removable;
      ghost var t := T();
      ghost var before := seen;
      SteadyOk(ca, watches, t, Start(t));
      ExploringBegins(ca, t, seen, p);
      ReachedBegins(ca, t, seen, abstractLevels, p);
      MarkedNone(seen, analyzeToclear);
      var top := |analyzeToclear|;
      var stack := [p];
      while |stack| > 0
        invariant T() == t && Exploring(ca, t, before, seen, p.variable, stack)
        invariant Reached(ca, t, before, seen, abstractLevels, p.variable, stack)
        invariant top == |old(analyzeToclear)| && Marked(before, old(analyzeToclear), seen, analyzeToclear)
        decreases t.assigns.Keys - seen, |stack|
      {
        ghost var sofar, open := seen, t.assigns.Keys - seen;
        var q := stack[|stack| - 1];
        ExploringLast(ca, t, before, seen, p.variable, stack);
        ReasonOpen(ca, t, q.variable);
        var c := ca[ReasonOf(T(), q.variable).cref];
        ReachedLess(ca, t, before, seen, abstractLevels, p.variable, stack, [q] + stack[..|stack| - 1]);
        stack := stack[..|stack| - 1];
        ghost var rest := stack;
        var i := 1;
        while i < |c|
          invariant 1 <= i <= |c| && T() == t && Exploring(ca, t, before, seen, p.variable, [q] + stack)
          invariant Reached(ca, t, before, seen, abstractLevels, p.variable, [q] + stack)
          invariant High(t, c, 1, i) <= seen && Marked(before, old(analyzeToclear), seen, analyzeToclear)
          invariant (seen == sofar && stack == rest) || t.assigns.Keys - seen < open
        {
          var l := c[i];
          HighNext(t, c, 1, i);
          if l.variable !in seen && Level(T(), l.variable) > 0 {
            NeedsAt(ca, t, q.variable, i);
            if ReasonOf(T(), l.variable).Because? && AbstractLevel(T(), l.variable) * abstractLevels != {} {
              ExploringPush(ca, t, before, seen, p.variable, [q] + stack, l);
              MarkedNext(before, old(analyzeToclear), seen, analyzeToclear, l);
              ReachedPush(ca, t, before, seen, abstractLevels, p.variable, stack, q, l);
              assert [q] + stack + [l] == [q] + (stack + [l]);
              assert l.variable in t.assigns.Keys - seen;
              seen := seen + {l.variable};
              stack := stack + [l];
              analyzeToclear := analyzeToclear + [l];
            } else {
              NotRemovable(ca, t, before, seen, abstractLevels, p.variable, stack, q, l.variable);
              MarkedPrefix(before, old(analyzeToclear), seen, analyzeToclear);
              Unmark(top, before);
              return false;
            }
          }
          i := i + 1;
        }
        HighFollows(ca, t, seen, q.variable);
        ExploringPop(ca, t, before, seen, p.variable, stack, q);
        ReachedLess(ca, t, before, seen, abstractLevels, p.variable, [q] + stack, stack);
      }
      ExploredFollows(ca, t, before, seen, p.variable);
      AllPassed(ca, t, before, seen, abstractLevels, p.variable);
      redundant := true;
    }

    /** Takes back the marks made since the list of marks had `top` entries. */
    method Unmark(top: nat, ghost before: set<nat>)
      requires top <= |analyzeToclear| && Marked(before, analyzeToclear[..top], seen, analyzeToclear)
      modifies this`seen, this`analyzeToclear
      ensures seen == before && analyzeToclear == old(analyzeToclear[..top])
    {
      hide VariablesOf;
      var j := top;
      while j < |analyzeToclear|
        invariant top <= j <= |analyzeToclear| && analyzeToclear == old(analyzeToclear)
        invariant before <= seen && before !! VariablesOf(analyzeToclear[j..])
        invariant seen - before <= VariablesOf(analyzeToclear[j..])
      {
        UnmarkNext(analyzeToclear, j);
        assert forall v :: v in seen - {analyzeToclear[j].variable} - before ==> v in seen - before;
        seen := seen - {analyzeToclear[j].variable};
        j := j + 1;
      }
      NoVariables(analyzeToclear[j..]);
      assert seen == before + (seen - before);
      analyzeToclear := analyzeToclear[..top];
    }

    /** The residues of the levels of the literals after the first. */
    method AbstractLevels(out: seq<Literal>) returns (levels: set<nat>)
      ensures levels == Residues(T(), Lower(out))
    {
      levels := {};
      var i := 1;
      while i < |out|
        invariant 1 <= i && levels == set k | 1 <= k < i && k < |out| :: Level(T(), out[k].variable) % 32
      {
        levels := levels + AbstractLevel(T(), out[i].variable);
        i := i + 1;
      }
    }

    /** Whether all other literals of its reason are seen or of level 0. */
    method ReasonSeen(p: Literal) returns (r: bool)
      requires Halted() && p.variable in assigns && ReasonOf(T(), p.variable).Because?
      ensures r <==> Follows(ca, T(), seen, p.variable)
    {
      hide Steady, Ok, Reasoned, Pos;
      ghost var t := T();
      SteadyOk(ca, watches, t, Start(t));
      ReasonOpen(ca, t, p.variable);
      var c := ca[ReasonOf(T(), p.variable).cref];
      var k := 1;
      while k < |c|
        invariant 1 <= k <= |c| && High(t, c, 1, k) <= seen
      {
        HighNext(t, c, 1, k);
        if c[k].variable !in seen && Level(T(), c[k].variable) > 0 {
          assert c[k].variable in High(t, c, 1, |c|);
          return false;
        }
        k := k + 1;
      }
      r := true;
    }

    /** Drops literals of the learnt clause that follow from the others, by the chosen mode. */
    method Minimise(outLearnt: seq<Literal>, ccminMode: int) returns (out: seq<Literal>)
      requires Halted() && Shrinking(ca, T(), seen, outLearnt) && seen == Lower(outLearnt)
      modifies this`seen, this`analyzeToclear
      ensures Learnt(T(), out) && Implied(ca, T(), out) && out[0] == outLearnt[0]
      ensures Shortened(ca, T(), old(seen), outLearnt, out, ccminMode)
      ensures seen <= VariablesOf(analyzeToclear)
    {
      hide Steady, Shrinking, Exploring, Learnt, Supported, Cuts, Implied, Kept, Follows, Marked, VariablesOf, Ok,
        Reasoned, Pos, Decisive, Shortening, Shortened, Droppable, Removable, Harmless, Reaches, Residues;
      ghost var t, s := T(), seen;
      SteadyOk(ca, watches, t, Start(t));
      ShrinkingLearnt(ca, t, seen, outLearnt);
      LearntClean(t, outLearnt);
      ShorteningBegins(ca, t, s, outLearnt, ccminMode);
      LowerIn(outLearnt);
      analyzeToclear := outLearnt;
      out := outLearnt;
      var i, j := 1, 1;
      KeptAll(out, 1);
      if ccminMode == 2 {
        var abstractLevel := AbstractLevels(out);
        HarmlessBegins(ca, t, s, abstractLevel);
        while i < |out|
          invariant 1 <= j <= i <= |out| && T() == t && out[0] == outLearnt[0]
          invariant Shrinking(ca, t, seen, Kept(out, i, j)) && seen <= VariablesOf(analyzeToclear)
          invariant Shortening(ca, t, s, outLearnt, out, i, j, ccminMode) && Harmless(ca, t, s, seen, abstractLevel)
        {
          ghost var before, marks := seen, analyzeToclear;
          ShrinkingLearnt(ca, t, seen, Kept(out, i, j));
          KeptAt(out, i, j);
          LearntAt(t, Kept(out, i, j), j);
          MarksDoNotMatter(ca, t, s, seen, abstractLevel, out[i].variable);
          DroppableDeeply(ca, t, s, out[i]);
          var redundant := false;
          if ReasonOf(T(), out[i].variable).Because? {
            redundant := LitRedundant(out[i], abstractLevel);
          }
          if redundant {
            ShrinkingDrop(ca, t, before, seen, Kept(out, i, j), j);
            ShorteningDrop(ca, t, s, outLearnt, out, i, j, ccminMode);
            MarkedIn(before, marks, seen, analyzeToclear);
            MarkedMore(before, marks, seen, analyzeToclear);
            StillHarmless(ca, t, s, before, seen, abstractLevel, out[i].variable);
          } else {
            ShorteningKeep(ca, t, s, outLearnt, out, i, j, ccminMode);
            out := out[j := out[i]];
            j := j + 1;
          }
          i := i + 1;
        }
      } else if ccminMode == 1 {
        while i < |out|
          invariant 1 <= j <= i <= |out| && T() == t && out[0] == outLearnt[0]
          invariant Shrinking(ca, t, seen, Kept(out, i, j)) && seen == s && seen <= VariablesOf(analyzeToclear)
          invariant Shortening(ca, t, s, outLearnt, out, i, j, ccminMode)
        {
          ShrinkingLearnt(ca, t, seen, Kept(out, i, j));
          KeptAt(out, i, j);
          LearntAt(t, Kept(out, i, j), j);
          DroppableByReason(ca, t, s, out[i]);
          var redundant := false;
          if ReasonOf(T(), out[i].variable).Because? {
            redundant := ReasonSeen(out[i]);
          }
          if redundant {
            FollowingExplored(ca, t, seen, out[i]);
            ShrinkingDrop(ca, t, seen, seen, Kept(out, i, j), j);
            ShorteningDrop(ca, t, s, outLearnt, out, i, j, ccminMode);
          } else {
            ShorteningKeep(ca, t, s, outLearnt, out, i, j, ccminMode);
            out := out[j := out[i]];
            j := j + 1;
          }
          i := i + 1;
        }
      } else {
        KeptAll(out, |out|);
        ShorteningNothing(ca, t, s, out, ccminMode);
        i, j := |out|, |out|;
      }
      KeptAll(out, |out|);
      ShorteningEnds(ca, t, s, outLearnt, out, j, ccminMode);
      out := out[..j];
      ShrinkingLearnt(ca, t, seen, out);
      MinimisedImplied(ca, t, seen, out);
    }

    /** Moves a literal of the highest level after the first to slot 1: where to backtrack to. */
    method BacktrackLevel(outLearnt: seq<Literal>) returns (out: seq<Literal>, level: nat)
      requires Learnt(T(), outLearnt) && Implied(ca, T(), outLearnt) && trailLim != []
      ensures Asserting(T(), out, level) && Implied(ca, T(), out) && multiset(out) == multiset(outLearnt)
      ensures out[0] == outLearnt[0]
    {
      hide Learnt, Implied, Asserting, Capped;
      out := outLearnt;
      if |out| == 1 {
        AssertingUnit(T(), out);
        level := 0;
      } else {
        LearntNonempty(T(), out);
        var maxI, i := 1, 2;
        CappedFirst(T(), out);
        while i < |out|
          invariant 1 <= maxI < i <= |out| && Capped(T(), out, Level(T(), out[maxI].variable), i)
        {
          CappedNext(T(), out, Level(T(), out[maxI].variable), i);
          if Level(T(), out[i].variable) > Level(T(), out[maxI].variable) {
            maxI := i;
          }
          i := i + 1;
        }
        AssertingSwapped(ca, T(), out, maxI);
        var p := out[maxI];
        out := out[maxI := out[1]];
        out := out[1 := p];
        level := Level(T(), p.variable);
      }
    }

    /** From a conflict to an implied clause that is false below its first literal, and the level to
        return to.  No mark is left. */
    method Analyze(confl: nat, ccminMode: int) returns (outLearnt: seq<Literal>, btlevel: nat)
      requires Halted() && trailLim != [] && confl in ca && IsConflict(T(), ca[confl]) && seen == {}
      modifies this`seen, this`analyzeToclear
      ensures Asserting(T(), outLearnt, btlevel) && Implied(ca, T(), outLearnt) && seen == {}
      ensures SoleCurrent(T(), ca[confl]) ==> LearntFrom(T(), ca[confl], outLearnt, ccminMode)
      ensures LearntExactly(ca, T(), ca[confl], outLearnt, ccminMode)
    {
      hide IsFirstUIP, Front, LearntExactly;
      hide Steady, Learnt, Implied, Asserting, Shrinking, Supported, Collected, Current, Cuts, VariablesOf,
        IsConflict, Decisive, SoleCurrent, Shortened, LearntFrom, High;
      ghost var t := T();
      ghost var at;
      outLearnt, at := FirstUIP(confl);
      ghost var first, marks := outLearnt, seen;
      if SoleCurrent(t, ca[confl]) {
        SteadyOk(ca, watches, t, Start(t));
        SoleFront(ca, t, ca[confl], at, at + 1);
        SoleCollected(t, seen, outLearnt, ca[confl]);
      }
      CollectedIsLearnt(ca, t, seen, outLearnt);
      CollectedShrinks(ca, t, seen, outLearnt);
      outLearnt := Minimise(outLearnt, ccminMode);
      ghost var out := outLearnt;
      outLearnt, btlevel := BacktrackLevel(outLearnt);
      AssertingMeans(t, outLearnt, btlevel);
      ShortenedIsExact(ca, t, ca[confl], marks, first, out, outLearnt, ccminMode, at);
      if SoleCurrent(t, ca[confl]) {
        ShortenedMeans(ca, t, marks, first, out, ccminMode);
        LearntShortened(t, ca[confl], first, out, outLearnt, ccminMode);
      }
      var j := 0;
      while j < |analyzeToclear|
        invariant j <= |analyzeToclear| && seen <= VariablesOf(analyzeToclear[j..]) && T() == t
      {
        UnmarkNext(analyzeToclear, j);
        seen := seen - {analyzeToclear[j].variable};
        j := j + 1;
      }
      NoVariables(analyzeToclear[j..]);
    }

    /** The clause database grows by one clause, under a reference not in use. */
    method Alloc(c: Clause) returns (cr: nat)
      modifies this`ca
      ensures cr !in old(ca) && ca == old(ca)[cr := c]
    {
      var _ := FreshReference(ca.Keys);
      cr :| cr !in ca;
      ca := ca[cr := c];
    }

    /** Backtracks and learns: the first literal of the learnt clause is now forced. */
    method Learn(learnt: seq<Literal>, btlevel: nat, ghost assumptions: seq<Literal>, ghost n: nat)
      requires Halted() && Asserting(T(), learnt, btlevel) && Implied(ca, T(), learnt)
      requires Assumed(T(), assumptions) && Granted(T(), assumptions) && Bounded(ca, T(), n)
      modifies this
      ensures Assumed(T(), assumptions) && Granted(T(), assumptions) && Bounded(ca, T(), n)
      ensures Valid() && SameFits(old(ca), old(T()), ca, T()) && |trailLim| == btlevel
      ensures learnt != [] && trail != [] && trail[|trail| - 1] == learnt[0]
      ensures ok == old(ok) && seen == old(seen)
      ensures Learns(old(ca), old(T()), learnt, btlevel, ca, T()) && Stock(ca, T()) == Stock(old(ca), old(T())) + 1
    {
      hide Steady, Implied, Asserting, SameFits, Decisive, Backtracked, Assumed, Granted, Ok, Reasoned, Stock;
      ghost var t, db := T(), ca;
      SteadyOk(ca, watches, t, Start(t));
      AssertingMeans(t, learnt, btlevel);
      CancelUntil(btlevel);
      ghost var u := T();
      ImpliedKept(db, t, u, learnt);
      AssertingBacktracked(t, learnt, btlevel);
      BacktrackedAssumed(t, assumptions, btlevel);
      BacktrackedGranted(t, assumptions, btlevel);
      LearntBounded(db, t, btlevel, learnt, n);
      if |learnt| == 1 {
        EnqueuedSteady(ca, watches, u, qhead, learnt[0]);
        assert learnt == [learnt[0]];
        UnitLearnt(ca, u, learnt[0]);
        EnqueuedDecisive(u, learnt[0], NoReason);
        EnqueuedAssumed(u, assumptions, learnt[0], NoReason);
        EnqueuedGranted(u, assumptions, learnt[0], NoReason);
        UncheckedEnqueue(learnt[0], NoReason);
        SameFitsTrans(db, t, ca, u, ca, T());
      } else {
        var cr := Alloc(learnt);
        AttachClause(cr);
        LearntSteady(db, old(watches), u, qhead, cr, learnt);
        ClauseLearnt(db, u, cr, learnt);
        EnqueuedDecisive(u, learnt[0], Because(cr));
        EnqueuedAssumed(u, assumptions, learnt[0], Because(cr));
        EnqueuedGranted(u, assumptions, learnt[0], Because(cr));
        UncheckedEnqueue(learnt[0], Because(cr));
        SameFitsTrans(db, t, db, u, ca, T());
      }
      LearnsOne(db, t, learnt, btlevel, ca, T());
    }

    /** A conflict at level 0 refutes the clauses; any other one is turned into a learnt clause. */
    method ResolveConflict(confl: nat, ccminMode: int, ghost assumptions: seq<Literal>, ghost n: nat)
      requires Halted() && confl in ca && IsConflict(T(), ca[confl]) && seen == {} && ok
      requires Assumed(T(), assumptions) && Granted(T(), assumptions) && Bounded(ca, T(), n)
      modifies this
      ensures ok ==> Assumed(T(), assumptions) && Granted(T(), assumptions) && Bounded(ca, T(), n)
      ensures ok <==> old(trailLim) != []
      ensures !ok ==> forall m: Model :: !Fits(m, old(ca), old(T()))
      ensures ok ==> Valid() && SameFits(old(ca), old(T()), ca, T()) && |trailLim| < |old(trailLim)| && seen == {}
      ensures ok ==> LearnsFrom(old(ca), old(T()), old(ca)[confl], ccminMode, ca, T())
      ensures Stock(ca, T()) == Stock(old(ca), old(T())) + if ok then 1 else 0
    {
      hide Steady, Implied, Asserting, SameFits, Decisive, Fits, Assumed, Granted, Bounded, Learns, Stock,
        LearntExactly;
      SteadyOk(ca, watches, T(), Start(T()));
      if |trailLim| == 0 {
        Contradiction(ca, T(), confl);
        ok := false;
        return;
      }
      var learnt, btlevel := Analyze(confl, ccminMode);
      AssertingMeans(T(), learnt, btlevel);
      Learn(learnt, btlevel, assumptions, n);
    }

    /** The literals of a reason, except the forced one, are marked unless they are of level 0. */
    method MarkReason(cr: nat)
      requires cr in ca && |ca[cr]| >= 1
      modifies this`seen
      ensures seen == old(seen) + High(T(), ca[cr], 1, |ca[cr]|)
    {
      hide High;
      var c := ca[cr];
      ghost var t := T();
      HighNone(t, c, 1);
      var j := 1;
      while j < |c|
        invariant 1 <= j <= |c| && T() == t && seen == old(seen) + High(t, c, 1, j)
      {
        HighNext(t, c, 1, j);
        if Level(T(), c[j].variable) > 0 {
          seen := seen + {c[j].variable};
        }
        j := j + 1;
      }
    }

    /** A clause of a literal that is true and of negated decisions: those it is reached back to from. */
    method AnalyzeFinal(p: Literal) returns (outConflict: seq<Literal>)
      requires Valid() && IsTrue(T(), p) && seen == {}
      modifies this`seen
      ensures seen == {} && Implied(ca, T(), outConflict) && Final(T(), outConflict) && outConflict[0] == p
      ensures Blames(ca, T(), p, outConflict)
    {
      hide Backward, Blames, Reaches;
      hide Steady, Ok, Reasoned, Pos, Explained, Implied, Decisions, High, Follows, Supported, Final, Unfinished,
        Decisive, Lower;
      ghost var t := T();
      SteadyOk(ca, watches, t, qhead);
      outConflict := [p];
      FinalFirst(t, p);
      if |trailLim| == 0 {
        LevelZeroFinal(ca, t, p);
        NobodyBlamed(ca, t, p);
        return;
      }
      seen := seen + {p.variable};
      assert seen == {p.variable};
      ghost var ever: set<nat> := if Level(t, p.variable) == 0 then {} else {p.variable};
      UnfinishedBegins(ca, t, p);
      BackwardBegins(ca, t, ever, p);
      LimitFits(t);
      var i := |trail|;
      while i > trailLim[0]
        invariant trailLim[0] <= i <= |trail| && T() == t && outConflict != [] && outConflict[0] == p
        invariant Explained(ca, t, ever, Lower(outConflict), i) && Final(t, outConflict)
        invariant Backward(ca, t, ever, Lower(outConflict), p)
        invariant if Level(t, p.variable) > 0 then p.variable in ever else ever == {}
        invariant Unfinished(t, ever, seen, p, i)
      {
        i := i - 1;
        var x := trail[i].variable;
        UnfinishedAt(t, ever, seen, p, i);
        if x in seen {
          if ReasonOf(T(), x).NoReason? {
            ExplainedDecision(ca, t, ever, Lower(outConflict), i);
            FinalDecision(t, outConflict, i);
            BackwardDecision(ca, t, ever, Lower(outConflict), p, x);
            UnfinishedNext(t, ever, seen, p, i, {});
            outConflict := outConflict + [trail[i].Negated()];
            assert ever + {} == ever && seen + {} == seen;
          } else {
            var cr := ReasonOf(T(), x).cref;
            ExplainedMore(ca, t, ever, Lower(outConflict), i, cr);
            ReasonOlder(ca, t, i, cr);
            ghost var more := High(t, ca[cr], 1, |ca[cr]|);
            BackwardMore(ca, t, ever, Lower(outConflict), p, x, cr);
            HighBefore(t, ca[cr], i);
            UnfinishedNext(t, ever, seen, p, i, more);
            MarkReason(cr);
            ever := ever + more;
          }
          seen := seen - {x};
        } else {
          ExplainedSkip(ca, t, ever, Lower(outConflict), i);
        }
      }
      FinalIsImplied(ca, t, ever, outConflict);
      FinalBlames(ca, t, ever, p, outConflict);
      UnfinishedEnds(ca, t, ever, Lower(outConflict), seen, p);
      seen := seen - {p.variable};
    }

    /** Sorts a clause by the codes of its literals. */
    static method SortClause(ps: Clause) returns (c: Clause)
      ensures Sorted(c) && multiset(c) == multiset(ps)
    {
      var a := new Literal[|ps|](i requires 0 <= i < |ps| => ps[i]);
      var lt := (x: Literal, y: Literal) => x.Index() < y.Index();
      assert a[..] == ps;
      Sorting.Sort(a, 0, a.Length, lt);
      c := a[..];
    }

    /** What is left of the sorted clause `c` is one literal. */
    method AddUnit(out: Clause, ghost c: Clause)
      requires Valid() && trailLim == [] && ok && |out| == 1 && Reduced(T(), c, |c|, out)
      modifies this
      ensures trailLim == old(trailLim) && seen == old(seen)
      ensures ok ==> Valid() && Adds(old(ca), old(T()), c, ca, T())
      ensures !ok ==> NoModel(old(ca), old(T()), c)
      ensures KeepsBound(old(ca), old(T()), c, ca, T())
      ensures Keeps(old(ca), old(T()), out, ca, T())
    {
      hide Steady, Ok, Reasoned, Decisive, Reduced, Adds, NoModel, Fits, KeepsBound, Grown, SameClauses;
      ghost var t := T();
      SteadyOk(ca, watches, t, qhead);
      UnitAdds(ca, t, c, out);
      EnqueuedSteady(ca, watches, t, qhead, out[0]);
      EnqueuedDecisive(t, out[0], NoReason);
      UncheckedEnqueue(out[0], NoReason);
      ghost var db, u := ca, T();
      var confl := Propagate();
      AddsSame(old(ca), t, c, db, u, ca, T());
      SteadyOk(ca, watches, T(), if confl.NoConflict? then qhead else Start(T()));
      ok := confl.NoConflict?;
      UnitKeepsBound(old(ca), t, c, out, ca, T());
      if !ok {
        Contradicted(old(ca), t, c, ca, T(), confl.cref);
      }
    }

    /** What is left are two literals or more. */
    method AddLong(out: Clause, ghost c: Clause)
      requires Valid() && trailLim == [] && |out| >= 2 && Reduced(T(), c, |c|, out)
      modifies this
      ensures Valid() && Adds(old(ca), old(T()), c, ca, T()) && KeepsBound(old(ca), old(T()), c, ca, T())
      ensures trailLim == old(trailLim) && seen == old(seen) && ok == old(ok)
      ensures Keeps(old(ca), old(T()), out, ca, T())
    {
      hide Steady, Ok, Reasoned, Decisive, Reduced, Adds, Fits, KeepsBound;
      ghost var t := T();
      SteadyOk(ca, watches, t, qhead);
      ReducedProper(t, c, out);
      var cr := Alloc(out);
      AttachClause(cr);
      AddedSteady(old(ca), old(watches), t, qhead, cr, out);
      ClauseAdds(old(ca), t, c, out, cr);
      LongKeepsBound(old(ca), t, c, out, cr);
    }

    /** Adds a clause at level 0: satisfied and tautological ones are dropped, false and repeated
        literals removed.  No when the clauses have become contradictory. */
    method AddClause(ps: Clause) returns (r: bool)
      requires ok ==> Valid() && trailLim == []
      modifies this
      ensures r == ok && (ok ==> old(ok)) && trailLim == old(trailLim) && seen == old(seen)
      ensures ok ==> Valid() && Adds(old(ca), old(T()), ps, ca, T()) && KeepsBound(old(ca), old(T()), ps, ca, T())
      ensures old(ok) && !ok ==> NoModel(old(ca), old(T()), ps)
      ensures ok ==> Adopts(old(ca), old(T()), ps, ca, T())
    {
      hide Steady, Ok, Reasoned, Decisive, Reduced, Adds, NoModel, Fits, Sorted, KeepsBound, Leaves, Keeps, Idle;
      if !ok {
        return false;
      }
      ghost var t := T();
      SteadyOk(ca, watches, t, qhead);
      var c := SortClause(ps);
      SameSatisfied(c, ps);
      var out: Clause := [];
      var i := 0;
      ReducedNone(t, c);
      while i < |c|
        invariant i <= |c| && Reduced(t, c, i, out) && unchanged(this)
        invariant forall k :: 0 <= k < i ==> !IsTrue(t, c[k])
      {
        ReducedLast(t, c, i, out);
        if IsTrue(T(), c[i]) || (out != [] && c[i] == out[|out| - 1].Negated()) {
          IdleAt(t, c, ps, i, out);
          AlreadySatisfied(ca, t, c, i, out);
          AddsSorted(ca, t, c, ps, ca, t);
          NothingAdded(ca, t, ps);
          return true;
        } else if !IsFalse(T(), c[i]) && (out == [] || c[i] != out[|out| - 1]) {
          ReducedKeep(t, c, i, out);
          out := out + [c[i]];
        } else {
          ReducedSkip(t, c, i, out);
        }
        i := i + 1;
      }
      ReducedLeaves(t, c, ps, out);
      if |out| == 0 {
        EmptyAdded(ca, t, c);
        NoModelSorted(ca, t, c, ps);
        ok := false;
      } else if |out| == 1 {
        AddUnit(out, c);
        AdoptsKept(old(ca), t, ps, out, ca, T());
        UnitSorted(old(ca), t, c, ps, ca, T(), ok);
        BoundSorted(old(ca), t, c, ps, ca, T());
      } else {
        AddLong(out, c);
        AdoptsKept(old(ca), t, ps, out, ca, T());
        AddsSorted(old(ca), t, c, ps, ca, T());
        BoundSorted(old(ca), t, c, ps, ca, T());
      }
      r := ok;
    }

    /** Any unassigned variable with any polarity, if there is one. */
    method PickBranchLit(nVars: nat) returns (next: Decision)
      ensures match next
              case NoDecision => forall v :: 0 <= v < nVars ==> v in assigns
              case Decide(l) => l.variable < nVars && l.variable !in assigns
    {
      if v: nat :| v < nVars && v !in assigns {
        var positive: bool := *;
        next := Decide(Literal(v, positive));
      } else {
        next := NoDecision;
      }
    }

    /** Takes assumptions that are not yet decided: true ones get an empty decision level, a false one
        ends the search, the first open one is decided next. */
    method NextAssumption(assumptions: seq<Literal>, ghost n: nat)
      returns (next: Decision, failed: bool, conflict: Clause)
      requires Valid() && qhead == |trail| && seen == {} && Assumed(T(), assumptions) && Granted(T(), assumptions)
      modifies this`trailLim, this`seen
      ensures Valid() && seen == {} && Assumed(T(), assumptions) && SameFits(ca, old(T()), ca, T())
      ensures Granted(T(), assumptions)
      ensures Free(T(), n) == Free(old(T()), n) && (Bounded(ca, old(T()), n) ==> Bounded(ca, T(), n))
      ensures failed ==> Implied(ca, T(), conflict) && forall l :: l in conflict ==> l.Negated() in assumptions
      ensures failed ==> FailsAt(T(), assumptions, |trailLim|) &&
                         Blames(ca, T(), assumptions[|trailLim|].Negated(), conflict)
      ensures !failed && next.Decide? ==> |trailLim| < |assumptions| && next.literal == assumptions[|trailLim|] &&
                                          next.literal.variable !in assigns
      ensures !failed && next.NoDecision? ==>
          |trailLim| >= |assumptions| && forall i :: 0 <= i < |assumptions| ==> IsTrue(T(), assumptions[i])
      ensures old(trailLim) <= trailLim && (trailLim != old(trailLim) ==> |trailLim| <= |assumptions|)
      ensures Stock(ca, T()) == Stock(ca, old(T()))
    {
      hide Steady, Ok, Decisive, SameFits, Assumed, Final, Implied, Bounded, Free, Granted, Blames, Facts;
      next, failed, conflict := NoDecision, false, [];
      FitsSelf(ca, T());
      while |trailLim| < |assumptions|
        invariant Valid() && seen == {} && Assumed(T(), assumptions) && SameFits(ca, old(T()), ca, T())
        invariant Granted(T(), assumptions) && Facts(T()) == Facts(old(T()))
        invariant old(trailLim) <= trailLim && (trailLim != old(trailLim) ==> |trailLim| <= |assumptions|)
        invariant Free(T(), n) == Free(old(T()), n) && (Bounded(ca, old(T()), n) ==> Bounded(ca, T(), n))
      {
        var p := assumptions[|trailLim|];
        GrantedMeans(T(), assumptions);
        if IsTrue(T(), p) {
          DecidedAssumed(T(), assumptions);
          SteadyOk(ca, watches, T(), qhead);
          DecidedGranted(T(), assumptions);
          DecidedFits(ca, T());
          DecidedFree(ca, T(), n);
          FactsDecided(T());
          SameFitsTrans(ca, old(T()), ca, T(), ca, Decided(T()));
          NewDecisionLevel();
        } else if IsFalse(T(), p) {
          conflict := AnalyzeFinal(p.Negated());
          SteadyOk(ca, watches, T(), qhead);
          FinalAssumed(T(), assumptions, conflict, p);
          failed := true;
          return;
        } else {
          next := Decide(p);
          return;
        }
      }
      GrantedMeans(T(), assumptions);
    }

    /** Searches until a model, a refutation or the given number of conflicts.  A model is reported
        by its assignment; a refutation under assumptions by an implied clause of negated ones.
        `withinBudget` says what each question for the remaining budget is answered. */
    method Search(nVars: nat, nofConflicts: nat, ccminMode: int, assumptions: seq<Literal>, withinBudget: nat -> bool)
      returns (status: LBool, model: map<nat, bool>, conflict: Clause, conflictC: nat, asked: nat)
      requires Valid() && trailLim == [] && ok && seen == {} && Bounded(ca, T(), nVars)
      requires forall l :: l in assumptions ==> l.variable < nVars
      modifies this
      ensures status == LTrue ==> forall m: Model :: Extends(m, model) ==> Fits(m, old(ca), old(T()))
      ensures status == LTrue ==>
                forall l :: l in assumptions ==> l.variable in model && model[l.variable] == l.positive
      ensures status == LTrue ==> forall v :: 0 <= v < nVars ==> v in model
      ensures status == LFalse ==> forall m: Model :: Fits(m, old(ca), old(T())) ==> Satisfies(m, conflict)
      ensures forall l :: l in conflict ==> l.Negated() in assumptions
      ensures status == LUndef ==> Valid() && trailLim == [] && SameFits(old(ca), old(T()), ca, T())
      ensures status == LUndef ==> ok && seen == {} && Bounded(ca, T(), nVars)
      ensures status == LUndef ==> conflictC >= nofConflicts || !withinBudget(asked)
      ensures forall k :: 0 < k < asked ==> withinBudget(k)
      ensures status == LTrue ==> conflictC < nofConflicts && withinBudget(asked) && |trailLim| < |assumptions| + asked
      ensures Stock(old(ca), old(T())) + conflictC == Stock(ca, T()) + if ok then 0 else 1
    {
      hide Steady, Ok, Decisive, SameFits, Assumed, Implied, Bounded, Free, IsConflict, Grown, SameClauses, Unit, Fits,
        Granted, Blames, FailsAt, LearnsFrom, Stock;
      status, model, conflict, conflictC, asked := LUndef, map[], [], 0, 0;
      FitsSelf(ca, T());
      NothingAssumed(ca, watches, T(), qhead, assumptions);
      while true
        invariant Valid() && ok && seen == {} && Assumed(T(), assumptions) && Bounded(ca, T(), nVars)
        invariant Granted(T(), assumptions) && |trailLim| <= |assumptions| + asked
        invariant SameFits(old(ca), old(T()), ca, T())
        invariant status == LUndef && conflict == [] && forall k :: 0 < k <= asked ==> withinBudget(k)
        invariant Stock(old(ca), old(T())) + conflictC == Stock(ca, T())
        decreases if conflictC < nofConflicts then nofConflicts - conflictC else 0,
                  if conflictC < nofConflicts then Free(T(), nVars) else |trailLim|
      {
        ghost var db, t := ca, T();
        SteadyOk(ca, watches, t, qhead);
        var confl := Propagate();
        SteadyOk(ca, watches, T(), if confl.NoConflict? then qhead else Start(T()));
        SameFitsTrans(old(ca), old(T()), db, t, ca, T());
        GrownSearch(db, t, ca, T(), assumptions, nVars);
        PropagatedStock(db, t, ca, T());
        if confl.Conflict? {
          conflictC := conflictC + 1;
          ghost var cb, u := ca, T();
          ResolveConflict(confl.cref, ccminMode, assumptions, nVars);
          if !ok {
            Refuted(old(ca), old(T()), cb, u);
            status := LFalse;
            return;
          }
          SameFitsTrans(old(ca), old(T()), cb, u, ca, T());
        } else {
          asked := asked + 1;
          if conflictC >= nofConflicts || !withinBudget(asked) {
            ghost var u := T();
            Restart(nVars);
            SameFitsTrans(old(ca), old(T()), ca, u, ca, T());
            return;
          }
          ghost var u := T();
          status, conflict := Descend(assumptions, nVars);
          if status == LFalse {
            RefutedUnder(old(ca), old(T()), ca, u, conflict);
            return;
          }
          if status == LTrue {
            FoundUnder(old(ca), old(T()), ca, u, assigns);
            model := assigns;
            return;
          }
          SameFitsTrans(old(ca), old(T()), ca, u, ca, T());
        }
      }
    }

    /** Back to level 0. */
    method Restart(ghost nVars: nat)
      requires Valid() && Bounded(ca, T(), nVars)
      modifies this`assigns, this`trail, this`trailLim, this`qhead
      ensures Valid() && trailLim == [] && Bounded(ca, T(), nVars) && SameFits(ca, old(T()), ca, T())
      ensures Stock(ca, T()) == Stock(ca, old(T()))
    {
      hide Steady, Ok, Decisive, SameFits, Bounded, Fits, Stock;
      ghost var u := T();
      SteadyOk(ca, watches, u, qhead);
      if |trailLim| > 0 {
        BacktrackedBounded(ca, u, 0, nVars);
      }
      CancelUntil(0);
      CancelledStock(ca, u);
    }

    /** One step down the search tree: the next assumption or another open variable is decided, unless an
        assumption is false or nothing is open. */
    method Descend(assumptions: seq<Literal>, nVars: nat) returns (status: LBool, conflict: Clause)
      requires Valid() && qhead == |trail| && seen == {} && Bounded(ca, T(), nVars)
      requires Assumed(T(), assumptions) && Granted(T(), assumptions) && forall cr :: cr in ca ==> !Unit(T(), ca[cr])
      requires forall l :: l in assumptions ==> l.variable < nVars
      modifies this`assigns, this`vardata, this`trail, this`trailLim, this`seen
      ensures Valid() && seen == {} && Bounded(ca, T(), nVars) && Stock(ca, T()) == Stock(ca, old(T()))
      ensures status == LUndef ==> Assumed(T(), assumptions) && Granted(T(), assumptions) &&
                                   SameFits(ca, old(T()), ca, T()) && Free(T(), nVars) < Free(old(T()), nVars)
      ensures status == LTrue ==>
                (forall v :: 0 <= v < nVars ==> v in assigns) && (forall l :: l in assumptions ==> IsTrue(T(), l)) &&
                forall m: Model :: Extends(m, assigns) ==> Fits(m, ca, old(T()))
      ensures if status == LFalse then Implied(ca, old(T()), conflict) else conflict == []
      ensures forall l :: l in conflict ==> l.Negated() in assumptions
      ensures |trailLim| <= if status == LUndef then |assumptions| + |old(trailLim)| + 1
                            else |assumptions| + |old(trailLim)|
      ensures |old(trailLim)| >= |assumptions| ==>
                |trailLim| == |old(trailLim)| + if status == LUndef then 1 else 0
      ensures |old(trailLim)| < |assumptions| ==> |trailLim| <= |assumptions| + if status == LUndef then 1 else 0
    {
      hide Steady, Ok, Decisive, SameFits, Assumed, Implied, Bounded, Free, Unit, Fits, Granted, Blames, FailsAt, Stock;
      status, conflict := LUndef, [];
      ghost var u := T();
      var next, failed, clause := NextAssumption(assumptions, nVars);
      if failed {
        ImpliedSame(ca, u, T(), clause);
        return LFalse, clause;
      }
      if next.NoDecision? {
        next := PickBranchLit(nVars);
        if next.NoDecision? {
          SteadyOk(ca, watches, T(), qhead);
          EverythingSatisfied(ca, u, T(), nVars);
          Found(ca, u, ca, T());
          return LTrue, [];
        }
      }
      ghost var v := T();
      BranchStock(ca, v, next.literal);
      Branch(next.literal, assumptions, nVars);
      SameFitsTrans(ca, u, ca, v, ca, T());
    }

    /** A new decision level that starts with the chosen literal. */
    method Branch(next: Literal, ghost assumptions: seq<Literal>, ghost n: nat)
      requires Valid() && qhead == |trail| && next.variable !in assigns && next.variable < n
      requires Assumed(T(), assumptions) && Granted(T(), assumptions) && Bounded(ca, T(), n)
      requires |trailLim| < |assumptions| ==> next == assumptions[|trailLim|]
      modifies this`assigns, this`vardata, this`trail, this`trailLim
      ensures Valid() && Assumed(T(), assumptions) && Bounded(ca, T(), n) && SameFits(ca, old(T()), ca, T())
      ensures Granted(T(), assumptions) && T() == Enqueued(Decided(old(T())), next, NoReason)
      ensures Free(T(), n) < Free(old(T()), n)
    {
      hide Steady, Ok, Decisive, SameFits, Assumed, Bounded, Free, Granted;
      ghost var t := T();
      SteadyOk(ca, watches, t, qhead);
      DecidedAssumed(t, assumptions);
      BranchGranted(t, assumptions, next);
      DecidedFits(ca, t);
      DecidedFree(ca, t, n);
      NewDecisionLevel();
      ghost var u := T();
      SteadyOk(ca, watches, u, qhead);
      EnqueuedSteady(ca, watches, u, qhead, next);
      EnqueuedDecisive(u, next, NoReason);
      EnqueuedAssumed(u, assumptions, next, NoReason);
      BranchFits(ca, u, next);
      BranchBounded(ca, u, next, n);
      FreeEnqueued(u, n, next, NoReason);
      SameFitsTrans(ca, t, ca, u, ca, Enqueued(u, next, NoReason));
      UncheckedEnqueue(next, NoReason);
    }
  }

  /** At most one literal that is not false, and none true. */
  ghost predicate Unit(t: Trail, c: Clause) {
    (forall l :: l in c ==> !IsTrue(t, l)) &&
    (forall i, j :: 0 <= i < j < |c| ==> IsFalse(t, c[i]) || IsFalse(t, c[j]))
  }

  lemma SteadyEnds(ca: Clauses, ws: WatchLists, t: Trail, q: nat)
    requires Steady(ca, ws, t, q)
    ensures q <= |t.lits| && (q == |t.lits| ==> forall cr :: cr in ca ==> !Unit(t, ca[cr]))
  {
    hide Ok, Shaped, Settled;
    if q == |t.lits| {
      forall cr | cr in ca ensures !Unit(t, ca[cr]) {
        ShapedProper(ca, ws, cr);
        if Unit(t, ca[cr]) {
          UnitWatches(t, ca[cr]);
        }
        NothingUnit(ca, ws, t, cr);
      }
    }
  }

  lemma UnitWatches(t: Trail, c: Clause)
    requires Proper(c) && Unit(t, c)
    ensures IsFalse(t, c[0]) || IsFalse(t, c[1])
  {
  }

  lemma ShapedProper(ca: Clauses, ws: WatchLists, cr: nat)
    requires Shaped(ca, ws) && cr in ca
    ensures Proper(ca[cr])
  {
  }

  lemma SteadyStart(ca: Clauses, ws: WatchLists, t: Trail, q: nat)
    requires Steady(ca, ws, t, q)
    ensures Steady(ca, ws, t, Start(t)) && Ok(t) && q <= |t.lits|
  {
    hide Ok, Pos, Shaped;
    forall l, i | 0 <= i < |ListOf(ws, l)| && Propagated(t, l, Start(t)) ensures Settles(ca, ws, t, l, i) {
      assert Propagated(t, l, q);
    }
  }

  lemma FitsSelf(ca: Clauses, t: Trail)
    ensures SameFits(ca, t, ca, t)
  {
  }

  lemma BacktrackedFits(ca: Clauses, t: Trail, level: nat)
    requires Ok(t) && level < |t.lim|
    ensures t.lim[level] <= |t.lits| && SameFits(ca, t, ca, Backtracked(t, level))
  {
    hide Pos;
    var u := Backtracked(t, level);
    forall m: Model ensures Fits(m, ca, t) <==> Fits(m, ca, u) {
      if Fits(m, ca, u) {
        forall i | 0 <= i < |t.lits| && Level(t, t.lits[i].variable) == 0 ensures Holds(m, t.lits[i]) {
          assert t.lim[level] <= i <==> level < Level(t, t.lits[i].variable);
          assert u.lits[i] == t.lits[i];
        }
      }
    }
  }

  lemma BacktrackedDecisive(t: Trail, level: nat)
    requires Ok(t) && Decisive(t) && level < |t.lim|
    ensures t.lim[level] <= |t.lits| && Decisive(Backtracked(t, level))
  {
    hide Pos;
    var u := Backtracked(t, level);
    forall i | 0 <= i < |u.lits| && Level(u, u.lits[i].variable) > 0 && ReasonOf(u, u.lits[i].variable).NoReason?
      ensures Level(u, u.lits[i].variable) <= |u.lim| && u.lim[Level(u, u.lits[i].variable) - 1] == i
    {
      assert u.lits[i] == t.lits[i];
      assert t.lim[level] <= i <==> level < Level(t, t.lits[i].variable);
    }
  }

  lemma AssignedAll(t: Trail)
    requires Ok(t)
    ensures t.assigns == AssignedBefore(t, |t.lits|)
  {
    hide Pos;
    forall v | v in t.assigns ensures Pos(t.lits, v) < |t.lits| {
    }
  }

  lemma AssignedNext(t: Trail, c: nat)
    requires Ok(t) && c < |t.lits|
    ensures AssignedBefore(t, c) == AssignedBefore(t, c + 1) - {t.lits[c].variable}
  {
    hide Pos;
    PosAt(t.lits, c);
  }

  lemma SteadyOk(ca: Clauses, ws: WatchLists, t: Trail, q: nat)
    requires Steady(ca, ws, t, q)
    ensures Ok(t) && Reasoned(ca, t) && AllProper(ca)
  {
  }

  lemma DecidedDecisive(t: Trail)
    requires Ok(t) && Decisive(t)
    ensures Decisive(Decided(t))
  {
    hide Pos;
  }

  lemma GrownDecisive(t: Trail, u: Trail)
    requires Ok(t) && Grown(t, u) && Decisive(t)
    ensures Decisive(u)
  {
    forall i | 0 <= i < |u.lits| && Level(u, u.lits[i].variable) > 0 && ReasonOf(u, u.lits[i].variable).NoReason?
      ensures Level(u, u.lits[i].variable) <= |u.lim| && u.lim[Level(u, u.lits[i].variable) - 1] == i
    {
      assert i < |t.lits|;
      assert IsTrue(t, t.lits[i]) && u.lits[i] == t.lits[i];
    }
  }

  /** The same models of the clauses and the level-0 assignments. */
  ghost predicate SameFits(ca: Clauses, t: Trail, cb: Clauses, u: Trail) {
    forall m: Model :: Fits(m, ca, t) <==> Fits(m, cb, u)
  }

  /** Literals forced at level 0 hold in every model. */
  lemma {:induction false} LevelZeroHolds(ca: Clauses, t: Trail, u: Trail, m: Model, n: nat)
    requires Ok(t) && Ok(u) && Reasoned(ca, u) && Grown(t, u) && ModelsAll(m, ca) && n <= |u.lits|
    requires forall i :: 0 <= i < |t.lits| && Level(t, t.lits[i].variable) == 0 ==> Holds(m, t.lits[i])
    ensures forall i :: 0 <= i < n && Level(u, u.lits[i].variable) == 0 ==> Holds(m, u.lits[i])
  {
    hide Pos;
    if n > 0 {
      LevelZeroHolds(ca, t, u, m, n - 1);
      var p := u.lits[n - 1];
      if n <= |t.lits| {
        assert IsTrue(t, t.lits[n - 1]);
      } else if Level(u, p.variable) == 0 {
        var cr := ReasonOf(u, p.variable).cref;
        ReasonOlder(ca, u, n - 1, cr);
        var l :| l in ca[cr] && Holds(m, l);
        var k :| 0 <= k < |ca[cr]| && ca[cr][k] == l;
        if k > 0 {
          var j := Locate(u, l);
        }
      }
    }
  }

  lemma GrownFits(ca: Clauses, t: Trail, cb: Clauses, u: Trail)
    requires Ok(t) && Ok(u) && Reasoned(cb, u) && SameClauses(ca, cb) && Grown(t, u)
    ensures SameFits(ca, t, cb, u)
  {
    hide Pos, Reasoned, ModelsAll;
    forall m: Model ensures Fits(m, ca, t) <==> Fits(m, cb, u) {
      hide Ok;
      SameModels(ca, cb, m);
      if Fits(m, ca, t) {
        LevelZeroHolds(cb, t, u, m, |u.lits|);
      }
      if Fits(m, cb, u) {
        FitsBefore(cb, t, u, m);
      }
    }
  }

  lemma FitsBefore(cb: Clauses, t: Trail, u: Trail, m: Model)
    requires Ok(t) && Grown(t, u) && Fits(m, cb, u)
    ensures Fits(m, cb, t)
  {
    forall i | 0 <= i < |t.lits| && Level(t, t.lits[i].variable) == 0 ensures Holds(m, t.lits[i]) {
      assert IsTrue(t, t.lits[i]) && u.lits[i] == t.lits[i];
    }
  }

  lemma AssertingMeans(t: Trail, c: Clause, level: nat)
    requires Asserting(t, c, level)
    ensures c != [] && level < |t.lim|
  {
  }

  lemma LearntNonempty(t: Trail, c: Clause)
    requires Learnt(t, c)
    ensures c != []
  {
  }

  lemma CappedFirst(t: Trail, c: Clause)
    requires |c| > 1
    ensures Capped(t, c, Level(t, c[1].variable), 2)
  {
  }

  lemma CappedNext(t: Trail, c: Clause, level: nat, i: nat)
    requires 1 <= i < |c| && Capped(t, c, level, i)
    ensures Capped(t, c, if Level(t, c[i].variable) > level then Level(t, c[i].variable) else level, i + 1)
  {
  }

  lemma CollectedShrinks(ca: Clauses, t: Trail, s: set<nat>, out: seq<Literal>)
    requires Learnt(t, out) && Supported(ca, t, s, Lower(out)) && Cuts(ca, t, s + {out[0].variable})
    ensures Shrinking(ca, t, s, out)
  {
  }

  lemma ImpliedKept(ca: Clauses, t: Trail, u: Trail, c: Clause)
    requires Implied(ca, t, c) && SameFits(ca, t, ca, u)
    ensures Implied(ca, u, c)
  {
    hide Fits;
  }

  /** After backtracking the learnt clause forces its first literal. */
  lemma AssertingBacktracked(t: Trail, c: Clause, level: nat)
    requires Ok(t) && Asserting(t, c, level)
    ensures t.lim[level] <= |t.lits|
    ensures var u := Backtracked(t, level);
            Ok(u) && c[0].variable !in u.assigns && |u.lim| == level && (|c| == 1 ==> level == 0) &&
            (|c| > 1 ==>
               Proper(c) && level > 0 && (forall k :: 1 <= k < |c| ==> IsFalse(u, c[k])) &&
               Level(u, c[1].variable) == level)
  {
    BacktrackedOk(t, level);
    hide Ok, Backtracked, Pos;
    BacktrackedKeeps(t, level, c[0]);
    SameLevels(t, level);
    BacktrackedLim(t, level);
    forall k | 1 <= k < |c| ensures IsFalse(Backtracked(t, level), c[k]) {
      BacktrackedKeeps(t, level, c[k]);
    }
  }

  lemma BacktrackedLim(t: Trail, level: nat)
    requires level < |t.lim| && t.lim[level] <= |t.lits|
    ensures |Backtracked(t, level).lim| == level
  {
  }

  lemma UnitLearnt(ca: Clauses, t: Trail, l: Literal)
    requires Implied(ca, t, [l]) && l.variable !in t.assigns && Ok(t)
    ensures SameFits(ca, t, ca, Enqueued(t, l, NoReason))
  {
    hide ModelsAll, Pos;
    var u := Enqueued(t, l, NoReason);
    forall m: Model ensures Fits(m, ca, t) <==> Fits(m, ca, u) {
      if Fits(m, ca, t) {
        assert Satisfies(m, [l]);
      }
      FitsEnqueued(m, ca, t, l, NoReason);
    }
  }

  lemma FitsEnqueued(m: Model, ca: Clauses, t: Trail, l: Literal, from: Reason)
    requires Ok(t) && l.variable !in t.assigns
    ensures Fits(m, ca, Enqueued(t, l, from)) <==> Fits(m, ca, t) && (t.lim == [] ==> Holds(m, l))
  {
    hide ModelsAll, Pos;
    var u := Enqueued(t, l, from);
    forall i | 0 <= i < |t.lits| ensures u.lits[i] == t.lits[i] &&
      Level(u, t.lits[i].variable) == Level(t, t.lits[i].variable) {
      NotYet(t, l, i);
    }
    assert u.lits[|t.lits|] == l;
  }

  lemma ClauseLearnt(ca: Clauses, t: Trail, cr: nat, c: Clause)
    requires Implied(ca, t, c) && cr !in ca && c != [] && c[0].variable !in t.assigns && Ok(t) && t.lim != []
    ensures SameFits(ca, t, ca[cr := c], Enqueued(t, c[0], Because(cr)))
  {
    hide Pos, Ok;
    forall m: Model ensures Fits(m, ca, t) <==> Fits(m, ca[cr := c], Enqueued(t, c[0], Because(cr))) {
      FitsEnqueued(m, ca[cr := c], t, c[0], Because(cr));
      assert ca[cr := c][cr] == c;
      assert ModelsAll(m, ca[cr := c]) ==> ModelsAll(m, ca) by {
        forall x | x in ca ensures ca[cr := c][x] == ca[x] {}
      }
    }
  }

  lemma SameFitsTrans(ca: Clauses, t: Trail, cb: Clauses, u: Trail, cc: Clauses, v: Trail)
    requires SameFits(ca, t, cb, u) && SameFits(cb, u, cc, v)
    ensures SameFits(ca, t, cc, v)
  {
    hide Fits;
  }

  lemma EnqueuedDecisive(t: Trail, p: Literal, from: Reason)
    requires Ok(t) && Decisive(t) && p.variable !in t.assigns
    requires (from.NoReason? ==> t.lim == [] || t.lim[|t.lim| - 1] == |t.lits|)
    ensures Decisive(Enqueued(t, p, from))
  {
    hide Pos;
    var u := Enqueued(t, p, from);
    forall i | 0 <= i < |u.lits| && Level(u, u.lits[i].variable) > 0 && ReasonOf(u, u.lits[i].variable).NoReason?
      ensures Level(u, u.lits[i].variable) <= |u.lim| && u.lim[Level(u, u.lits[i].variable) - 1] == i
    {
      if i < |t.lits| {
        NotYet(t, p, i);
        assert u.lits[i] == t.lits[i];
      }
    }
  }

  lemma LearntBounded(ca: Clauses, t: Trail, level: nat, c: Clause, n: nat)
    requires Ok(t) && Asserting(t, c, level) && Bounded(ca, t, n)
    ensures t.lim[level] <= |t.lits| && Bounded(ca, Backtracked(t, level), n)
    ensures forall l :: l in c ==> l.variable < n
  {
    BacktrackedOk(t, level);
  }

  /** A bound on the variables that holds for the added clause too is kept. */
  ghost predicate KeepsBound(ca: Clauses, t: Trail, c: Clause, cb: Clauses, u: Trail) {
    forall n {:trigger Bounded(cb, u, n)} :: Bounded(ca, t, n) && VariablesBelow(c, n) ==> Bounded(cb, u, n)
  }

  lemma NothingAdded(ca: Clauses, t: Trail, c: Clause)
    ensures KeepsBound(ca, t, c, ca, t)
  {
  }

  lemma UnitKeepsBound(ca: Clauses, t: Trail, c: Clause, out: Clause, cb: Clauses, u: Trail)
    requires Reduced(t, c, |c|, out) && |out| == 1 && Ok(Enqueued(t, out[0], NoReason)) && Ok(u) && Reasoned(cb, u)
    requires Grown(Enqueued(t, out[0], NoReason), u) && SameClauses(ca, cb)
    ensures KeepsBound(ca, t, c, cb, u)
  {
    hide Ok, Reasoned, Grown, SameClauses;
    assert out[0] in c;
    forall n | Bounded(ca, t, n) && VariablesBelow(c, n) ensures Bounded(cb, u, n) {
      GrownBounded(ca, Enqueued(t, out[0], NoReason), cb, u, n);
    }
  }

  lemma LongKeepsBound(ca: Clauses, t: Trail, c: Clause, out: Clause, cr: nat)
    requires Reduced(t, c, |c|, out) && cr !in ca
    ensures KeepsBound(ca, t, c, ca[cr := out], t)
  {
  }

  lemma BoundSorted(ca: Clauses, t: Trail, c: Clause, ps: Clause, cb: Clauses, u: Trail)
    requires multiset(c) == multiset(ps) && KeepsBound(ca, t, c, cb, u)
    ensures KeepsBound(ca, t, ps, cb, u)
  {
    SameLiterals(c, ps);
  }

  /** Going back keeps the bound. */
  lemma BacktrackedBounded(ca: Clauses, t: Trail, level: nat, n: nat)
    requires Ok(t) && level < |t.lim| && Bounded(ca, t, n)
    ensures t.lim[level] <= |t.lits| && Bounded(ca, Backtracked(t, level), n)
  {
    BacktrackedOk(t, level);
  }

  lemma FinalFirst(t: Trail, p: Literal)
    ensures Final(t, [p])
  {
  }

  lemma HighBefore(t: Trail, c: Clause, n: nat)
    requires forall k :: 1 <= k < |c| ==> Pos(t.lits, c[k].variable) < n
    ensures forall v :: v in High(t, c, 1, |c|) ==> Pos(t.lits, v) < n
  {
    hide Pos;
  }

  lemma SameLiterals(c: Clause, d: Clause)
    requires multiset(c) == multiset(d)
    ensures forall l :: l in c <==> l in d
  {
    forall l ensures l in c <==> l in d {
      assert l in c <==> l in multiset(c);
      assert l in d <==> l in multiset(d);
    }
  }

  lemma SameSatisfied(c: Clause, ps: Clause)
    requires multiset(c) == multiset(ps)
    ensures forall m: Model :: Satisfies(m, c) <==> Satisfies(m, ps)
  {
    SameLiterals(c, ps);
  }

  lemma AddsSorted(ca: Clauses, t: Trail, c: Clause, ps: Clause, cb: Clauses, u: Trail)
    requires multiset(c) == multiset(ps) && Adds(ca, t, c, cb, u)
    ensures Adds(ca, t, ps, cb, u)
  {
    hide Fits;
    SameSatisfied(c, ps);
  }

  lemma NoModelSorted(ca: Clauses, t: Trail, c: Clause, ps: Clause)
    requires multiset(c) == multiset(ps) && NoModel(ca, t, c)
    ensures NoModel(ca, t, ps)
  {
    hide Fits;
    SameSatisfied(c, ps);
  }

  lemma UnitSorted(ca: Clauses, t: Trail, c: Clause, ps: Clause, cb: Clauses, u: Trail, ok: bool)
    requires multiset(c) == multiset(ps) && if ok then Adds(ca, t, c, cb, u) else NoModel(ca, t, c)
    ensures if ok then Adds(ca, t, ps, cb, u) else NoModel(ca, t, ps)
  {
    hide Fits, Adds, NoModel;
    if ok {
      AddsSorted(ca, t, c, ps, cb, u);
    } else {
      NoModelSorted(ca, t, c, ps);
    }
  }

  lemma ReducedNone(t: Trail, c: Clause)
    ensures Reduced(t, c, 0, [])
  {
  }

  lemma ReducedLast(t: Trail, c: Clause, n: nat, out: Clause)
    requires Reduced(t, c, n, out)
    ensures out != [] ==> out[|out| - 1] in c && out[0].variable !in t.assigns
  {
  }

  lemma ReducedProper(t: Trail, c: Clause, out: Clause)
    requires Reduced(t, c, |c|, out) && |out| >= 2
    ensures Proper(out) && !IsFalse(t, out[0]) && !IsFalse(t, out[1])
  {
  }

  lemma UnitAdds(ca: Clauses, t: Trail, c: Clause, out: Clause)
    requires Ok(t) && t.lim == [] && Reduced(t, c, |c|, out) && |out| == 1
    ensures out[0].variable !in t.assigns && Adds(ca, t, c, ca, Enqueued(t, out[0], NoReason))
  {
    ReducedLast(t, c, |c|, out);
    hide Ok, Fits, Reduced;
    forall m: Model ensures Fits(m, ca, Enqueued(t, out[0], NoReason)) <==> Fits(m, ca, t) && Satisfies(m, c) {
      FitsEnqueued(m, ca, t, out[0], NoReason);
      if Fits(m, ca, t) {
        ReducedSatisfied(ca, t, m, c, out);
        assert Satisfies(m, out) <==> Holds(m, out[0]);
      }
    }
  }

  lemma ClauseAdds(ca: Clauses, t: Trail, c: Clause, out: Clause, cr: nat)
    requires Ok(t) && t.lim == [] && Reduced(t, c, |c|, out) && cr !in ca
    ensures Adds(ca, t, c, ca[cr := out], t)
  {
    hide Ok, Reduced;
    forall m: Model ensures Fits(m, ca[cr := out], t) <==> Fits(m, ca, t) && Satisfies(m, c) {
      assert ca[cr := out][cr] == out;
      assert ModelsAll(m, ca[cr := out]) ==> ModelsAll(m, ca) by {
        forall x | x in ca ensures ca[cr := out][x] == ca[x] {}
      }
      if Fits(m, ca, t) {
        ReducedSatisfied(ca, t, m, c, out);
      }
    }
  }

  lemma AddsSame(ca: Clauses, t: Trail, c: Clause, cb: Clauses, u: Trail, cc: Clauses, v: Trail)
    requires Adds(ca, t, c, cb, u) && SameFits(cb, u, cc, v)
    ensures Adds(ca, t, c, cc, v)
  {
    hide Fits;
  }

  lemma Contradicted(ca: Clauses, t: Trail, c: Clause, cb: Clauses, u: Trail, cr: nat)
    requires Adds(ca, t, c, cb, u) && Ok(u) && u.lim == [] && cr in cb && IsConflict(u, cb[cr])
    ensures NoModel(ca, t, c)
  {
    Contradiction(cb, u, cr);
    hide Fits;
  }

  lemma DecidedFits(ca: Clauses, t: Trail)
    ensures SameFits(ca, t, ca, Decided(t))
  {
    forall m: Model ensures Fits(m, ca, t) <==> Fits(m, ca, Decided(t)) {
    }
  }

  lemma {:induction false} SameFree(t: Trail, u: Trail, n: nat)
    requires t.assigns == u.assigns
    ensures Free(t, n) == Free(u, n)
  {
    FreeGrown(t, u, n);
    FreeGrown(u, t, n);
  }

  lemma DecidedFree(ca: Clauses, t: Trail, n: nat)
    ensures Free(Decided(t), n) == Free(t, n) && (Bounded(ca, t, n) ==> Bounded(ca, Decided(t), n))
  {
    SameFree(t, Decided(t), n);
  }

  lemma FinalAssumed(t: Trail, assumptions: seq<Literal>, c: Clause, p: Literal)
    requires Ok(t) && Assumed(t, assumptions) && |t.lim| < |assumptions| && Final(t, c) && c[0] == p.Negated()
    requires p in assumptions
    ensures forall l :: l in c ==> l.Negated() in assumptions
  {
    forall l | l in c ensures l.Negated() in assumptions {
      var k :| 0 <= k < |c| && c[k] == l;
      if k == 0 {
        assert l.Negated() == p;
      } else {
        DecisionsAssumed(t, assumptions, l);
      }
    }
  }

  lemma NothingAssumed(ca: Clauses, ws: WatchLists, t: Trail, q: nat, assumptions: seq<Literal>)
    requires Steady(ca, ws, t, q) && t.lim == []
    ensures Assumed(t, assumptions) && Granted(t, assumptions)
  {
    hide Pos, Shaped;
  }

  lemma GrownAssumed(t: Trail, u: Trail, assumptions: seq<Literal>)
    requires Ok(t) && Grown(t, u) && Assumed(t, assumptions)
    ensures Assumed(u, assumptions)
  {
    forall i | 0 <= i < |u.lits| && 0 < Level(u, u.lits[i].variable) <= |assumptions| &&
      ReasonOf(u, u.lits[i].variable).NoReason?
      ensures u.lits[i] in assumptions
    {
      assert i < |t.lits|;
      assert IsTrue(t, t.lits[i]) && u.lits[i] == t.lits[i];
    }
  }

  lemma GrownGranted(t: Trail, u: Trail, assumptions: seq<Literal>)
    requires Grown(t, u) && Granted(t, assumptions)
    ensures Granted(u, assumptions)
  {
  }

  lemma GrownBounded(ca: Clauses, t: Trail, cb: Clauses, u: Trail, n: nat)
    requires Ok(t) && Ok(u) && Reasoned(cb, u) && SameClauses(ca, cb) && Grown(t, u) && Bounded(ca, t, n)
    ensures Bounded(cb, u, n)
  {
    hide Pos;
    forall cr, l | cr in cb && l in cb[cr] ensures l.variable < n {
      SameLiterals(ca[cr], cb[cr]);
    }
    forall v | v in u.assigns ensures v < n {
      var i := Locate(u, Literal(v, true));
      if i < |t.lits| {
        assert IsTrue(t, t.lits[i]);
      } else {
        ReasonOlder(cb, u, i, ReasonOf(u, v).cref);
        assert cb[ReasonOf(u, v).cref][0] in cb[ReasonOf(u, v).cref];
      }
    }
  }

  lemma GrownSearch(ca: Clauses, t: Trail, cb: Clauses, u: Trail, assumptions: seq<Literal>, n: nat)
    requires Ok(t) && Ok(u) && Reasoned(cb, u) && SameClauses(ca, cb) && Grown(t, u)
    requires Assumed(t, assumptions) && Granted(t, assumptions) && Bounded(ca, t, n)
    ensures Assumed(u, assumptions) && Bounded(cb, u, n) && Free(u, n) <= Free(t, n) && u.lim == t.lim
    ensures Granted(u, assumptions)
  {
    GrownAssumed(t, u, assumptions);
    GrownGranted(t, u, assumptions);
    GrownBounded(ca, t, cb, u, n);
    FreeGrown(t, u, n);
  }

  lemma BranchFits(ca: Clauses, t: Trail, p: Literal)
    requires Ok(t) && t.lim != [] && p.variable !in t.assigns
    ensures SameFits(ca, t, ca, Enqueued(t, p, NoReason))
  {
    hide Fits, Ok;
    forall m: Model ensures Fits(m, ca, t) <==> Fits(m, ca, Enqueued(t, p, NoReason)) {
      FitsEnqueued(m, ca, t, p, NoReason);
    }
  }

  lemma BranchBounded(ca: Clauses, t: Trail, p: Literal, n: nat)
    requires Bounded(ca, t, n) && p.variable < n
    ensures Bounded(ca, Enqueued(t, p, NoReason), n)
  {
  }

  lemma Refuted(ca: Clauses, t: Trail, cb: Clauses, u: Trail)
    requires SameFits(ca, t, cb, u) && forall m: Model :: !Fits(m, cb, u)
    ensures forall m: Model :: !Fits(m, ca, t)
  {
    hide Fits;
  }

  lemma RefutedUnder(ca: Clauses, t: Trail, cb: Clauses, u: Trail, c: Clause)
    requires SameFits(ca, t, cb, u) && Implied(cb, u, c)
    ensures forall m: Model :: Fits(m, ca, t) ==> Satisfies(m, c)
  {
    hide Fits;
  }

  lemma ImpliedSame(ca: Clauses, t: Trail, u: Trail, c: Clause)
    requires SameFits(ca, t, ca, u) && Implied(ca, u, c)
    ensures Implied(ca, t, c)
  {
    hide Fits;
  }

  lemma FoundUnder(ca: Clauses, t: Trail, cb: Clauses, u: Trail, model: map<nat, bool>)
    requires SameFits(ca, t, cb, u) && forall m: Model :: Extends(m, model) ==> Fits(m, cb, u)
    ensures forall m: Model :: Extends(m, model) ==> Fits(m, ca, t)
  {
    hide Fits;
  }

  lemma Found(ca: Clauses, t: Trail, cb: Clauses, u: Trail)
    requires SameFits(ca, t, cb, u) && Ok(u) && AllSatisfied(cb, u)
    ensures forall m: Model :: Extends(m, u.assigns) ==> Fits(m, ca, t)
  {
    hide Fits, Ok, AllSatisfied;
    forall m: Model | Extends(m, u.assigns) ensures Fits(m, ca, t) {
      ModelFound(cb, u, m);
    }
  }

  lemma FalseIsUnit(t: Trail, c: Clause)
    ensures (forall l :: l in c ==> IsFalse(t, l)) ==> Unit(t, c)
  {
  }

  /** All variables assigned and nothing unit or false: everything is satisfied. */
  lemma EverythingSatisfied(ca: Clauses, t: Trail, u: Trail, n: nat)
    requires Bounded(ca, u, n) && (forall v :: 0 <= v < n ==> v in u.assigns) && t.assigns == u.assigns
    requires forall cr :: cr in ca ==> !Unit(t, ca[cr])
    ensures AllSatisfied(ca, u)
  {
    forall cr | cr in ca ensures exists l :: l in ca[cr] && IsTrue(u, l) {
      FalseIsUnit(t, ca[cr]);
      var l :| l in ca[cr] && !IsFalse(t, l);
      assert IsTrue(u, l);
    }
  }

  ghost function Unassigned(ca: Clauses, t: Trail): set<nat> { Variables(ca) - t.assigns.Keys }

  lemma BusyView(ca: Clauses, ws: WatchLists, t: Trail, q: nat, p: Literal)
    requires Busy(ca, ws, t, q, p, 0)
    ensures Busy(ca, View(ws, p, ListOf(ws, p), 0, 0), t, q, p, 0)
  {
    hide Ok;
    var view := View(ws, p, ListOf(ws, p), 0, 0);
    ViewBegins(ws, p);
    forall cr, l | cr in ca && Watches(ca[cr], l) ensures Lists(ListOf(view, l.Negated()), cr) {
      assert Lists(ListOf(ws, l.Negated()), cr);
    }
    forall l ensures Entries(ca, l, ListOf(view, l)) && Once(ListOf(view, l)) {
      assert Entries(ca, l, ListOf(ws, l));
    }
    assert Shaped(ca, view);
    hide Shaped, Pos;
    forall l, i | 0 <= i < |ListOf(view, l)| && Propagated(t, l, q) ensures Settles(ca, view, t, l, i) {
      assert Settles(ca, ws, t, l, i);
    }
  }

  /** Clauses keep their literals and the trail only grows; whenever it does, fewer variables are free. */
  ghost predicate Progress(ca: Clauses, t: Trail, cb: Clauses, u: Trail) {
    SameClauses(ca, cb) && Grown(t, u) && (t == u || Unassigned(cb, u) < Unassigned(ca, t))
  }

  lemma ProgressNone(ca: Clauses, t: Trail)
    ensures Progress(ca, t, ca, t)
  {
  }

  lemma ProgressTrans(ca: Clauses, t: Trail, cb: Clauses, u: Trail, cc: Clauses, v: Trail)
    requires Progress(ca, t, cb, u) && Progress(cb, u, cc, v)
    ensures Progress(ca, t, cc, v)
  {
    SameTrans(ca, cb, cc);
    SameUnassigned(cb, cc, u);
    SameUnassigned(ca, cb, t);
    GrownTrans(t, u, v);
  }

  lemma GrownTrans(t: Trail, u: Trail, v: Trail)
    requires Grown(t, u) && Grown(u, v)
    ensures Grown(t, v)
  {
    forall i | |t.lits| <= i < |v.lits| ensures v.lits[i].variable in v.assigns &&
      ReasonOf(v, v.lits[i].variable).Because? {
      assert i < |u.lits| ==> v.lits[i] == u.lits[i];
    }
  }

  lemma ProgressMeans(ca: Clauses, t: Trail, cb: Clauses, u: Trail)
    requires Progress(ca, t, cb, u)
    ensures SameClauses(ca, cb) && Grown(t, u)
  {
  }

  lemma ProgressMeasure(ca: Clauses, t: Trail, cb: Clauses, u: Trail)
    requires Progress(ca, t, cb, u)
    ensures Unassigned(cb, u) < Unassigned(ca, t) || (Unassigned(cb, u) == Unassigned(ca, t) && t == u)
  {
    SameUnassigned(ca, cb, u);
  }

  lemma ProgressSwapped(ca: Clauses, t: Trail, cb: Clauses, u: Trail, cr: nat, i: nat, j: nat)
    requires Progress(ca, t, cb, u) && cr in cb && i < |cb[cr]| && j < |cb[cr]|
    ensures Progress(ca, t, cb[cr := Swap(cb[cr], i, j)], u)
  {
    hide Swap, Grown, Variables;
    SameSwapped(ca, cb, cr, i, j);
    SameSwapped(cb, cb, cr, i, j);
    SameUnassigned(cb, cb[cr := Swap(cb[cr], i, j)], u);
  }

  lemma ProgressEnqueued(ca: Clauses, t: Trail, cb: Clauses, u: Trail, cr: nat)
    requires Progress(ca, t, cb, u) && Ok(u) && cr in cb && cb[cr] != [] && cb[cr][0].variable !in u.assigns
    ensures Progress(ca, t, cb, Enqueued(u, cb[cr][0], Because(cr)))
  {
    GrownEnqueued(t, u, cb[cr][0], cr);
    UnassignedShrinks(cb, u, cr, Because(cr));
    hide Grown, Variables, Enqueued;
    SameUnassigned(ca, cb, u);
  }

  lemma ConflictFalse(t: Trail, c: Clause)
    requires |c| >= 2 && IsFalse(t, c[0]) && IsFalse(t, c[1]) && forall k :: 2 <= k < |c| ==> IsFalse(t, c[k])
    requires Level(t, c[1].variable) == |t.lim|
    ensures IsConflict(t, c)
  {
  }

  lemma SameUnassigned(ca: Clauses, cb: Clauses, t: Trail)
    requires SameClauses(ca, cb)
    ensures Unassigned(ca, t) == Unassigned(cb, t)
  {
    forall v ensures v in Variables(ca) <==> v in Variables(cb) {
      if v in Variables(ca) {
        var cr, i :| cr in ca && 0 <= i < |ca[cr]| && ca[cr][i].variable == v;
        SameVariable(ca[cr], cb[cr], i);
      }
      if v in Variables(cb) {
        var cr, i :| cr in cb && 0 <= i < |cb[cr]| && cb[cr][i].variable == v;
        SameVariable(cb[cr], ca[cr], i);
      }
    }
  }

  lemma SameVariable(c: Clause, d: Clause, i: nat)
    requires multiset(c) == multiset(d) && i < |c|
    ensures exists j :: 0 <= j < |d| && d[j] == c[i]
  {
    assert c[i] in multiset(c);
    assert c[i] in d;
  }

  lemma UnassignedShrinks(ca: Clauses, t: Trail, cr: nat, from: Reason)
    requires cr in ca && ca[cr] != [] && ca[cr][0].variable !in t.assigns
    ensures Unassigned(ca, Enqueued(t, ca[cr][0], from)) < Unassigned(ca, t)
  {
    var v := ca[cr][0].variable;
    assert v in Variables(ca);
    assert v in Unassigned(ca, t) && v !in Unassigned(ca, Enqueued(t, ca[cr][0], from));
  }
}
