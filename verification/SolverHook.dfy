/** Where the symmetry layer meets a solver. */
module SolverHook {
  import opened Logic
  import opened Lookup
  import opened Runs
  import Trails
  import Watching
  import Propagation
  import Analysis
  import Minimisation

  /** The solver has assigned whatever it has notified, and perhaps more. */
  ghost predicate Covers(t: Trails.Trail, values: Partial) {
    forall v :: v in values ==> v in t.assigns && t.assigns[v] == values[v]
  }

  /** Once notified literals are assigned, with the last one at the current level, an emitted clause
      is false, holds a literal of the current level and can be attached and analysed. */
  lemma EmittedStartsAnalysis(gens: seq<Generator>, base: Partial, s: System, l: Literal, visited: set<nat>, r: nat,
                              c: Clause, u: System, t: Trails.Trail)
    requires forall i :: 0 <= i < |gens| ==> ValidGenerator(gens[i])
    requires Inv(gens, base, s) && NotifyEmits(gens, s, l, visited, r, c, u)
    requires Covers(t, u.values) && Trails.Level(t, l.variable) == |t.lim|
    ensures Analysis.IsConflict(t, c)
    ensures |c| >= 2 ==> Watching.Proper(c) && c[1] == l.Negated()
  {
    EmittedIsConflict(gens, base, s, l, visited, r, c, u);
    hide ValidGenerator, Inv, Visited, Quiet;
    forall k | k in c ensures Trails.IsFalse(t, k) {
      assert FalseIn(u.values, k);
    }
    var slot := if |c| == 1 then 0 else 1;
    assert c[slot].variable == l.variable && c[slot] in c;
    forall i, j | 0 <= i < j < |c| ensures c[i].variable != c[j].variable {
      assert c[i] in c && c[j] in c;
      assert FalseIn(u.values, c[i]) && FalseIn(u.values, c[j]);
    }
  }

  /** Attaching a false clause and backtracking, which is how an emitted clause is treated, keeps
      the two-watch invariant exactly if both watched literals are unassigned again.  The other
      clauses keep it in any case. */
  lemma InjectedStable(ca: Trails.Clauses, ws: Watching.WatchLists, t: Trails.Trail, q: nat, cr: nat, c: Clause,
                       level: nat)
    requires Trails.Ok(t) && level < |t.lim| && t.lim[level] <= q
    requires Watching.Shaped(ca, ws) && Watching.Stable(ca, ws, t, q) && cr !in ca
    requires Watching.Proper(c) && Analysis.IsConflict(t, c)
    ensures t.lim[level] <= |t.lits| && Watching.Shaped(ca[cr := c], Watching.Attached(ws, cr, c))
    ensures Watching.Stable(ca[cr := c], Watching.Attached(ws, cr, c), Trails.Backtracked(t, level), t.lim[level]) <==>
              Trails.Level(t, c[0].variable) > level && Trails.Level(t, c[1].variable) > level
    ensures Watching.Stable(ca, ws, Trails.Backtracked(t, level), t.lim[level])
  {
    Watching.BacktrackedStable(ca, ws, t, level, q);
    var u := Trails.Backtracked(t, level);
    Watching.AttachedStableExactly(ca, ws, u, t.lim[level], cr, c);
    ExcusedExactly(t, c, level, 0);
    ExcusedExactly(t, c, level, 1);
  }

  lemma ExcusedExactly(t: Trails.Trail, c: Clause, level: nat, slot: nat)
    requires Trails.Ok(t) && level < |t.lim| && t.lim[level] <= |t.lits|
    requires 2 <= |c| && slot < 2 && Analysis.IsConflict(t, c)
    ensures Watching.Excused(Trails.Backtracked(t, level), c[slot], c[1 - slot], t.lim[level]) <==>
              Trails.Level(t, c[slot].variable) > level
  {
    hide Trails.Pos, Trails.Ok;
    var u := Trails.Backtracked(t, level);
    assert c[slot] in c && c[1 - slot] in c;
    Trails.BacktrackedKeeps(t, level, c[slot].Negated());
    Trails.BacktrackedKeeps(t, level, c[1 - slot]);
    Trails.BacktrackedOk(t, level);
    if Trails.IsTrue(u, c[slot].Negated()) {
      var i := Trails.Locate(u, c[slot].Negated());
    }
  }

  /** An emitted clause has the reason, of the current level, in slot 1; whether it can be watched
      after backtracking depends on the level of the literal that the exchange left in slot 0. */
  lemma EmittedWatched(gens: seq<Generator>, base: Partial, s: System, l: Literal, visited: set<nat>, r: nat,
                       c: Clause, u: System,
                       t: Trails.Trail, ca: Trails.Clauses, ws: Watching.WatchLists, q: nat, cr: nat, level: nat)
    requires forall i :: 0 <= i < |gens| ==> ValidGenerator(gens[i])
    requires Inv(gens, base, s) && NotifyEmits(gens, s, l, visited, r, c, u) && |c| >= 2
    requires Covers(t, u.values) && Trails.Level(t, l.variable) == |t.lim|
    requires Trails.Ok(t) && level < |t.lim| && t.lim[level] <= q
    requires Watching.Shaped(ca, ws) && Watching.Stable(ca, ws, t, q) && cr !in ca
    ensures t.lim[level] <= |t.lits| && Watching.Proper(c) && Watching.Shaped(ca[cr := c], Watching.Attached(ws, cr, c))
    ensures Watching.Stable(ca[cr := c], Watching.Attached(ws, cr, c), Trails.Backtracked(t, level), t.lim[level]) <==>
              Trails.Level(t, c[0].variable) > level
    ensures c[1].variable !in Trails.Backtracked(t, level).assigns
  {
    EmittedStartsAnalysis(gens, base, s, l, visited, r, c, u, t);
    hide ValidGenerator, Inv, NotifyEmits;
    InjectedStable(ca, ws, t, q, cr, c, level);
    hide Trails.Pos, Trails.Ok;
    Trails.BacktrackedKeeps(t, level, c[1]);
    Trails.BacktrackedKeeps(t, level, c[1].Negated());
  }

  // ---------------------------------------------------------------- after the analysis

  /** A clause learnt from an emitted one with a single literal of the current level asserts slot 1,
      and unless it drops the literal in slot 0 it does not go back beyond its level. */
  lemma LearntFromEmitted(t: Trails.Trail, c: Clause, learnt: Clause, level: nat, ccminMode: int)
    requires Watching.Proper(c) && Analysis.SoleCurrent(t, c) && Trails.Level(t, c[1].variable) == |t.lim|
    requires Minimisation.Asserting(t, learnt, level) && Minimisation.LearntFrom(t, c, learnt, ccminMode)
    ensures learnt[0] == c[1]
    ensures forall k :: k in c && k != c[1] && Minimisation.Undroppable(t, k, ccminMode) ==>
              Trails.Level(t, k.variable) <= level
  {
    assert learnt[0] in learnt && learnt[0] in c && c[1] in c;
    var i :| 0 <= i < |c| && c[i] == learnt[0];
    forall k | k in c && k != c[1] && Minimisation.Undroppable(t, k, ccminMode) && Trails.Level(t, k.variable) > 0
      ensures Trails.Level(t, k.variable) <= level
    {
      var j :| 0 <= j < |learnt| && learnt[j] == k;
      assert j != 0;
    }
  }

  /** With the asserted literal on the trail the invariant holds again exactly if the literal in slot 0
      is not below the level returned to. */
  lemma EmittedAsserted(ca: Trails.Clauses, ws: Watching.WatchLists, t: Trails.Trail, q: nat, cr: nat, c: Clause,
                        level: nat, from: Trails.Reason)
    requires Trails.Ok(t) && level < |t.lim| && t.lim[level] <= q
    requires Watching.Shaped(ca, ws) && Watching.Stable(ca, ws, t, q) && cr !in ca
    requires Watching.Proper(c) && Analysis.IsConflict(t, c) && Trails.Level(t, c[1].variable) == |t.lim|
    ensures t.lim[level] <= |t.lits| && Watching.Shaped(ca[cr := c], Watching.Attached(ws, cr, c))
    ensures Watching.Stable(ca[cr := c], Watching.Attached(ws, cr, c),
                            Trails.Enqueued(Trails.Backtracked(t, level), c[1], from), t.lim[level]) <==>
              Trails.Level(t, c[0].variable) >= level
  {
    hide Trails.Pos, Trails.Ok;
    Watching.BacktrackedStable(ca, ws, t, level, q);
    Trails.BacktrackedOk(t, level);
    assert c[0] in c && c[1] in c && c[0].variable != c[1].variable;
    Trails.BacktrackedKeeps(t, level, c[1]);
    Trails.BacktrackedKeeps(t, level, c[1].Negated());
    Trails.BacktrackedKeeps(t, level, c[0].Negated());
    var u := Trails.Backtracked(t, level);
    var w := Trails.Enqueued(u, c[1], from);
    Watching.EnqueuedStable(ca, ws, u, t.lim[level], c[1], from);
    Watching.AttachedStableExactly(ca, ws, w, t.lim[level], cr, c);
    Watching.StillPropagated(u, c[1], from, c[0].Negated(), t.lim[level]);
    ExcusedExactly(t, c, level, 0);
  }

  /** Condition on the emitted clause alone, before the conflict is analysed: with a single literal of the
      current level and a literal in slot 0 that the mode cannot drop, the invariant is lost on
      backtracking, and asserting the learnt literal restores it only for the very level of slot 0. */
  lemma EmittedLost(gens: seq<Generator>, base: Partial, s: System, l: Literal, visited: set<nat>, r: nat,
                    c: Clause, u: System, t: Trails.Trail, ca: Trails.Clauses, ws: Watching.WatchLists, q: nat, cr: nat,
                    learnt: Clause, level: nat, ccminMode: int, from: Trails.Reason)
    requires forall i :: 0 <= i < |gens| ==> ValidGenerator(gens[i])
    requires Inv(gens, base, s) && NotifyEmits(gens, s, l, visited, r, c, u) && |c| >= 2
    requires Covers(t, u.values) && Trails.Level(t, l.variable) == |t.lim|
    requires Propagation.Steady(ca, ws, t, q) && cr !in ca
    requires Analysis.SoleCurrent(t, c) && Minimisation.Undroppable(t, c[0], ccminMode)
    requires Minimisation.Asserting(t, learnt, level) && Minimisation.LearntFrom(t, c, learnt, ccminMode)
    ensures learnt[0] == c[1] && t.lim[level] <= |t.lits|
    ensures Watching.Shaped(ca[cr := c], Watching.Attached(ws, cr, c))
    ensures !Watching.Stable(ca[cr := c], Watching.Attached(ws, cr, c), Trails.Backtracked(t, level), t.lim[level])
    ensures Watching.Stable(ca[cr := c], Watching.Attached(ws, cr, c),
                            Trails.Enqueued(Trails.Backtracked(t, level), learnt[0], from), t.lim[level]) <==>
              Trails.Level(t, c[0].variable) == level
  {
    StartsAtLimit(ca, ws, t, q, level);
    EmittedStartsAnalysis(gens, base, s, l, visited, r, c, u, t);
    hide ValidGenerator, Inv, NotifyEmits, Propagation.Steady;
    assert c[0] in c && c[0].variable != c[1].variable;
    LearntFromEmitted(t, c, learnt, level, ccminMode);
    InjectedStable(ca, ws, t, q, cr, c, level);
    EmittedAsserted(ca, ws, t, q, cr, c, level, from);
  }

  lemma StartsAtLimit(ca: Trails.Clauses, ws: Watching.WatchLists, t: Trails.Trail, q: nat, level: nat)
    requires Propagation.Steady(ca, ws, t, q) && level < |t.lim|
    ensures Trails.Ok(t) && Watching.Shaped(ca, ws) && Watching.Stable(ca, ws, t, q) && t.lim[level] <= q
  {
    assert t.lim[level] <= t.lim[|t.lim| - 1];
  }
}
