/** A search that takes the clauses. */
module Solving {
  // Between its rounds the solver adds what it received since the last one.

  import opened Logic
  import opened LexLeader
  import opened Lookup
  import opened Soundness
  import opened Runs
  import opened Alignment
  import opened Automorphism
  import opened CNFGraphs
  import opened KeptArrays
  import opened Injection
  import opened CosyStatuses
  import opened CosyManagers
  import opened SymmetryControl
  import opened Sessions
  import opened Solvers
  import opened Searching
  import Trails
  import Analysis
  import Permutations
  import Groups
  import Assignments
  import Orders
  import Propagation
  import Counting

  // ---------------------------------------------------------------- what the solver stands for

  ghost function ClauseSet(cs: seq<Clause>): set<Clause> { set c | c in cs }

  /** The clauses and level-0 assignments have the models of `f`. */
  ghost predicate Represents(ca: Trails.Clauses, t: Trails.Trail, f: set<Clause>) {
    forall m: Model :: Analysis.Fits(m, ca, t) <==> Models(m, f)
  }

  lemma AddedRepresents(ca: Trails.Clauses, t: Trails.Trail, f: set<Clause>, c: Clause, cb: Trails.Clauses,
                        u: Trails.Trail)
    requires Represents(ca, t, f)
    ensures Adds(ca, t, c, cb, u) ==> Represents(cb, u, f + {c})
    ensures NoModel(ca, t, c) ==> !Satisfiable(f + {c})
  {
    forall m: Model ensures Models(m, f + {c}) <==> Models(m, f) && Satisfies(m, c) {
      assert c in f + {c};
    }
  }

  lemma FewerSatisfiable(f: set<Clause>, h: set<Clause>)
    requires f <= h && Satisfiable(h)
    ensures Satisfiable(f)
  {
    var m :| Models(m, h);
    assert Models(m, f);
  }

  /** Ready to search, with the models of `f`. */
  ghost predicate Loaded(solver: Solver, n: nat, f: set<Clause>)
    reads solver
  {
    solver.ok && solver.Valid() && solver.trailLim == [] && solver.seen == {} && Bounded(solver.ca, solver.T(), n) &&
    Represents(solver.ca, solver.T(), f)
  }

  /** Adds clauses one after the other; no if they turn out contradictory. */
  method AddAll(solver: Solver, cs: seq<Clause>, ghost n: nat, ghost f: set<Clause>) returns (r: bool)
    requires Loaded(solver, n, f) && forall c :: c in cs ==> VariablesBelow(c, n)
    modifies solver
    ensures if r then Loaded(solver, n, f + ClauseSet(cs)) else !Satisfiable(f + ClauseSet(cs))
  {
    hide Propagation.Steady, Analysis.Decisive, Bounded, Represents, Adds, NoModel, Satisfiable, KeepsBound,
      VariablesBelow;
    var i := 0;
    assert f + ClauseSet(cs[..0]) == f;
    while i < |cs|
      invariant 0 <= i <= |cs| && Loaded(solver, n, f + ClauseSet(cs[..i]))
    {
      ghost var g := f + ClauseSet(cs[..i]);
      ghost var ca, t := solver.ca, solver.T();
      assert cs[i] in cs;
      r := solver.AddClause(cs[i]);
      AddedRepresents(ca, t, g, cs[i], solver.ca, solver.T());
      assert ClauseSet(cs[..i + 1]) == ClauseSet(cs[..i]) + {cs[i]};
      assert f + ClauseSet(cs[..i + 1]) == g + {cs[i]};
      if !r {
        NotSatisfiable(g + {cs[i]}, f + ClauseSet(cs));
        return;
      }
      BoundKept(ca, t, cs[i], solver.ca, solver.T(), n);
      i := i + 1;
    }
    assert cs[..i] == cs;
    r := true;
  }

  lemma NotSatisfiable(f: set<Clause>, h: set<Clause>)
    requires f <= h && !Satisfiable(f)
    ensures !Satisfiable(h)
  {
    if Satisfiable(h) {
      FewerSatisfiable(f, h);
    }
  }

  lemma BoundKept(ca: Trails.Clauses, t: Trails.Trail, c: Clause, cb: Trails.Clauses, u: Trails.Trail, n: nat)
    requires KeepsBound(ca, t, c, cb, u) && Bounded(ca, t, n) && VariablesBelow(c, n)
    ensures Bounded(cb, u, n)
  {
    hide Bounded, VariablesBelow;
  }

  lemma NothingLoaded(solver: Solver, n: nat)
    requires solver.Valid() && solver.ca == map[] && solver.trail == [] && solver.trailLim == [] && solver.ok
    requires solver.assigns == map[] && solver.seen == {}
    ensures Loaded(solver, n, {})
  {
  }

  /** One round of the search; it goes on to the conflict bound unless the budget runs out. */
  method SearchRound(solver: Solver, n: nat, budget: nat, ccminMode: int, withinBudget: nat -> bool,
                     ghost f: set<Clause>)
    returns (status: LBool, model: map<nat, bool>, conflicts: nat)
    requires Loaded(solver, n, f)
    modifies solver
    ensures status == LTrue ==> forall m: Model :: Extends(m, model) ==> Models(m, f)
    ensures status == LTrue ==> forall v :: 0 <= v < n ==> v in model
    ensures status == LFalse ==> !Satisfiable(f)
    ensures status == LUndef ==> Loaded(solver, n, f) && (conflicts >= budget || exists k :: !withinBudget(k))
    ensures Counting.Stock(old(solver.ca), old(solver.T())) + conflicts ==
            Counting.Stock(solver.ca, solver.T()) + if solver.ok then 0 else 1
  {
    hide Propagation.Steady, Analysis.Decisive, Bounded, Analysis.Fits, Counting.Stock;
    var conflict, asked;
    status, model, conflict, conflicts, asked := solver.Search(n, budget, ccminMode, [], withinBudget);
    if conflict != [] {
      assert conflict[0] in conflict;
    }
  }

  // ---------------------------------------------------------------- what is emitted stays in bounds

  ghost predicate OverOrder(gens: seq<Generator>, n: nat) {
    forall j :: 0 <= j < |gens| ==> ValidGenerator(gens[j]) && |gens[j].order| == n
  }

  lemma EsbpBelow(g: Generator, p: Partial, v: nat, k: nat, c: Clause)
    requires ValidGenerator(g) && Moves(g.inverse, v) && IsEsbp(g, p, v, k, c)
    ensures VariablesBelow(c, |g.order|)
  {
    forall l | l in c ensures l.variable < |g.order| {
      assert Forbids(g, p, v, k, l);
      if i :| InPair(g, i, k, l.variable) {
        assert g.inverse[g.lookup[i]].variable < |g.order|;
      } else {
        assert Literal(v, true) in g.inverse && g.inverse[Literal(v, true)] != Literal(v, true);
      }
    }
  }

  lemma StepBelow(gens: seq<Generator>, s: System, l: Literal, t: System, n: nat)
    requires OverOrder(gens, n) && Step(gens, s, l, t) && forall c :: c in s.emitted ==> VariablesBelow(c, n)
    ensures forall c :: c in t.emitted ==> VariablesBelow(c, n)
  {
    hide VariablesBelow, Visited, Quiet, ValidGenerator, IsEsbp;
    if Notify(gens, s, l, t) && !NotifyQuietly(gens, s, l, t) {
      var visited: set<nat>, r: nat, c: Clause :| NotifyEmits(gens, s, l, visited, r, c, t);
      assert r in visited && visited <= Watch(gens, l.variable);
      EsbpBelow(gens[r], t.values, l.variable, t.statuses[r].index, c);
    }
  }

  lemma UnitsBelow(gens: seq<Generator>, n: nat)
    requires OverOrder(gens, n)
    ensures forall c :: c in Units(gens) ==> VariablesBelow(c, n)
  {
    forall c | c in Units(gens) ensures VariablesBelow(c, n) {
      var i :| 0 <= i < |gens| && IsInverting(gens[i], 0) && InvertingUnit(gens[i], 0) == c;
      assert gens[i].lookup[0] in gens[i].inverse;
    }
  }

  lemma {:induction false} RunBelow(gens: seq<Generator>, base: Partial, run: seq<System>, events: seq<Literal>,
                                    n: nat, i: nat)
    requires OverOrder(gens, n) && ValidRun(gens, run, events) && Init(gens, base, run[0]) && i < |run|
    ensures forall c :: c in run[i].emitted ==> VariablesBelow(c, n)
  {
    hide OverOrder, VariablesBelow, Step;
    if i == 0 {
      UnitsBelow(gens, n);
    } else {
      RunBelow(gens, base, run, events, n, i - 1);
      assert Step(gens, run[i - 1], events[i - 1], run[i]);
      StepBelow(gens, run[i - 1], events[i - 1], run[i], n);
    }
  }

  // ---------------------------------------------------------------- the whole

  /** A controller just enabled for the formula. */
  ghost predicate Enabled(controller: SymmetryController, start: System, clauses: seq<Clause>, n: nat)
    reads controller, controller.manager, controller.group, controller.assignment, controller.injector,
          controller.manager.group, controller.manager.assignment, controller.manager.order,
          controller.manager.group.permutations, controller.manager.statuses
  {
    controller.Valid() && controller.Shows(start) && controller.manager.order.numVars == n &&
    SymmetriesOf(controller.manager.Gens(), clauses) && Init(controller.manager.Gens(), map[], start) &&
    forall c :: c in controller.injector.Waiting(UNITS, NO_VARIABLE) <==> c in Units(controller.manager.Gens())
  }

  lemma GensOverOrder(controller: SymmetryController)
    requires controller.Valid()
    ensures OverOrder(controller.manager.Gens(), controller.manager.order.numVars)
  {
    hide Permutations.Tables, Groups.Consistent, ValidGenerator, Orders.Indexed, Orders.Complete,
      Groups.Group.Valid, Assignments.Assignment.Valid;
    controller.GensAreValid();
    Orders.CompleteIsValid(controller.manager.order.order, controller.manager.order.indexes,
                           controller.manager.order.numVars);
    forall j | 0 <= j < |controller.manager.Gens()|
      ensures |controller.manager.Gens()[j].order| == controller.manager.order.numVars
    {
      assert controller.manager.Gens()[j] == controller.manager.statuses[j].Gen();
    }
  }

  /** The clauses received are within bounds. */
  lemma ReceivedBelow(gens: seq<Generator>, n: nat, calls: seq<Call>, states: seq<System>)
    requires Driven(gens, n, calls, states) && Init(gens, map[], states[0]) && OverOrder(gens, n)
    ensures forall c :: c in Received(n, calls, states) ==> VariablesBelow(c, n)
  {
    hide Init, OverOrder, VariablesBelow, Received, WaitingEmitted, Inv, ValidRun, Driven;
    DrivenLength(gens, n, calls, states);
    StartWaits(gens, map[], states[0]);
    DrivenIsRun(gens, n, calls, states);
    var (run, events) := Steps(n, calls, states);
    RunBelow(gens, map[], run, events, n, |run| - 1);
  }

  lemma DrivenLength(gens: seq<Generator>, n: nat, calls: seq<Call>, states: seq<System>)
    requires Driven(gens, n, calls, states)
    ensures |states| == |calls| + 1
  {
  }

  /** One round of search and one of calls. */
  method Round(solver: Solver, controller: SymmetryController, calls: seq<Call>, before: seq<Literal>, n: nat,
               budget: nat, ccminMode: int, withinBudget: nat -> bool, ghost f: set<Clause>, ghost past: seq<Call>,
               ghost earlier: seq<System>)
    returns (status: LBool, model: map<nat, bool>, conflicts: nat, ok: bool, now: seq<Literal>, received: seq<Clause>,
             ghost states: seq<System>)
    requires Loaded(solver, n, f) && controller.Valid() && controller.manager.order.numVars == n
    requires |earlier| == |past| + 1 && Driven(controller.manager.Gens(), n, past, earlier)
    requires Init(controller.manager.Gens(), map[], earlier[0]) && controller.Shows(earlier[|past|])
    requires Inv(controller.manager.Gens(), map[], earlier[|past|]) && earlier[|past|].trail == before
    modifies solver, controller.assignment, controller.injector, controller.manager.statuses
    ensures controller.Valid() && controller.manager.Gens() == old(controller.manager.Gens())
    ensures status == LTrue ==> forall m: Model :: Extends(m, model) ==> Models(m, f)
    ensures status == LTrue ==> forall v :: 0 <= v < n ==> v in model
    ensures status == LFalse ==> !Satisfiable(f)
    ensures status != LUndef ==> received == []
    ensures status == LUndef ==>
              |states| == |past + calls| + 1 && Driven(controller.manager.Gens(), n, past + calls, states) &&
              earlier <= states && controller.Shows(states[|past| + |calls|]) &&
              Inv(controller.manager.Gens(), map[], states[|past| + |calls|]) &&
              states[|past| + |calls|].trail == now &&
              Received(n, past + calls, states) == Received(n, past, earlier) + received
    ensures status == LUndef ==>
              if ok then Loaded(solver, n, f + ClauseSet(received)) else !Satisfiable(f + ClauseSet(received))
    ensures status == LUndef ==> conflicts >= budget || exists k :: !withinBudget(k)
  {
    hide Permutations.Tables, Groups.Consistent, ValidGenerator, Orders.Indexed, Orders.Complete,
      Groups.Group.Valid, Assignments.Assignment.Valid, Orders.Order.Finished, CosyManager.Wired, CosyManager.Gens,
      CosyManager.Views, CosyStatus.Ready, Init, Inv, Driven, Received, Satisfiable, Models,
      OverOrder, SymmetryController.Shows, Loaded, Propagation.Steady, VariablesBelow;
    ghost var gens := controller.manager.Gens();
    GensOverOrder(controller);
    ok, now, received, states := true, before, [], earlier;
    status, model, conflicts := SearchRound(solver, n, budget, ccminMode, withinBudget, f);
    if status == LUndef {
      now, received, states := Drive(controller, calls, before, map[], past, earlier);
      ReceivedBelow(gens, n, past + calls, states);
      ok := AddAll(solver, received, n, f);
    }
  }

  function Concat(rounds: seq<seq<Call>>): seq<Call> {
    if rounds == [] then [] else Concat(rounds[..|rounds| - 1]) + rounds[|rounds| - 1]
  }

  lemma ConcatNext(rounds: seq<seq<Call>>, i: nat)
    requires i < |rounds|
    ensures Concat(rounds[..i + 1]) == Concat(rounds[..i]) + rounds[i]
  {
    assert rounds[..i + 1][..i] == rounds[..i];
  }

  lemma MoreClauses(f: set<Clause>, received: seq<Clause>, more: seq<Clause>)
    ensures f + ClauseSet(received) + ClauseSet(more) == f + ClauseSet(received + more)
  {
  }

  lemma SoObtained(gens: seq<Generator>, n: nat, calls: seq<Call>, units: seq<Clause>, states: seq<System>,
                   received: seq<Clause>)
    requires (forall c :: c in units <==> c in Units(gens)) && |states| == |calls| + 1
    requires Driven(gens, n, calls, states) && Init(gens, map[], states[0])
    requires received == units + Received(n, calls, states)
    ensures Obtains(gens, n, calls, received)
  {
    hide Init, Driven, Received, Units;
  }

  lemma ObtainedMeans(gens: seq<Generator>, n: nat, calls: seq<Call>, received: seq<Clause>, clauses: seq<Clause>)
    requires Obtains(gens, n, calls, received) && SymmetriesOf(gens, clauses)
    ensures AllTrustworthy(gens) ==>
              (Satisfiable(ClauseSet(clauses) + ClauseSet(received)) <==> Satisfiable(ClauseSet(clauses)))
  {
    hide Obtains, SymmetriesOf, AllTrustworthy, Satisfiable;
    if AllTrustworthy(gens) {
      ObtainedKeeps(gens, n, calls, received, clauses);
    }
  }

  /** A round without an answer met as many conflicts as it was given, unless the budget ran out. */
  ghost predicate AllMeet(met: seq<nat>, budget: nat, withinBudget: nat -> bool) {
    forall i :: 0 <= i < |met| ==> met[i] >= budget || exists k :: !withinBudget(k)
  }

  /** From the formula to an answer: the solver is loaded with the clauses and the units, then rounds of
      search alternate with calls to the symmetry layer, and the clauses these yield are added.  Whatever
      the generators are, the answer is right for the formula with the clauses received up to then, and
      there is one unless all rounds are over; a refutation is one of the formula if they are
      trustworthy. */
  method Solve(solver: Solver, clauses: seq<Clause>, n: nat, controller: SymmetryController, ghost start: System,
               rounds: seq<seq<Call>>, budget: nat, ccminMode: int, withinBudget: nat -> bool)
    returns (status: LBool, model: map<nat, bool>, received: seq<Clause>, met: seq<nat>, done: nat)
    requires Loaded(solver, n, {}) && OverVariables(clauses, n) && Enabled(controller, start, clauses, n)
    modifies solver, controller.assignment, controller.injector, controller.manager.statuses
    ensures controller.Valid() && controller.manager.Gens() == old(controller.manager.Gens())
    ensures done <= |rounds| && Obtains(controller.manager.Gens(), n, Concat(rounds[..done]), received)
    ensures status == LTrue ==>
              forall m: Model :: Extends(m, model) ==> Models(m, ClauseSet(clauses) + ClauseSet(received))
    ensures status == LTrue ==> forall v :: 0 <= v < n ==> v in model
    ensures status == LFalse ==> !Satisfiable(ClauseSet(clauses) + ClauseSet(received))
    ensures status == LUndef ==>
              done == |rounds| && Loaded(solver, n, ClauseSet(clauses) + ClauseSet(received))
    ensures done <= |met| <= done + 1 && AllMeet(met[..done], budget, withinBudget)
    ensures status == LFalse && AllTrustworthy(controller.manager.Gens()) ==> !Satisfiable(ClauseSet(clauses))
  {
    hide Permutations.Tables, Groups.Consistent, ValidGenerator, Orders.Indexed, Orders.Complete,
      Groups.Group.Valid, Assignments.Assignment.Valid, Orders.Order.Finished, CosyManager.Wired, CosyManager.Gens,
      CosyManager.Views, CosyStatus.Ready, Units, Init, Inv, Driven, Received, Obtains, SymmetriesOf, AllTrustworthy,
      Satisfiable, OverOrder, SymmetryController.Shows, Loaded, Propagation.Steady, Models, Extends, ClauseSet, Concat;
    ghost var gens := controller.manager.Gens();
    GensOverOrder(controller);
    StartWaits(gens, map[], start);
    DrivenNot(gens, n, start);
    var units := TakeUnits(controller, start);
    AllBelow(gens, clauses, units, n);
    var ok := AddAll(solver, clauses + units, n, {});
    ghost var past, states := [], [start];
    LoadedFirst(clauses, units);
    ghost var f := ClauseSet(clauses);
    status, model, received, met, done := LUndef, map[], units, [], 0;
    assert units + [] == units;
    NoRounds(rounds);
    SoObtained(gens, n, past, units, states, received);
    ObtainedMeans(gens, n, past, received, clauses);
    var trail: seq<Literal> := [];
    while ok && done < |rounds|
      invariant 0 <= done <= |rounds| && controller.Valid() && controller.manager.Gens() == gens && status == LUndef
      invariant |states| == |past| + 1 && Driven(gens, n, past, states) && states[0] == start
      invariant controller.Shows(states[|past|]) && Inv(gens, map[], states[|past|]) && states[|past|].trail == trail
      invariant past == Concat(rounds[..done]) && received == units + Received(n, past, states)
      invariant Obtains(gens, n, past, received)
      invariant AllTrustworthy(gens) ==> (Satisfiable(f + ClauseSet(received)) <==> Satisfiable(f))
      invariant if ok then Loaded(solver, n, f + ClauseSet(received)) else !Satisfiable(f + ClauseSet(received))
      invariant |met| == done && AllMeet(met, budget, withinBudget)
    {
      var more, conflicts;
      ghost var next;
      status, model, conflicts, ok, trail, more, next :=
        Round(solver, controller, rounds[done], trail, n, budget, ccminMode, withinBudget, f + ClauseSet(received),
              past, states);
      ghost var before := met;
      met := met + [conflicts];
      assert met[..done] == before;
      if status != LUndef {
        return;
      }
      MoreClauses(f, received, more);
      ConcatNext(rounds, done);
      past, states, received, done := past + rounds[done], next, received + more, done + 1;
      SoObtained(gens, n, past, units, states, received);
      ObtainedMeans(gens, n, past, received, clauses);
    }
    if !ok {
      status := LFalse;
    }
    assert met[..done] == met;
  }

  lemma NoRounds(rounds: seq<seq<Call>>)
    ensures Concat(rounds[..0]) == []
  {
  }

  lemma LoadedFirst(clauses: seq<Clause>, units: seq<Clause>)
    ensures {} + ClauseSet(clauses + units) == ClauseSet(clauses) + ClauseSet(units)
  {
  }

  lemma AllBelow(gens: seq<Generator>, clauses: seq<Clause>, units: seq<Clause>, n: nat)
    requires OverOrder(gens, n) && OverVariables(clauses, n) && forall c :: c in units ==> c in Units(gens)
    ensures forall c :: c in clauses + units ==> VariablesBelow(c, n)
  {
    hide OverOrder, Units;
    UnitsBelow(gens, n);
  }

  /** The same when no array was kept: nothing but rounds of search. */
  method SolvePlainly(solver: Solver, clauses: seq<Clause>, n: nat, rounds: nat, budget: nat, ccminMode: int,
                      withinBudget: nat -> bool)
    returns (status: LBool, model: map<nat, bool>, met: seq<nat>, done: nat)
    requires Loaded(solver, n, {}) && OverVariables(clauses, n)
    modifies solver
    ensures status == LTrue ==> forall m: Model :: Extends(m, model) ==> Models(m, ClauseSet(clauses))
    ensures status == LTrue ==> forall v :: 0 <= v < n ==> v in model
    ensures status == LFalse ==> !Satisfiable(ClauseSet(clauses))
    ensures status == LUndef ==> done == rounds && Loaded(solver, n, ClauseSet(clauses))
    ensures done <= |met| <= done + 1 && done <= rounds && AllMeet(met[..done], budget, withinBudget)
  {
    hide Loaded, Satisfiable;
    status, model, met, done := LUndef, map[], [], 0;
    var ok := AddAll(solver, clauses, n, {});
    assert {} + ClauseSet(clauses) == ClauseSet(clauses);
    if !ok {
      status := LFalse;
      return;
    }
    while done < rounds
      invariant 0 <= done <= rounds && Loaded(solver, n, ClauseSet(clauses)) && status == LUndef
      invariant |met| == done && AllMeet(met, budget, withinBudget)
    {
      var conflicts;
      status, model, conflicts := SearchRound(solver, n, budget, ccminMode, withinBudget, ClauseSet(clauses));
      ghost var before := met;
      met := met + [conflicts];
      assert met[..done] == before;
      if status != LUndef {
        return;
      }
      done := done + 1;
    }
    assert met[..done] == met;
  }

  /** The two put together: if the kept arrays are their own inverses, every answer is right. */
  method SolveFormula(clauses: seq<Clause>, n: nat, graph: CNFGraph, auts: seq<seq<nat>>, ghost invs: seq<seq<nat>>,
                      vars: OrderMode, mode: ValueMode, occurrences: seq<int>, rounds: seq<seq<Call>>, budget: nat,
                      ccminMode: int, withinBudget: nat -> bool)
    returns (status: LBool, model: map<nat, bool>, controller: SymmetryController?, received: seq<Clause>,
             met: seq<nat>, done: nat)
    requires Encodes(graph.adjacency, graph.colors, clauses, n) && OverVariables(clauses, n)
    requires Automorphisms(graph.adjacency, graph.colors, auts, invs) && n <= |occurrences|
    ensures controller != null ==>
              controller.Valid() && BuiltFor(controller.manager.Gens(), Usables(auts, n), n, vars, mode, occurrences)
    ensures controller == null <==> Usables(auts, n) == []
    ensures done <= |rounds| && done <= |met| <= done + 1 && AllMeet(met[..done], budget, withinBudget)
    ensures if controller == null then received == []
            else Obtains(controller.manager.Gens(), n, Concat(rounds[..done]), received)
    ensures status == LTrue ==>
              forall m: Model :: Extends(m, model) ==> Models(m, ClauseSet(clauses) + ClauseSet(received))
    ensures status == LTrue ==> forall v :: 0 <= v < n ==> v in model
    ensures status == LFalse ==> !Satisfiable(ClauseSet(clauses) + ClauseSet(received))
    ensures status == LUndef ==> done == |rounds|
    ensures status == LFalse && (controller == null || AllTrustworthy(controller.manager.Gens())) ==>
              !Satisfiable(ClauseSet(clauses))
    ensures status == LFalse && (forall aut :: aut in auts && Usable(aut, n) ==> Involutive(aut)) ==>
              !Satisfiable(ClauseSet(clauses))
  {
    hide Permutations.Tables, Groups.Consistent, ValidGenerator, Orders.Indexed, Orders.Complete,
      Groups.Group.Valid, Assignments.Assignment.Valid, Orders.Order.Finished, CosyManager.Wired, CosyManager.Gens,
      Units, Init, SymmetriesOf, AllTrustworthy, Satisfiable, Encodes, Automorphisms, BuiltFor, Usable, Usables,
      Involutive, SymmetryController.Shows, Loaded, Propagation.Steady, Models, Obtains;
    ghost var start;
    controller, start := Enable(clauses, n, graph, auts, invs, vars, mode, occurrences);
    var solver := new Solver();
    NothingLoaded(solver, n);
    if controller == null {
      received := [];
      assert ClauseSet(clauses) + ClauseSet([]) == ClauseSet(clauses);
      status, model, met, done := SolvePlainly(solver, clauses, n, |rounds|, budget, ccminMode, withinBudget);
    } else {
      status, model, received, met, done :=
        Solve(solver, clauses, n, controller, start, rounds, budget, ccminMode, withinBudget);
      if forall aut :: aut in auts && Usable(aut, n) ==> Involutive(aut) {
        BuiltTrustworthy(controller.manager.Gens(), Usables(auts, n), n, vars, mode, occurrences);
      }
    }
  }
}
