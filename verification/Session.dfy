/** One formula from its graph to the clauses the solver receives. */
module Sessions {
  import opened Logic
  import opened LexLeader
  import opened Lookup
  import opened Soundness
  import opened Runs
  import opened Alignment
  import opened Permutations
  import opened Automorphism
  import opened CNFGraphs
  import opened FormulaSymmetry
  import opened KeptArrays
  import opened Groups
  import opened Assignments
  import opened Orders
  import opened Injection
  import opened CosyStatuses
  import opened CosyManagers
  import opened SymmetryControl
  import opened Rarity
  import P = OrbitPartition

  // ---------------------------------------------------------------- the generators

  /** What the automorphism tool reports: permutations of the nodes that keep edges and colours. */
  ghost predicate Automorphisms(adjacency: seq<seq<nat>>, colors: seq<nat>, auts: seq<seq<nat>>, invs: seq<seq<nat>>) {
    |auts| == |invs| && forall k :: 0 <= k < |auts| ==>
      PreservesGraph(adjacency, colors, auts[k]) && Automorphism.Inverts(auts[k], invs[k])
  }

  /** Every array the tool reports is read as a permutation and offered to the group, which keeps
      those of the usable arrays. */
  method FindSymmetries(clauses: seq<Clause>, n: nat, graph: CNFGraph, auts: seq<seq<nat>>, ghost invs: seq<seq<nat>>)
    returns (group: Group)
    requires Encodes(graph.adjacency, graph.colors, clauses, n)
    requires Automorphisms(graph.adjacency, graph.colors, auts, invs)
    ensures fresh(group) && group.Valid() && (group.permutations != [] ==> |group.watchers| == n)
    ensures AllReadOff(group.permutations, Usables(auts, n), n)
    ensures forall i :: 0 <= i < |group.permutations| ==> fresh(group.permutations[i])
    ensures group.inverting == Inverted(Usables(auts, n), n)
  {
    hide Encodes, PreservesGraph, Automorphism.Inverts, KeepsLiterals, Tabulates, Tables, Consistent, MutuallyInverse,
      Group.Valid, AllReadOff, Inverted, Usable, Usables;
    group := new Group();
    NothingKept(n);
    var k := 0;
    while k < |auts|
      invariant 0 <= k <= |auts| && group.Valid()
      invariant |group.watchers| == if group.permutations == [] then 0 else n
      invariant AllReadOff(group.permutations, Usables(auts[..k], n), n)
      invariant forall i :: 0 <= i < |group.permutations| ==> fresh(group.permutations[i])
      invariant group.inverting == Inverted(Usables(auts[..k], n), n)
    {
      ColorsKeepLiterals(graph.adjacency, graph.colors, clauses, n, auts[k]);
      var p := OnAutomorphism(auts[k], n, invs[k]);
      IsTabulated(p, auts[k], n);
      PassesFilter(p, auts[k], n);
      ghost var before, inverting := group.permutations, group.inverting;
      group.AddPermutation(p);
      UsablesNext(auts, n, k);
      if Usable(auts[k], n) {
        KeptNext(before, Usables(auts[..k], n), n, p, auts[k], inverting, group.inverting);
      } else {
        assert Usables(auts[..k + 1], n) == Usables(auts[..k], n);
      }
      k := k + 1;
    }
    assert auts[..k] == auts;
  }

  lemma NothingKept(n: nat)
    ensures AllReadOff([], Usables([], n), n) && Inverted(Usables([], n), n) == {}
    ensures forall auts: seq<seq<nat>> :: auts[..0] == []
  {
  }

  lemma PassesFilter(p: Permutation, aut: seq<nat>, n: nat)
    requires p.Closed() && ReadOff(p, aut, n)
    ensures p.cyclesLim != [] && Consistent(p.cycles, p.image) <==> Usable(aut, n)
  {
    hide KeepsLiterals, Tabulates, Tables, Consistent, MutuallyInverse, KeepsSigns, MovesSome;
    TablesFit(p.cycles, p.cyclesLim, p.image, p.inverse);
    LimitsFit(p.cycles, p.cyclesLim, p.image, p.inverse);
    FilterExactly(p.cycles, p.image, p.inverse, aut, n);
    if KeepsSigns(aut, n) {
      SomethingMoved(p.cycles, p.cyclesLim, p.image, p.inverse, aut, n);
    }
  }

  lemma KeptNext(ps: seq<Permutation>, kept: seq<seq<nat>>, n: nat, p: Permutation, aut: seq<nat>, before: set<nat>,
                 after: set<nat>)
    requires AllReadOff(ps, kept, n) && p.Closed() && ReadOff(p, aut, n) && Usable(aut, n)
    requires before == Inverted(kept, n)
    requires forall v :: v in after <==> v in before || InvertsVariable(p.cycles, p.image, v)
    ensures AllReadOff(ps + [p], kept + [aut], n) && after == Inverted(kept + [aut], n)
  {
    hide Tabulates, KeepsLiterals, InvertsVariable, Tables, KeepsSigns, MovesSome;
    forall v: nat ensures v in after <==> v < n && SomeNegates(kept + [aut], n, v) {
      InvertedAt(p, aut, n, v);
      NegatesMore(kept, aut, n, v);
    }
  }

  lemma NegatesMore(kept: seq<seq<nat>>, aut: seq<nat>, n: nat, v: nat)
    ensures SomeNegates(kept + [aut], n, v) <==> SomeNegates(kept, n, v) || Negates(aut, n, v)
  {
    var more := kept + [aut];
    if SomeNegates(kept, n, v) {
      var k :| 0 <= k < |kept| && Negates(kept[k], n, v);
      assert Negates(more[k], n, v);
    }
    assert more[|kept|] == aut;
  }

  lemma IsTabulated(p: Permutation, aut: seq<nat>, n: nat)
    requires KeepsLiterals(aut, n) && p.Closed()
    requires forall l :: l in p.image <==> l.variable < n && aut[LiteralToNode(l, n)] != LiteralToNode(l, n)
    requires forall l :: l in p.image ==> LiteralToNode(p.image[l], n) == aut[LiteralToNode(l, n)]
    requires p.inverse.Keys == p.image.Keys && MutuallyInverse(p.image, p.inverse)
    ensures ReadOff(p, aut, n)
    ensures forall l :: l in p.cycles ==> l.variable < n
  {
    hide Tables, MutuallyInverse;
    TablesFit(p.cycles, p.cyclesLim, p.image, p.inverse);
  }

  /** What the group keeps is a symmetry of the formula. */
  lemma KeptIsSymmetry(p: Permutation, g: Generator, clauses: seq<Clause>, n: nat, adjacency: seq<seq<nat>>,
                       colors: seq<nat>, auts: seq<seq<nat>>, invs: seq<seq<nat>>, aut: seq<nat>)
    requires Encodes(adjacency, colors, clauses, n) && OverVariables(clauses, n)
    requires Automorphisms(adjacency, colors, auts, invs) && aut in auts
    requires p.Closed() && Consistent(p.cycles, p.image) && ReadOff(p, aut, n) && g.inverse == p.inverse
    ensures IsSymmetry(g, FormulaSymmetry.Proper(clauses)) && OneToOne(g.inverse) && InvertsArray(g.inverse, aut, n)
  {
    hide Encodes, PreservesGraph, Automorphism.Inverts, KeepsLiterals, Tabulates, Tables, Consistent, MutuallyInverse,
      IsSymmetry, OneToOne, InvertsArray;
    TablesFit(p.cycles, p.cyclesLim, p.image, p.inverse);
    var k :| 0 <= k < |auts| && auts[k] == aut;
    GeneratorIsSymmetry(g, clauses, n, adjacency, colors, aut, invs[k], p.cycles, p.image);
    InverseOneToOne(p.image, p.inverse);
    TabulatesInverts(p.image, p.inverse, aut, n);
  }

  lemma InverseOneToOne(image: map<Literal, Literal>, inverse: map<Literal, Literal>)
    requires MutuallyInverse(image, inverse)
    ensures OneToOne(inverse)
  {
    forall l, k | l in inverse && k in inverse && inverse[l] == inverse[k] ensures l == k {
      assert Into(inverse, image, l) && Into(inverse, image, k);
    }
  }

  // ---------------------------------------------------------------- enabling

  /** The order a mode stands for; AUTO depends on how many variables are inverted. */
  method CreateOrder(vars: OrderMode, n: nat, mode: ValueMode, occurrences: seq<int>, group: Group,
                     ghost kept: seq<seq<nat>>)
    returns (order: Order)
    requires group.Valid() && |group.watchers| <= n && n <= |occurrences|
    requires AllReadOff(group.permutations, kept, n) && group.inverting == Inverted(kept, n)
    ensures fresh(order) && order.Finished() && order.numVars == n && order.valueMode == mode
    ensures IsOrderFor(vars, kept, n, occurrences, VariablesOf(order.order))
  {
    hide Group.Valid, Order.Finished, AllReadOff, Inverted, Greedy, Rising, CoveringFirst, SortedBy, VariablesOf,
      RarestFirst, P.Images;
    if vars == INCREASE {
      order := new Order.Increase(n, mode);
      FinishedLists(order);
    } else if vars == OCCURENCE || (vars == AUTO && !(4 * |group.inverting| > n)) {
      order := new Order.Occurrence(n, mode, occurrences);
      FinishedLists(order);
    } else {
      order := new Order.BreakID(n, mode, group);
      FinishedLists(order);
      ghost var k :| 0 <= k <= |order.order| && Greedy(group.permutations, order.order[..k]) &&
        Rising(order.order[k..]) && RarestFirst(P.Images(group.permutations), order.order[..k]);
      CoversFirst(group.permutations, kept, n, order.order, k);
    }
  }

  lemma FinishedLists(order: Order)
    requires order.Finished()
    ensures |order.order| == |VariablesOf(order.order)| == order.numVars
    ensures forall i :: 0 <= i < |order.order| ==> VariablesOf(order.order)[i] == order.order[i].variable
    ensures forall i :: 0 <= i < |order.order| ==> order.order[i].positive && order.order[i].variable < order.numVars
  {
    CompleteIsValid(order.order, order.indexes, order.numVars);
  }

  /** The generators share one order and are symmetries of the formula. */
  ghost predicate SymmetriesOf(gens: seq<Generator>, clauses: seq<Clause>) {
    (exists order, ranks, mode :: ValidGroup(gens, order, ranks, mode)) &&
    forall j :: 0 <= j < |gens| ==> IsSymmetry(gens[j], FormulaSymmetry.Proper(clauses)) && Permutes(gens[j])
  }

  /** The generators of the controller are those of the arrays, in an order of the mode. */
  lemma GroupGivesSymmetries(controller: SymmetryController, clauses: seq<Clause>, n: nat, adjacency: seq<seq<nat>>,
                             colors: seq<nat>, auts: seq<seq<nat>>, invs: seq<seq<nat>>, vars: OrderMode,
                             occurrences: seq<int>)
    requires controller.Valid()
    requires Encodes(adjacency, colors, clauses, n) && OverVariables(clauses, n)
    requires Automorphisms(adjacency, colors, auts, invs)
    requires AllReadOff(controller.group.permutations, Usables(auts, n), n)
    requires IsOrderFor(vars, Usables(auts, n), n, occurrences, VariablesOf(controller.manager.order.order))
    ensures SymmetriesOf(controller.manager.Gens(), clauses)
    ensures BuiltFor(controller.manager.Gens(), Usables(auts, n), n, vars, controller.manager.order.valueMode,
                     occurrences)
  {
    hide Encodes, OverVariables, Automorphisms, PreservesGraph, Tables, Consistent, ValidGenerator, Indexed, Complete,
      Assignment.Valid, ReadOff, IsSymmetry, OneToOne, IsOrderFor, InvertsArray, Usables;
    var manager, kept := controller.manager, Usables(auts, n);
    var gens, order := manager.Gens(), manager.order;
    controller.GensAreValid();
    assert ValidGroup(gens, VariablesOf(order.order), RanksOf(order.indexes, order.numVars), order.valueMode);
    forall i | 0 <= i < |gens|
      ensures IsSymmetry(gens[i], FormulaSymmetry.Proper(clauses)) && Permutes(gens[i])
      ensures InvertsArray(gens[i].inverse, kept[i], n)
    {
      var p := controller.group.permutations[i];
      assert Group.Kept(p, |controller.group.watchers|);
      assert gens[i] == manager.statuses[i].Gen();
      assert kept[i] in kept;
      KeptIsSymmetry(p, gens[i], clauses, n, adjacency, colors, auts, invs, kept[i]);
    }
  }

  /** A controller over an empty assignment and an empty injector. */
  method Assemble(group: Group, order: Order, n: nat) returns (controller: SymmetryController, ghost start: System)
    requires group.Valid() && order.Finished() && order.numVars == n && |group.watchers| == n
    ensures fresh(controller) && fresh(controller.assignment) && fresh(controller.injector)
    ensures fresh(controller.manager.statuses)
    ensures controller.Valid() && controller.Shows(start) && controller.group == group
    ensures controller.manager.order == order
    ensures Init(controller.manager.Gens(), map[], start)
    ensures forall c :: c in controller.injector.Waiting(UNITS, NO_VARIABLE) <==> c in Units(controller.manager.Gens())
  {
    hide Tables, Consistent, ValidGenerator, Indexed, Complete, Group.Valid, Order.Finished, Assignment.Valid;
    var assignment := new Assignment();
    assignment.Resize(n);
    var injector := new ClauseInjector();
    controller := new SymmetryController(group, assignment, injector, order);
    start :| Init(controller.manager.Gens(), assignment.Values(), start) && controller.Shows(start);
  }

  /** Finds the symmetries and enables symmetry breaking if there is any. */
  method Enable(clauses: seq<Clause>, n: nat, graph: CNFGraph, auts: seq<seq<nat>>, ghost invs: seq<seq<nat>>,
                vars: OrderMode, mode: ValueMode, occurrences: seq<int>)
    returns (controller: SymmetryController?, ghost start: System)
    requires Encodes(graph.adjacency, graph.colors, clauses, n) && OverVariables(clauses, n)
    requires Automorphisms(graph.adjacency, graph.colors, auts, invs) && n <= |occurrences|
    ensures controller == null <==> Usables(auts, n) == []
    ensures controller != null ==>
              fresh(controller) && controller.Valid() && controller.Shows(start) &&
                controller.manager.order.numVars == n &&
              fresh(controller.assignment) && fresh(controller.injector) && fresh(controller.manager.statuses) &&
              SymmetriesOf(controller.manager.Gens(), clauses) && Init(controller.manager.Gens(), map[], start) &&
              BuiltFor(controller.manager.Gens(), Usables(auts, n), n, vars, mode, occurrences) &&
              forall c :: c in controller.injector.Waiting(UNITS, NO_VARIABLE) <==>
                          c in Units(controller.manager.Gens())
  {
    hide Encodes, PreservesGraph, Tables, Consistent, ValidGenerator, Indexed, Complete, Group.Valid, Order.Finished,
      Assignment.Valid, Automorphisms, ReadOff, OverVariables, SymmetriesOf, BuiltFor, IsOrderFor, Inverted, Usables;
    var group := FindSymmetries(clauses, n, graph, auts, invs);
    if group.permutations == [] {
      return null, System(map[], [], [], map[], {});
    }
    var order := CreateOrder(vars, n, mode, occurrences, group, Usables(auts, n));
    var created;
    created, start := Assemble(group, order, n);
    GroupGivesSymmetries(created, clauses, n, graph.adjacency, graph.colors, auts, invs, vars, occurrences);
    controller := created;
  }

  // ---------------------------------------------------------------- what the solver receives

  /** A clause that waits was emitted. */
  ghost predicate WaitingEmitted(s: System) {
    forall v, c :: v in s.pending && c in s.pending[v] ==> c in s.emitted
  }

  lemma StepKeepsWaiting(gens: seq<Generator>, s: System, l: Literal, t: System)
    requires Step(gens, s, l, t) && WaitingEmitted(s)
    ensures WaitingEmitted(t) && s.emitted <= t.emitted
  {
    hide Visited, Quiet, IsEsbp, Watch;
  }

  /** What a solver may do next. */
  datatype Call = Report(l: Literal) | Withdraw(l: Literal) | Take(l: Literal)

  /** Whether the interface allows a call: only an unassigned variable is reported, only the latest
      report or one never made is withdrawn, only a waiting clause is taken. */
  predicate Allowed(n: nat, s: System, call: Call) {
    var v := call.l.variable;
    match call
    case Report(l) => v < n && v !in s.values
    case Withdraw(l) => v < n && (v !in s.values || (s.trail != [] && s.trail[|s.trail| - 1] == l))
    case Take(_) => v in s.pending && s.pending[v] != []
  }

  /** A call that is allowed is the step of its kind; any other changes nothing. */
  ghost predicate Performs(gens: seq<Generator>, n: nat, s: System, call: Call, t: System) {
    if !Allowed(n, s, call) then t == s
    else
      match call
      case Report(l) => Notify(gens, s, l, t)
      case Withdraw(l) => Cancel(gens, s, l, t)
      case Take(l) => Fetch(s, l, t)
  }

  /** What a call hands out: the clause that waits last. */
  function Handed(n: nat, s: System, call: Call): seq<Clause> {
    if call.Take? && Allowed(n, s, call)
    then [s.pending[call.l.variable][|s.pending[call.l.variable]| - 1]]
    else []
  }

  method Perform(controller: SymmetryController, call: Call, trail: seq<Literal>, ghost base: Partial, ghost s: System)
    returns (now: seq<Literal>, taken: seq<Clause>, ghost t: System)
    requires controller.Valid() && controller.Shows(s) && Inv(controller.manager.Gens(), base, s) && s.trail == trail
    modifies controller.assignment, controller.injector, controller.manager.statuses
    ensures controller.Valid() && controller.manager.Gens() == old(controller.manager.Gens()) && controller.Shows(t)
    ensures Inv(controller.manager.Gens(), base, t) && t.trail == now
    ensures Performs(controller.manager.Gens(), controller.manager.order.numVars, s, call, t)
    ensures taken == Handed(controller.manager.order.numVars, s, call)
  {
    hide Inv, Assignment.Valid, Order.Finished, Group.Valid, ValidGenerator, Visited, Quiet, IsEsbp, Watch,
      Cancelled, Complete, Indexed;
    now, taken, t := trail, [], s;
    var l, n := call.l, controller.manager.order.numVars;
    match call
    case Report(_) =>
      if l.variable < n && !controller.assignment.VariableIsAssigned(l.variable) {
        t := controller.UpdateNotify(l, base, s);
        now := trail + [l];
      }
    case Withdraw(_) =>
      if l.variable < n {
        var known := controller.assignment.VariableIsAssigned(l.variable);
        if !known || (trail != [] && trail[|trail| - 1] == l) {
          t := controller.UpdateCancel(l, base, s);
          now := if known then trail[..|trail| - 1] else trail;
        }
      }
    case Take(_) =>
      if controller.injector.HasClause(ESBP, l.variable) {
        var c;
        c, t := controller.ClauseToInject(l, base, s);
        taken := [c];
      }
  }

  // ---------------------------------------------------------------- sequences of calls

  /** The states the calls lead through, one after the other. */
  ghost predicate Driven(gens: seq<Generator>, n: nat, calls: seq<Call>, states: seq<System>) {
    |states| == |calls| + 1 &&
    forall i :: 0 <= i < |calls| ==> Performs(gens, n, states[i], calls[i], states[i + 1])
  }

  /** All that was handed out on the way, in order. */
  function Received(n: nat, calls: seq<Call>, states: seq<System>): seq<Clause>
    requires |states| == |calls| + 1
  {
    if calls == [] then []
    else
      var k := |calls| - 1;
      Received(n, calls[..k], states[..k + 1]) + Handed(n, states[k], calls[k])
  }

  /** The same states and calls without those that were not allowed. */
  function Steps(n: nat, calls: seq<Call>, states: seq<System>): (r: (seq<System>, seq<Literal>))
    requires |states| == |calls| + 1
    ensures |r.0| == |r.1| + 1
  {
    if calls == [] then (states, [])
    else
      var k := |calls| - 1;
      var (run, events) := Steps(n, calls[..k], states[..k + 1]);
      if Allowed(n, states[k], calls[k]) then (run + [states[k + 1]], events + [calls[k].l]) else (run, events)
  }

  lemma DrivenNot(gens: seq<Generator>, n: nat, s: System)
    ensures Driven(gens, n, [], [s]) && Received(n, [], [s]) == []
  {
  }

  lemma DrivenOn(gens: seq<Generator>, n: nat, calls: seq<Call>, states: seq<System>, call: Call, t: System)
    requires Driven(gens, n, calls, states) && Performs(gens, n, states[|states| - 1], call, t)
    ensures |states| == |calls| + 1 && Driven(gens, n, calls + [call], states + [t])
    ensures Received(n, calls + [call], states + [t]) ==
            Received(n, calls, states) + Handed(n, states[|states| - 1], call)
  {
    hide Performs, Handed;
    var k := |calls|;
    assert (calls + [call])[..k] == calls && (states + [t])[..k + 1] == states;
    forall i | 0 <= i < k + 1 ensures Performs(gens, n, (states + [t])[i], (calls + [call])[i], (states + [t])[i + 1]) {
      if i < k {
        assert Performs(gens, n, states[i], calls[i], states[i + 1]);
      }
    }
  }

  /** Every step of a run is one of the calls the interface allows. */
  lemma StepIsAllowed(gens: seq<Generator>, n: nat, s: System, l: Literal, t: System) returns (call: Call)
    requires Step(gens, s, l, t) && l.variable < n
    ensures call.l == l && Allowed(n, s, call) && Performs(gens, n, s, call, t)
  {
    hide Visited, Quiet, IsEsbp, Watch, Cancelled;
    call := if Notify(gens, s, l, t) then Report(l) else if Cancel(gens, s, l, t) then Withdraw(l) else Take(l);
  }

  /** So every run over these variables is one of calls. */
  lemma {:induction false} RunIsDriven(gens: seq<Generator>, n: nat, run: seq<System>, events: seq<Literal>)
    returns (calls: seq<Call>)
    requires ValidRun(gens, run, events) && forall l :: l in events ==> l.variable < n
    ensures Driven(gens, n, calls, run) && |run| == |calls| + 1 && Steps(n, calls, run) == (run, events)
    decreases |events|
  {
    hide Step, Performs, Allowed, Driven, Steps, ValidRun;
    if events == [] {
      calls := [];
      NoSteps(gens, n, run);
    } else {
      var k := |events| - 1;
      RunPrefix(gens, run, events);
      calls := RunIsDriven(gens, n, run[..k + 1], events[..k]);
      assert events[k] in events;
      var call := StepIsAllowed(gens, n, run[k], events[k], run[k + 1]);
      StepsOn(gens, n, calls, run[..k + 1], events[..k], call, run[k + 1]);
      assert run[..k + 1] + [run[k + 1]] == run && events[..k] + [events[k]] == events;
      calls := calls + [call];
    }
  }

  lemma NoSteps(gens: seq<Generator>, n: nat, run: seq<System>)
    requires ValidRun(gens, run, [])
    ensures Driven(gens, n, [], run) && |run| == 1 && Steps(n, [], run) == (run, [])
  {
  }

  lemma StepsOn(gens: seq<Generator>, n: nat, calls: seq<Call>, run: seq<System>, events: seq<Literal>, call: Call,
                t: System)
    requires Driven(gens, n, calls, run) && |run| == |calls| + 1 && Steps(n, calls, run) == (run, events)
    requires Allowed(n, run[|run| - 1], call) && Performs(gens, n, run[|run| - 1], call, t)
    ensures Driven(gens, n, calls + [call], run + [t])
    ensures Steps(n, calls + [call], run + [t]) == (run + [t], events + [call.l])
  {
    hide Performs, Allowed;
    DrivenOn(gens, n, calls, run, call, t);
    assert (calls + [call])[..|calls|] == calls && (run + [t])[..|calls| + 1] == run;
  }

  lemma RunPrefix(gens: seq<Generator>, run: seq<System>, events: seq<Literal>)
    requires ValidRun(gens, run, events) && events != []
    ensures |run| == |events| + 1 && ValidRun(gens, run[..|events|], events[..|events| - 1])
    ensures Step(gens, run[|events| - 1], events[|events| - 1], run[|events|])
  {
    hide Step;
    var k := |events| - 1;
    assert Step(gens, run[k], events[k], run[k + 1]);
    forall i | 0 <= i < k ensures Step(gens, run[..k + 1][i], events[..k][i], run[..k + 1][i + 1]) {
      assert Step(gens, run[i], events[i], run[i + 1]);
    }
  }

  lemma PerformedStep(gens: seq<Generator>, n: nat, s: System, call: Call, t: System)
    requires Performs(gens, n, s, call, t) && WaitingEmitted(s)
    ensures if Allowed(n, s, call) then Step(gens, s, call.l, t) else t == s
    ensures WaitingEmitted(t) && s.emitted <= t.emitted && forall c :: c in Handed(n, s, call) ==> c in s.emitted
  {
    hide Notify, Cancel, Fetch;
    if Allowed(n, s, call) {
      StepKeepsWaiting(gens, s, call.l, t);
    }
  }

  lemma RunGoesOn(gens: seq<Generator>, run: seq<System>, events: seq<Literal>, l: Literal, t: System)
    requires ValidRun(gens, run, events) && Step(gens, run[|run| - 1], l, t)
    ensures ValidRun(gens, run + [t], events + [l])
  {
    hide Step;
    var more, calls := run + [t], events + [l];
    forall i | 0 <= i < |calls| ensures Step(gens, more[i], calls[i], more[i + 1]) {
      if i < |events| {
        assert Step(gens, run[i], events[i], run[i + 1]);
      }
    }
  }

  /** The allowed calls are the events of a run, and what was received was emitted in it. */
  lemma {:induction false} DrivenIsRun(gens: seq<Generator>, n: nat, calls: seq<Call>, states: seq<System>)
    requires Driven(gens, n, calls, states) && WaitingEmitted(states[0])
    ensures var (run, events) := Steps(n, calls, states);
            ValidRun(gens, run, events) && run[0] == states[0] && run[|run| - 1] == states[|calls|] &&
            WaitingEmitted(states[|calls|]) &&
            forall c :: c in Received(n, calls, states) ==> c in states[|calls|].emitted
  {
    hide Performs, Handed, Step, WaitingEmitted, Allowed;
    if calls != [] {
      var k := |calls| - 1;
      forall i | 0 <= i < k
        ensures Performs(gens, n, states[..k + 1][i], calls[..k][i], states[..k + 1][i + 1])
      {
        assert Performs(gens, n, states[i], calls[i], states[i + 1]);
      }
      DrivenIsRun(gens, n, calls[..k], states[..k + 1]);
      PerformedStep(gens, n, states[k], calls[k], states[k + 1]);
      var (run, events) := Steps(n, calls[..k], states[..k + 1]);
      if Allowed(n, states[k], calls[k]) {
        RunGoesOn(gens, run, events, calls[k].l, states[k + 1]);
      }
    }
  }

  lemma StartWaits(gens: seq<Generator>, base: Partial, s: System)
    requires Init(gens, base, s)
    ensures Inv(gens, base, s) && WaitingEmitted(s) && s.trail == []
  {
    InitInv(gens, base, s);
  }

  /** Any sequence of calls after any others. */
  method Drive(controller: SymmetryController, calls: seq<Call>, before: seq<Literal>, ghost base: Partial,
               ghost past: seq<Call>, ghost earlier: seq<System>)
    returns (now: seq<Literal>, received: seq<Clause>, ghost states: seq<System>)
    requires controller.Valid() && |earlier| == |past| + 1
    requires Driven(controller.manager.Gens(), controller.manager.order.numVars, past, earlier)
    requires controller.Shows(earlier[|past|]) && Inv(controller.manager.Gens(), base, earlier[|past|])
    requires earlier[|past|].trail == before
    modifies controller.assignment, controller.injector, controller.manager.statuses
    ensures controller.Valid() && controller.manager.Gens() == old(controller.manager.Gens())
    ensures |states| == |past + calls| + 1
    ensures Driven(controller.manager.Gens(), controller.manager.order.numVars, past + calls, states)
    ensures earlier <= states && controller.Shows(states[|past| + |calls|])
    ensures Inv(controller.manager.Gens(), base, states[|past| + |calls|]) && states[|past| + |calls|].trail == now
    ensures Received(controller.manager.order.numVars, past + calls, states) ==
            Received(controller.manager.order.numVars, past, earlier) + received
  {
    hide Init, Inv, SymmetryController.Shows, Assignment.Valid, Order.Finished, Group.Valid, Performs, Handed,
      Tables, Consistent, ValidGenerator, Indexed, Complete, CosyManager.Wired, CosyManager.Gens, CosyManager.Views,
      CosyStatus.Ready, ClauseInjector.Valid, Received, Driven;
    ghost var gens := controller.manager.Gens();
    ghost var n := controller.manager.order.numVars;
    received, states, now := [], earlier, before;
    ghost var s := earlier[|past|];
    assert past + calls[..0] == past;
    assert Received(n, past, earlier) + [] == Received(n, past, earlier);
    var i := 0;
    while i < |calls|
      invariant 0 <= i <= |calls| && controller.Valid() && controller.manager.Gens() == gens
      invariant |states| == |past| + i + 1 && Driven(gens, n, past + calls[..i], states) && earlier <= states
      invariant states[|past| + i] == s && controller.Shows(s) && Inv(gens, base, s) && s.trail == now
      invariant Received(n, past + calls[..i], states) == Received(n, past, earlier) + received
    {
      var taken;
      ghost var t;
      now, taken, t := Perform(controller, calls[i], now, base, s);
      DrivenOn(gens, n, past + calls[..i], states, calls[i], t);
      assert past + calls[..i + 1] == past + calls[..i] + [calls[i]];
      s, states, received := t, states + [t], received + taken;
      i := i + 1;
    }
    assert calls[..i] == calls;
  }

  /** Adding clauses of a run to the formula keeps its satisfiability. */
  lemma EmittedKeep(gens: seq<Generator>, clauses: seq<Clause>, base: Partial, run: seq<System>, events: seq<Literal>,
                    more: set<Clause>)
    requires SymmetriesOf(gens, clauses)
    requires AllTrustworthy(gens)
    requires ValidRun(gens, run, events) && Init(gens, base, run[0]) && more <= run[|run| - 1].emitted
    ensures Satisfiable((set c | c in clauses) + more) <==> Satisfiable(set c | c in clauses)
  {
    hide Init, Step, IsSymmetry, Trustworthy, ValidGenerator, FormulaSymmetry.Proper, OneToOne;
    var order, ranks, mode :| ValidGroup(gens, order, ranks, mode);
    var f, emitted := FormulaSymmetry.Proper(clauses), run[|run| - 1].emitted;
    TrustworthyEquisatisfiable(gens, f, order, ranks, mode, base, run, events);
    if Satisfiable(set c | c in clauses) {
      var m :| Models(m, set c | c in clauses);
      SameWithoutTautologies(clauses, {}, m);
      assert (set c | c in clauses) + {} == (set c | c in clauses) && f + {} == f;
      var k :| Models(k, f + emitted);
      assert Models(k, f + more);
      SameWithoutTautologies(clauses, more, k);
    }
    if Satisfiable((set c | c in clauses) + more) {
      var m :| Models(m, (set c | c in clauses) + more);
      assert Models(m, set c | c in clauses);
    }
  }

  /** The solver takes the units before it searches. */
  method TakeUnits(controller: SymmetryController, ghost s: System) returns (units: seq<Clause>)
    requires controller.Valid() && controller.Shows(s)
    requires forall c :: c in controller.injector.Waiting(UNITS, NO_VARIABLE) <==> c in Units(controller.manager.Gens())
    modifies controller.injector
    ensures controller.Valid() && controller.Shows(s) && controller.manager.Gens() == old(controller.manager.Gens())
    ensures forall c :: c in units <==> c in Units(controller.manager.Gens())
    ensures var waiting := old(controller.injector.Waiting(UNITS, NO_VARIABLE));
            |units| == |waiting| && forall k :: 0 <= k < |units| ==> units[k] == waiting[|waiting| - 1 - k]
  {
    hide Assignment.Valid, Order.Finished, Group.Valid, Tables, Consistent, ValidGenerator, Indexed, Complete,
      CosyManager.Wired, CosyManager.Gens, CosyManager.Views, OnePerCause, Units;
    units := [];
    ghost var all := Units(controller.manager.Gens());
    ghost var first := controller.injector.Waiting(UNITS, NO_VARIABLE);
    while controller.injector.HasClause(UNITS, NO_VARIABLE)
      invariant controller.Valid() && controller.Shows(s)
      invariant controller.manager.Gens() == old(controller.manager.Gens())
      invariant |units| <= |first| && controller.injector.Waiting(UNITS, NO_VARIABLE) == first[..|first| - |units|]
      invariant forall k :: 0 <= k < |units| ==> units[k] == first[|first| - 1 - k]
      decreases |controller.injector.Waiting(UNITS, NO_VARIABLE)|
    {
      ghost var waiting := controller.injector.Waiting(UNITS, NO_VARIABLE);
      var c := controller.UnitToInject(s);
      assert waiting == waiting[..|waiting| - 1] + [c];
      units := units + [c];
    }
    forall c ensures c in units <==> c in all {
      if c in all {
        var k :| 0 <= k < |first| && first[k] == c;
        assert units[|first| - 1 - k] == c;
      }
    }
  }

  /** What a solver has that takes the units and makes the calls. */
  ghost predicate Obtains(gens: seq<Generator>, n: nat, calls: seq<Call>, received: seq<Clause>) {
    exists units, states ::
      (forall c :: c in units <==> c in Units(gens)) && |states| == |calls| + 1 && Driven(gens, n, calls, states) &&
      Init(gens, map[], states[0]) && received == units + Received(n, calls, states)
  }

  lemma ObtainedKeeps(gens: seq<Generator>, n: nat, calls: seq<Call>, received: seq<Clause>, clauses: seq<Clause>)
    requires Obtains(gens, n, calls, received) && SymmetriesOf(gens, clauses) && AllTrustworthy(gens)
    ensures Satisfiable((set c | c in clauses) + set c | c in received) <==> Satisfiable(set c | c in clauses)
  {
    hide SymmetriesOf, AllTrustworthy, Init, Satisfiable, Driven, ValidRun, Steps, Received, Units, WaitingEmitted;
    var units, states :| (forall c :: c in units <==> c in Units(gens)) && |states| == |calls| + 1 &&
      Driven(gens, n, calls, states) &&
      Init(gens, map[], states[0]) && received == units + Received(n, calls, states);
    StartWaits(gens, map[], states[0]);
    DrivenIsRun(gens, n, calls, states);
    var (run, events) := Steps(n, calls, states);
    UnitsEmitted(gens, map[], run, events);
    EmittedKeep(gens, clauses, map[], run, events, set c | c in received);
  }

  /** The whole layer for one formula: symmetries are found and enabled, the solver takes the units, then
      reports, withdraws and takes clauses as it likes.  The formula with everything it received is
      satisfiable exactly if the formula is, provided the generators are trustworthy for the order, which
      they are whatever the order if the kept arrays are their own inverses. */
  method BreakSymmetries(clauses: seq<Clause>, n: nat, graph: CNFGraph, auts: seq<seq<nat>>, ghost invs: seq<seq<nat>>,
                         vars: OrderMode, mode: ValueMode, occurrences: seq<int>, calls: seq<Call>)
    returns (controller: SymmetryController?, received: seq<Clause>)
    requires Encodes(graph.adjacency, graph.colors, clauses, n) && OverVariables(clauses, n)
    requires Automorphisms(graph.adjacency, graph.colors, auts, invs) && n <= |occurrences|
    ensures controller == null <==> Usables(auts, n) == []
    ensures controller == null ==> received == []
    ensures controller != null ==>
              controller.Valid() && SymmetriesOf(controller.manager.Gens(), clauses) &&
              BuiltFor(controller.manager.Gens(), Usables(auts, n), n, vars, mode, occurrences) &&
              Obtains(controller.manager.Gens(), n, calls, received)
    ensures (controller == null || AllTrustworthy(controller.manager.Gens())) ==>
              (Satisfiable((set c | c in clauses) + set c | c in received) <==> Satisfiable(set c | c in clauses))
    ensures (forall aut :: aut in auts && Usable(aut, n) ==> Involutive(aut)) ==>
              (Satisfiable((set c | c in clauses) + set c | c in received) <==> Satisfiable(set c | c in clauses))
  {
    hide Encodes, OverVariables, Automorphisms, Init, ValidRun, SymmetryController.Shows, Assignment.Valid,
      Order.Finished, Group.Valid, Tables, Consistent, Indexed, Complete, AllTrustworthy, Satisfiable, BuiltFor,
      SymmetriesOf, Usable, Usables, Involutive, Units, Driven, CosyManager.Wired, CosyManager.Gens;
    ghost var start;
    controller, start := Enable(clauses, n, graph, auts, invs, vars, mode, occurrences);
    if controller == null {
      received := [];
      assert (set c | c in clauses) + (set c | c in received) == (set c | c in clauses);
    } else {
      ghost var gens := controller.manager.Gens();
      var units := TakeUnits(controller, start);
      StartWaits(gens, map[], start);
      DrivenNot(gens, n, start);
      var now, taken;
      ghost var states;
      now, taken, states := Drive(controller, calls, [], map[], [], [start]);
      assert [] + calls == calls && [] + taken == taken;
      received := units + taken;
      if forall aut :: aut in auts && Usable(aut, n) ==> Involutive(aut) {
        BuiltTrustworthy(gens, Usables(auts, n), n, vars, mode, occurrences);
      }
      if AllTrustworthy(gens) {
        ObtainedKeeps(gens, n, calls, received, clauses);
      }
    }
  }

  ghost predicate AllTrustworthy(gens: seq<Generator>) {
    forall j :: 0 <= j < |gens| ==> ValidGenerator(gens[j]) && Trustworthy(gens[j])
  }

  /** Arrays that are their own inverses give trustworthy generators in every order. */
  lemma BuiltTrustworthy(gens: seq<Generator>, kept: seq<seq<nat>>, n: nat, vars: OrderMode, mode: ValueMode,
                         occurrences: seq<int>)
    requires BuiltFor(gens, kept, n, vars, mode, occurrences) && forall aut :: aut in kept ==> Involutive(aut)
    ensures AllTrustworthy(gens)
  {
    hide Involutive, InvertsArray, ValidGenerator, Trustworthy, IsOrderFor;
    forall j | 0 <= j < |gens| ensures ValidGenerator(gens[j]) && Trustworthy(gens[j]) {
      assert kept[j] in kept;
      InvolutiveInverse(gens[j], kept[j], n);
      InvolutionTrustworthy(gens[j]);
    }
  }

  lemma UnitsEmitted(gens: seq<Generator>, base: Partial, run: seq<System>, events: seq<Literal>)
    requires ValidRun(gens, run, events) && Init(gens, base, run[0])
    ensures |run| > 0 && Units(gens) <= run[|run| - 1].emitted
  {
    EmittedGrows(gens, run, events, |run| - 1);
  }
}
