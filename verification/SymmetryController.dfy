/** What the solver talks to: it reports and cancels literals and fetches clauses. */
module SymmetryControl {
  import opened Logic
  import opened LexLeader
  import opened Lookup
  import opened Soundness
  import opened Runs
  import opened Permutations
  import opened Groups
  import opened Assignments
  import opened Orders
  import opened Injection
  import opened CosyStatuses
  import opened CosyManagers

  function PendingOf(clauses: map<int, seq<Clause>>): map<nat, seq<Clause>> {
    map v: nat | v in clauses :: clauses[v]
  }

  class SymmetryController {
    const group: Group
    const assignment: Assignment
    const injector: ClauseInjector
    const manager: CosyManager

    ghost predicate Valid()
      reads manager, group, assignment, injector, manager.group, manager.assignment, manager.order,
            manager.group.permutations, manager.statuses
    {
      manager.group == group && manager.assignment == assignment && manager.Valid() && injector.Valid()
    }

    /** The objects are in the state `s` of the state machine; which literals were notified and
        which clauses emitted so far only `s` records. */
    ghost predicate Shows(s: System)
      requires Valid()
      reads manager, group, assignment, injector, manager.group, manager.assignment, manager.order,
            manager.group.permutations, manager.statuses
    {
      s.values == assignment.Values() && s.statuses == manager.Views() && s.pending == PendingOf(injector.clauses[ESBP])
    }

    /** Enabling symmetry breaking: the manager is built over the order, the units are generated
        and the values already assigned are the base no cancellation goes below. */
    constructor (group: Group, assignment: Assignment, injector: ClauseInjector, order: Order)
      requires group.Valid() && order.Finished() && assignment.Valid() && injector.Valid()
      requires |assignment.bits| == 2 * order.numVars && |group.watchers| == order.numVars
      requires injector.Waiting(UNITS, NO_VARIABLE) == [] && injector.clauses[ESBP] == map[]
      modifies injector
      ensures Valid() && this.group == group && this.assignment == assignment && this.injector == injector
      ensures manager.order == order
      ensures exists s :: Init(manager.Gens(), assignment.Values(), s) && Shows(s)
      ensures forall c :: c in injector.Waiting(UNITS, NO_VARIABLE) <==> c in Units(manager.Gens())
    {
      hide Tables, Consistent, ValidGenerator, Indexed, Complete, Group.Valid, Order.Finished, Assignment.Valid,
        UnitList, CosyManager.Wired;
      this.group, this.assignment, this.injector := group, assignment, injector;
      var created := new CosyManager(group, assignment, order);
      manager := created;
      created.GenerateUnits(injector);
      new;
      ghost var s := System(assignment.Values(), [], manager.Views(), PendingOf(injector.clauses[ESBP]),
        Units(manager.Gens()));
      assert Init(manager.Gens(), assignment.Values(), s) && Shows(s);
    }

    /** The value is recorded first, then the watchers hear of it. */
    method UpdateNotify(l: Literal, ghost base: Partial, ghost s: System) returns (ghost t: System)
      requires Valid() && Shows(s) && Inv(manager.Gens(), base, s)
      requires l.variable < manager.order.numVars && l.variable !in assignment.Values()
      modifies assignment, injector, manager.statuses
      ensures Valid() && Shows(t) && manager.Gens() == old(manager.Gens())
      ensures Notify(manager.Gens(), s, l, t) && Inv(manager.Gens(), base, t)
    {
      hide Tables, Consistent, ValidGenerator, Indexed, Complete, Group.Valid, Order.Finished, Assignment.Valid,
        Assignment.Values, CosyManager.Gens, CosyManager.Views, CosyManager.Wired,
        Inv, PairsAgree, Visited, Quiet, Emitted, Notify, PendingOf, AddPending, Watch;
      ghost var gens := manager.Gens();
      GensAreValid();
      PairsHold(gens, base, s, l);
      assignment.AssignFromTrueLiteral(l);
      ghost var visited, r, c := manager.UpdateNotify(l, injector);
      t := System(assignment.Values(), s.trail + [l], manager.Views(), PendingOf(injector.clauses[ESBP]),
        if 0 <= r then s.emitted + {c} else s.emitted);
      if 0 <= r {
        PendingAdds(old(injector.clauses[ESBP]), injector.clauses[ESBP], l.variable, c);
        EmissionIsStep(gens, base, s, l, visited, r, c, t);
      } else {
        QuietIsStep(gens, base, s, l, visited, t);
      }
    }

    /** The values go first, then the watchers undo, then waiting clauses are dropped.  The
        literal is the latest notified one, or one the solver never got to notify. */
    method UpdateCancel(l: Literal, ghost base: Partial, ghost s: System) returns (ghost t: System)
      requires Valid() && Shows(s) && Inv(manager.Gens(), base, s)
      requires l.variable < manager.order.numVars
      requires l.variable in assignment.Values() ==> s.trail != [] && s.trail[|s.trail| - 1] == l
      modifies assignment, injector, manager.statuses
      ensures Valid() && Shows(t) && manager.Gens() == old(manager.Gens())
      ensures Cancel(manager.Gens(), s, l, t) && Inv(manager.Gens(), base, t)
    {
      hide Tables, Consistent, ValidGenerator, Indexed, Complete, Group.Valid, Order.Finished, Assignment.Valid,
        Assignment.Values, CosyManager.Gens, CosyManager.Views, CosyManager.Wired, OnePerCause, Inv, Cancelled,
        PendingOf,
        Watch, Cancel;
      ghost var gens := manager.Gens();
      CancelFits(gens, base, s, l.variable);
      ghost var before := injector.clauses[ESBP];
      Undo(l);
      PendingDrops(before, l.variable);
      t := System(assignment.Values(), if l.variable in s.values then s.trail[..|s.trail| - 1] else s.trail,
        manager.Views(), PendingOf(injector.clauses[ESBP]), s.emitted);
      CancelIsStep(gens, base, s, l, t);
    }

    method Undo(l: Literal)
      requires Valid() && l.variable < manager.order.numVars
      requires forall i :: 0 <= i < |manager.Views()| ==>
          Cancelled(l.variable, manager.Views()[i]).index <= |manager.Gens()[i].lookup|
      modifies assignment, injector, manager.statuses
      ensures Valid() && manager.Gens() == old(manager.Gens())
      ensures assignment.Values() == old(assignment.Values()) - {l.variable}
      ensures injector.clauses[ESBP] == old(injector.clauses[ESBP])[l.variable := []]
      ensures |manager.Views()| == |old(manager.Views())|
      ensures forall i {:trigger manager.Views()[i]} :: 0 <= i < |manager.Views()| ==>
                manager.Views()[i] == if i in Watch(manager.Gens(), l.variable)
                                      then Cancelled(l.variable, old(manager.Views())[i])
                                      else old(manager.Views())[i]
    {
      hide Tables, Consistent, ValidGenerator, Indexed, Complete, Group.Valid, Order.Finished, Assignment.Valid,
        Assignment.Values,
        CosyManager.Gens, CosyManager.Views, CosyManager.Wired, OnePerCause, Cancelled, Watch;
      assignment.UnassignLiteral(l);
      manager.UpdateCancel(l);
      injector.RemoveClause(l.variable);
    }

    /** The solver asks for and takes the clause a literal caused. */
    method ClauseToInject(l: Literal, ghost base: Partial, ghost s: System) returns (c: Clause, ghost t: System)
      requires Valid() && Shows(s) && Inv(manager.Gens(), base, s)
      requires injector.HasClause(ESBP, l.variable)
      modifies injector
      ensures Valid() && Shows(t) && manager.Gens() == old(manager.Gens())
      ensures Fetch(s, l, t) && c in s.pending[l.variable] && Inv(manager.Gens(), base, t)
    {
      hide Tables, Consistent, ValidGenerator, Indexed, Complete, Group.Valid, Order.Finished, Assignment.Valid, Inv,
        CosyManager.Gens, CosyManager.Views, CosyManager.Wired, OnePerCause, PendingOf, Fetch;
      GensAreValid();
      ghost var before := injector.clauses[ESBP];
      c := injector.GetClause(ESBP, l.variable);
      t := s.(pending := PendingOf(injector.clauses[ESBP]));
      FetchIsStep(manager.Gens(), base, s, l, before, c, t);
    }

    /** The solver takes a unit clause; the state of the state machine does not depend on these. */
    method UnitToInject(ghost s: System) returns (c: Clause)
      requires Valid() && Shows(s) && injector.HasClause(UNITS, NO_VARIABLE)
      modifies injector
      ensures Valid() && Shows(s) && manager.Gens() == old(manager.Gens())
      ensures var waiting := old(injector.Waiting(UNITS, NO_VARIABLE));
              c == waiting[|waiting| - 1] && injector.Waiting(UNITS, NO_VARIABLE) == waiting[..|waiting| - 1]
    {
      hide Tables, Consistent, ValidGenerator, Indexed, Complete, Group.Valid, Order.Finished, Assignment.Valid,
        CosyManager.Gens, CosyManager.Views, CosyManager.Wired, OnePerCause, PendingOf;
      c := injector.GetClause(UNITS, NO_VARIABLE);
    }

    lemma GensAreValid()
      requires manager.Valid()
      ensures forall i :: 0 <= i < |manager.Gens()| ==> ValidGenerator(manager.Gens()[i])
    {
      hide Tables, Consistent, ValidGenerator, Indexed, Complete, Group.Valid, Assignment.Valid;
      forall i | 0 <= i < |manager.Gens()| ensures ValidGenerator(manager.Gens()[i]) {
        assert manager.statuses[i].Ready();
      }
    }
  }

  lemma PairsHold(gens: seq<Generator>, base: Partial, s: System, l: Literal)
    requires Inv(gens, base, s) && l.variable !in s.values
    ensures forall i :: 0 <= i < |s.statuses| ==>
        PairsAgree(gens[i], s.values[l.variable := l.positive], s.statuses[i].index)
  {
    forall i | 0 <= i < |s.statuses|
      ensures PairsAgree(gens[i], s.values[l.variable := l.positive], s.statuses[i].index)
    {
      PairsStillAgree(gens[i], s.values, s.values[l.variable := l.positive], s.statuses[i].index);
    }
  }

  lemma CancelFits(gens: seq<Generator>, base: Partial, s: System, v: nat)
    requires Inv(gens, base, s)
    ensures |s.statuses| == |gens|
    ensures forall i :: 0 <= i < |s.statuses| ==> Cancelled(v, s.statuses[i]).index <= |gens[i].lookup|
  {
    forall i | 0 <= i < |s.statuses| ensures Cancelled(v, s.statuses[i]).index <= |gens[i].lookup| {
      if s.statuses[i].infos != [] { StackFits(gens[i], base, s.trail, s.statuses[i].index, s.statuses[i].infos); }
    }
  }

  lemma {:induction false} StackFits(g: Generator, base: Partial, trail: seq<Literal>, index: nat,
                                     infos: seq<LookupInfo>)
    requires Undoable(g, base, trail, index, infos) && infos != []
    ensures infos[|infos| - 1].backIndex < index
    decreases |trail|
  {
    if infos[|infos| - 1].variable != trail[|trail| - 1].variable {
      StackFits(g, base, trail[..|trail| - 1], index, infos);
    }
  }

  lemma PendingAdds(before: map<int, seq<Clause>>, after: map<int, seq<Clause>>, v: nat, c: Clause)
    requires after == if v !in before || before[v] == [] then before[v := [c]] else before
    ensures PendingOf(after) == AddPending(PendingOf(before), v, c)
  {
  }

  lemma PendingDrops(before: map<int, seq<Clause>>, v: nat)
    ensures PendingOf(before[v := []]) == PendingOf(before)[v := []]
  {
  }

  lemma FetchIsStep(gens: seq<Generator>, base: Partial, s: System, l: Literal, before: map<int, seq<Clause>>,
                    c: Clause, t: System)
    requires forall i :: 0 <= i < |gens| ==> ValidGenerator(gens[i])
    requires Inv(gens, base, s) && s.pending == PendingOf(before) && l.variable in before && before[l.variable] != []
    requires c == before[l.variable][|before[l.variable]| - 1]
    requires t == s.(pending := PendingOf(before[l.variable := before[l.variable][..|before[l.variable]| - 1]]))
    ensures Fetch(s, l, t) && c in s.pending[l.variable] && Inv(gens, base, t)
  {
    var v, waiting := l.variable, before[l.variable];
    assert PendingOf(before[v := waiting[..|waiting| - 1]]) == PendingOf(before)[v := waiting[..|waiting| - 1]];
    hide Inv, ValidGenerator;
    StepKeepsInv(gens, base, s, l, t);
  }

  lemma EmissionIsStep(gens: seq<Generator>, base: Partial, s: System, l: Literal, visited: set<nat>, r: nat,
                       c: Clause, t: System)
    requires forall i :: 0 <= i < |gens| ==> ValidGenerator(gens[i])
    requires Inv(gens, base, s) && l.variable !in s.values
    requires t.values == s.values[l.variable := l.positive] && t.trail == s.trail + [l]
    requires t.pending == AddPending(s.pending, l.variable, c) && t.emitted == s.emitted + {c}
    requires Visited(gens, t.values, l.variable, visited, s.statuses, t.statuses)
    requires Emitted(gens, t.values, l.variable, visited, r, t.statuses, c)
    ensures Notify(gens, s, l, t) && Inv(gens, base, t)
  {
    hide Inv, Visited, Quiet, ValidGenerator, IsEsbp;
    assert NotifyEmits(gens, s, l, visited, r, c, t);
    StepKeepsInv(gens, base, s, l, t);
  }

  lemma CancelIsStep(gens: seq<Generator>, base: Partial, s: System, l: Literal, t: System)
    requires l.variable in s.values ==> s.trail != [] && s.trail[|s.trail| - 1] == l
    requires Inv(gens, base, s)
    requires t.values == s.values - {l.variable} && t.emitted == s.emitted && t.pending == s.pending[l.variable := []]
    requires t.trail == if l.variable in s.values then s.trail[..|s.trail| - 1] else s.trail
    requires |t.statuses| == |s.statuses| == |gens|
    requires forall i {:trigger t.statuses[i]} :: 0 <= i < |gens| ==>
      t.statuses[i] == if i in Watch(gens, l.variable) then Cancelled(l.variable, s.statuses[i]) else s.statuses[i]
    ensures Cancel(gens, s, l, t) && Inv(gens, base, t)
  {
    hide Inv, Cancelled, Watch;
    CancelKeepsInv(gens, base, s, l, t);
  }

  lemma QuietIsStep(gens: seq<Generator>, base: Partial, s: System, l: Literal, visited: set<nat>, t: System)
    requires forall i :: 0 <= i < |gens| ==> ValidGenerator(gens[i])
    requires Inv(gens, base, s) && l.variable !in s.values
    requires t.values == s.values[l.variable := l.positive] && t.trail == s.trail + [l]
    requires t.pending == s.pending && t.emitted == s.emitted && visited == Watch(gens, l.variable)
    requires Visited(gens, t.values, l.variable, visited, s.statuses, t.statuses) && Quiet(visited, t.statuses)
    ensures Notify(gens, s, l, t) && Inv(gens, base, t)
  {
    hide Inv, Visited, Quiet, ValidGenerator;
    StepKeepsInv(gens, base, s, l, t);
  }
}
