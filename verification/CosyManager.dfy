/** The manager sends notifications to the statuses that watch a variable and cancels them. */
module CosyManagers {
  import opened Logic
  import opened LexLeader
  import opened Lookup
  import opened Soundness
  import opened Runs
  import opened Permutations
  import opened Groups
  import opened Assignments
  import opened Orders
  import opened Injection
  import opened CosyStatuses

  /** The literals of the order that a permutation moves, in order. */
  ghost function Restricted(order: seq<Literal>, inverse: map<Literal, Literal>): seq<Literal> {
    if order == [] then []
    else
      var front, l := order[..|order| - 1], order[|order| - 1];
      if Moves(inverse, l.variable) then Restricted(front, inverse) + [l] else Restricted(front, inverse)
  }

  /** `r` holds the moved literals of `prefix`, in the order of their positions below `i`. */
  ghost predicate Restricts(r: seq<Literal>, prefix: seq<Literal>, inverse: map<Literal, Literal>,
                            indexes: map<Literal, nat>, i: nat) {
    (forall l :: l in r <==> l in prefix && Moves(inverse, l.variable)) &&
    (forall j :: 0 <= j < |r| ==> r[j] in indexes && indexes[r[j]] < i) &&
    (forall j, k :: 0 <= j < k < |r| && r[j] in indexes && r[k] in indexes ==> indexes[r[j]] < indexes[r[k]])
  }

  lemma RestrictsNext(r: seq<Literal>, prefix: seq<Literal>, inverse: map<Literal, Literal>,
                      indexes: map<Literal, nat>, i: nat, l: Literal)
    requires Restricts(r, prefix, inverse, indexes, i) && l in indexes && indexes[l] == i
    ensures Restricts(if Moves(inverse, l.variable) then r + [l] else r, prefix + [l], inverse, indexes, i + 1)
  {
  }

  lemma {:induction false} RestrictedUpTo(order: seq<Literal>, inverse: map<Literal, Literal>,
                                          indexes: map<Literal, nat>, n: nat, i: nat)
    requires Indexed(order, indexes, n) && i <= |order|
    ensures Restricts(Restricted(order[..i], inverse), order[..i], inverse, indexes, i)
  {
    hide Restricts;
    if i > 0 {
      RestrictedUpTo(order, inverse, indexes, n, i - 1);
      var front, l := order[..i - 1], order[i - 1];
      assert order[..i] == front + [l] && order[..i][..i - 1] == front;
      assert l in indexes && indexes[l] == i - 1;
      RestrictsNext(Restricted(front, inverse), front, inverse, indexes, i - 1, l);
    } else {
      RestrictsNothing(inverse, indexes);
    }
  }

  lemma RestrictsNothing(inverse: map<Literal, Literal>, indexes: map<Literal, nat>)
    ensures Restricts([], [], inverse, indexes, 0)
  {
  }

  /** The restriction of a complete order is a valid lookup order. */
  lemma RestrictedIsLookup(order: seq<Literal>, indexes: map<Literal, nat>, n: nat, inverse: map<Literal, Literal>,
                           mode: ValueMode)
    requires Indexed(order, indexes, n) && Complete(indexes, n) && ValidInverse(inverse, n)
    ensures ValidGenerator(
              Generator(inverse, VariablesOf(order), RanksOf(indexes, n), mode, Restricted(order, inverse)))
  {
    CompleteIsValid(order, indexes, n);
    RestrictedUpTo(order, inverse, indexes, n, |order|);
    assert order[..|order|] == order;
    var lookup, ranks := Restricted(order, inverse), RanksOf(indexes, n);
    forall k | 0 <= k < |lookup|
      ensures lookup[k].positive && lookup[k] in inverse && lookup[k].variable < n && lookup[k] in indexes
      ensures ranks[lookup[k].variable] == indexes[lookup[k]]
    {
      assert lookup[k] in lookup;
      var i :| 0 <= i < |order| && order[i] == lookup[k];
      assert lookup[k] == Literal(lookup[k].variable, true);
      RankIsIndex(order, indexes, n, lookup[k]);
    }
    forall v: nat | v < n && Moves(inverse, v) ensures Literal(v, true) in lookup {
      assert Listed(indexes, v);
      var i := indexes[Literal(v, true)];
      assert order[i] == Literal(v, true);
    }
  }

  /** The units the generators call for, one after the other. */
  function UnitList(gens: seq<Generator>): seq<Clause> {
    if gens == [] then []
    else
      var front, g := gens[..|gens| - 1], gens[|gens| - 1];
      UnitList(front) + if IsInverting(g, 0) then [InvertingUnit(g, 0)] else []
  }

  lemma {:induction false} UnitsListed(gens: seq<Generator>)
    ensures forall c :: c in UnitList(gens) <==> c in Units(gens)
  {
    if gens != [] {
      var front, g := gens[..|gens| - 1], gens[|gens| - 1];
      UnitsListed(front);
      assert gens == front + [g];
      forall c ensures c in Units(gens) <==> c in Units(front) || (IsInverting(g, 0) && c == InvertingUnit(g, 0)) {
        if i :| 0 <= i < |gens| && IsInverting(gens[i], 0) && c == InvertingUnit(gens[i], 0) {
          assert i < |front| ==> front[i] == gens[i];
        }
        if i :| 0 <= i < |front| && IsInverting(front[i], 0) && c == InvertingUnit(front[i], 0) {
          assert gens[i] == front[i];
        }
        if IsInverting(g, 0) {
          assert gens[|gens| - 1] == g;
        }
      }
    }
  }

  class CosyManager {
    const group: Group
    const assignment: Assignment
    const order: Order
    var statuses: seq<CosyStatus>

    /** One status for each generator, given the literals it moves in the global order. */
    constructor (group: Group, assignment: Assignment, order: Order)
      requires group.Valid() && order.Finished() && assignment.Valid()
      requires |assignment.bits| == 2 * order.numVars && |group.watchers| == order.numVars
      ensures this.group == group && this.assignment == assignment && this.order == order
      ensures Valid() && fresh(statuses)
      ensures forall i :: 0 <= i < |statuses| ==> Views()[i] == Status(0, [], ACTIVE)
    {
      this.group, this.assignment, this.order := group, assignment, order;
      statuses := [];
      new;
      hide Tables, Consistent, ValidGenerator, Indexed, Complete;
      CreateStatuses();
      FillLookups();
      forall i | 0 <= i < |statuses| ensures Views()[i] == Status(0, [], ACTIVE) {
        assert Views()[i] == statuses[i].View();
      }
    }

    /** Hands every literal of the order to the statuses that move it. */
    method FillLookups()
      requires Wired() && group.Valid() && assignment.Valid()
      requires |assignment.bits| == 2 * order.numVars && |group.watchers| == order.numVars
      requires forall s :: 0 <= s < |statuses| ==>
          statuses[s].View() == Status(0, [], ACTIVE) && statuses[s].lookupOrder == []
      modifies statuses
      ensures Valid()
      ensures forall s :: 0 <= s < |statuses| ==> statuses[s].View() == Status(0, [], ACTIVE)
    {
      hide Tables, Consistent, ValidGenerator, Indexed, Complete, Group.Valid, Assignment.Valid;
      var i := 0;
      while i < |order.order|
        invariant 0 <= i <= |order.order| && Wired() && group.Valid() && assignment.Valid()
        invariant forall s :: 0 <= s < |statuses| ==>
                    statuses[s].View() == Status(0, [], ACTIVE) &&
                    statuses[s].lookupOrder == Restricted(order.order[..i], statuses[s].permutation.inverse)
      {
        InRange(i);
        AddToWatchers(order.order[i]);
        assert order.order[..i + 1][..i] == order.order[..i];
        i := i + 1;
      }
      assert order.order[..i] == order.order;
      LookupsReady();
    }

    lemma InRange(i: nat)
      requires order.Valid() && i < |order.order|
      ensures order.order[i].variable < order.numVars
    {
    }

    lemma LookupsReady()
      requires Wired() && group.Valid() && assignment.Valid()
      requires |assignment.bits| == 2 * order.numVars && |group.watchers| == order.numVars
      requires forall s :: 0 <= s < |statuses| ==>
                 statuses[s].View() == Status(0, [], ACTIVE) &&
                 statuses[s].lookupOrder == Restricted(order.order, statuses[s].permutation.inverse)
      ensures forall s :: 0 <= s < |statuses| ==> statuses[s].Ready()
    {
      hide Tables, Consistent, ValidGenerator, Indexed, Complete, Assignment.Valid;
      forall s | 0 <= s < |statuses| ensures statuses[s].Ready() {
        ConsistentGivesInverse(group.permutations[s], |group.watchers|);
        RestrictedIsLookup(order.order, order.indexes, order.numVars, group.permutations[s].inverse, order.valueMode);
      }
    }

    method CreateStatuses()
      requires statuses == [] && group.Valid() && order.Finished() && assignment.Valid()
      requires |assignment.bits| == 2 * order.numVars && |group.watchers| == order.numVars
      modifies this
      ensures Wired() && fresh(statuses)
      ensures forall s :: 0 <= s < |statuses| ==>
          statuses[s].View() == Status(0, [], ACTIVE) && statuses[s].lookupOrder == []
    {
      hide Tables, Consistent, ValidGenerator, Indexed, Complete;
      var i := 0;
      while i < |group.permutations|
        invariant 0 <= i <= |group.permutations| && |statuses| == i && fresh(statuses)
        invariant forall s :: 0 <= s < i ==>
          statuses[s].permutation == group.permutations[s] && statuses[s].order == order &&
            statuses[s].assignment == assignment
        invariant forall j, k :: 0 <= j < k < |statuses| ==> statuses[j] != statuses[k]
        invariant forall s :: 0 <= s < i ==>
            statuses[s].View() == Status(0, [], ACTIVE) && statuses[s].lookupOrder == []
      {
        var status := new CosyStatus(group.permutations[i], order, assignment);
        statuses := statuses + [status];
        i := i + 1;
      }
    }

    /** The next literal of the order goes to every status that watches its variable. */
    method AddToWatchers(l: Literal)
      requires Wired() && group.Valid() && l.variable < |group.watchers|
      modifies statuses
      ensures Wired() && group.Valid()
      ensures forall s :: 0 <= s < |statuses| ==>
                statuses[s].View() == old(statuses[s].View()) &&
                statuses[s].lookupOrder ==
                  old(statuses[s].lookupOrder) + if Moves(statuses[s].permutation.inverse, l.variable) then [l] else []
    {
      hide Tables, Consistent, ValidGenerator, Indexed, Complete, Group.Valid, Order.Finished, Assignment.Valid;
      PermutationsMove(l.variable);
      var remaining := group.Watch(l.variable);
      while remaining != {}
        invariant Wired() && group.Valid() && remaining <= group.Watch(l.variable)
        invariant forall s :: 0 <= s < |statuses| ==>
                    statuses[s].View() == old(statuses[s].View()) &&
                    statuses[s].lookupOrder ==
                      old(statuses[s].lookupOrder) + if s in group.Watch(l.variable) - remaining then [l] else []
        decreases remaining
      {
        var index :| index in remaining;
        remaining := remaining - {index};
        statuses[index].AddLookupLiteral(l);
      }
    }

    lemma PermutationsMove(v: nat)
      requires group.Valid() && v < |group.watchers|
      ensures forall i: nat :: i in group.Watch(v) <==>
          i < |group.permutations| && Moves(group.permutations[i].inverse, v)
    {
      hide Tables, Consistent;
      forall i: nat ensures i in group.Watch(v) <==>
        i < |group.permutations| && Moves(group.permutations[i].inverse, v) {
        assert i in group.watchers[v] <==> i < |group.permutations| && MovesVariable(group.permutations[i].cycles, v);
        if i < |group.permutations| {
          ConsistentGivesInverse(group.permutations[i], |group.watchers|);
        }
      }
    }

    /** The statuses belong to the generators of the group, one each, and share the order. */
    ghost predicate Wired()
      reads this, group, order, group.permutations, statuses
    {
      order.Finished() && |statuses| == |group.permutations| &&
      (forall i :: 0 <= i < |statuses| ==>
         statuses[i].permutation == group.permutations[i] && statuses[i].order == order &&
           statuses[i].assignment == assignment) &&
      forall i, j :: 0 <= i < j < |statuses| ==> statuses[i] != statuses[j]
    }

    ghost predicate Valid()
      reads this, group, assignment, order, group.permutations, statuses
    {
      Wired() && group.Valid() && assignment.Valid() &&
      |assignment.bits| == 2 * order.numVars && |group.watchers| == order.numVars &&
      forall i :: 0 <= i < |statuses| ==> statuses[i].Ready()
    }

    ghost function Gens(): seq<Generator>
      requires Wired()
      reads this, group, order, group.permutations, statuses
    {
      seq(|statuses|, i requires 0 <= i < |statuses| &&
        Wired() reads this, group, order, group.permutations, statuses => statuses[i].Gen())
    }

    ghost function Views(): seq<Status>
      reads this, statuses
    {
      seq(|statuses|, i requires 0 <= i < |statuses| reads this, statuses => statuses[i].View())
    }

    /** The watch lists name the generators that move the variable. */
    lemma WatchersMove(v: nat)
      requires Valid() && v < order.numVars
      ensures group.Watch(v) == Watch(Gens(), v)
    {
      hide Tables, Consistent, ValidGenerator, Indexed, Complete;
      PermutationsMove(v);
      forall i: nat ensures i in group.Watch(v) <==> i in Watch(Gens(), v) {
        assert i < |statuses| ==> Gens()[i].inverse == group.permutations[i].inverse;
      }
    }

    /** Every watcher undoes what it did on the literal. */
    method UpdateCancel(l: Literal)
      requires Valid() && l.variable < order.numVars
      requires forall i :: 0 <= i < |Views()| ==> Cancelled(l.variable, Views()[i]).index <= |Gens()[i].lookup|
      modifies statuses
      ensures Valid() && Gens() == old(Gens())
      ensures |Views()| == |old(Views())| && forall i {:trigger Views()[i]} :: 0 <= i < |Views()| ==>
                Views()[i] == if i in Watch(Gens(), l.variable) then Cancelled(l.variable, old(Views())[i])
                              else old(Views())[i]
    {
      hide Tables, Consistent, ValidGenerator, Indexed, Complete, Group.Valid, Order.Finished, Assignment.Valid,
        Cancelled;
      WatchersMove(l.variable);
      var remaining := group.Watch(l.variable);
      while remaining != {}
        invariant Valid() && Gens() == old(Gens()) && remaining <= group.Watch(l.variable)
        invariant |Views()| == |old(Views())| && forall i {:trigger Views()[i]} :: 0 <= i < |Views()| ==>
                    Views()[i] == if i in group.Watch(l.variable) - remaining
                                  then Cancelled(l.variable, old(Views())[i])
                                  else old(Views())[i]
        decreases remaining
      {
        var index :| index in remaining;
        remaining := remaining - {index};
        CancelStatus(index, l);
      }
    }

    method CancelStatus(index: nat, l: Literal)
      requires Valid() && index < |statuses|
      requires Cancelled(l.variable, Views()[index]).index <= |Gens()[index].lookup|
      modifies statuses[index]
      ensures Valid() && Gens() == old(Gens())
      ensures Views() == old(Views())[index := Cancelled(l.variable, old(Views())[index])]
    {
      hide Tables, Consistent, ValidGenerator, Indexed, Complete, Group.Valid, Order.Finished, Assignment.Valid,
        Cancelled;
      assert statuses[index].Ready();
      statuses[index].UpdateCancel(l);
    }

    /** The unit clauses for generators that start with a pair x, not x. */
    method GenerateUnits(injector: ClauseInjector)
      requires Valid() && injector.Valid() && injector.Waiting(UNITS, NO_VARIABLE) == []
      requires forall i :: 0 <= i < |statuses| ==> Views()[i].index == 0
      modifies injector
      ensures Valid() && injector.Valid() && Gens() == old(Gens()) && Views() == old(Views())
      ensures injector.clauses[ESBP] == old(injector.clauses[ESBP])
      ensures injector.Waiting(UNITS, NO_VARIABLE) == UnitList(Gens())
      ensures forall c :: c in injector.Waiting(UNITS, NO_VARIABLE) <==> c in Units(Gens())
    {
      hide Tables, Consistent, ValidGenerator, Indexed, Complete, Group.Valid, Assignment.Valid;
      assert Gens()[..0] == [];
      var i := 0;
      while i < |statuses|
        invariant 0 <= i <= |statuses| && Valid() && injector.Valid() && Gens() == old(Gens())
        invariant Views() == old(Views())
        invariant injector.clauses[ESBP] == old(injector.clauses[ESBP])
        invariant injector.Waiting(UNITS, NO_VARIABLE) == UnitList(Gens()[..i])
      {
        assert Gens()[..i + 1][..i] == Gens()[..i];
        assert statuses[i].Ready() && Views()[i] == statuses[i].View() && Gens()[i] == statuses[i].Gen();
        statuses[i].GenerateUnitClauseOnInverting(injector);
        i := i + 1;
      }
      assert Gens()[..i] == Gens();
      UnitsListed(Gens());
    }

    /** One watcher hears of the literal. */
    method NotifyStatus(index: nat, l: Literal)
      requires Valid() && index < |statuses|
      modifies statuses[index]
      ensures Valid() && Gens() == old(Gens())
      ensures Gens()[index].order == VariablesOf(order.order) && ValidGenerator(Gens()[index])
      ensures old(Views())[index].index <= |Gens()[index].lookup|
      ensures Views() ==
                old(Views())[index := Notified(Gens()[index], assignment.Values(), l.variable, old(Views())[index])]
    {
      hide Tables, Consistent, ValidGenerator, Indexed, Complete, Notified, Group.Valid, Order.Finished,
        Assignment.Valid;
      assert statuses[index].Ready();
      statuses[index].UpdateNotify(l);
    }

    /** One more watcher is visited; if it reduces it stands at a differing pair. */
    method VisitStatus(index: nat, l: Literal, ghost visited: set<nat>, ghost before: seq<Status>)
      requires Valid() && index in Watch(Gens(), l.variable) && index !in visited
      requires Visited(Gens(), assignment.Values(), l.variable, visited, before, Views()) && Quiet(visited, Views())
      requires index < |before| && PairsAgree(Gens()[index], assignment.Values(), before[index].index)
      modifies statuses[index]
      ensures Valid() && Gens() == old(Gens()) && index < |statuses| == |Views()|
      ensures Visited(Gens(), assignment.Values(), l.variable, visited + {index}, before, Views())
      ensures Quiet(visited, Views())
      ensures Views()[index].state == statuses[index].state
      ensures Views()[index].state == REDUCER ==> DecidedAt(Gens()[index], assignment.Values(), Views()[index].index)
      ensures Views()[index].state != REDUCER ==> Quiet(visited + {index}, Views())
    {
      hide Tables, Consistent, ValidGenerator, Indexed, Complete, IsEsbp, DecidedAt, PairsAgree, Notified, Visited,
        Quiet, Group.Valid, Order.Finished, Assignment.Valid;
      ghost var gens, middle, p := Gens(), Views(), assignment.Values();
      NotifyStatus(index, l);
      VisitedNext(gens, p, l.variable, visited, before, middle, index);
      assert Views()[index] == statuses[index].View();
      if Views()[index].state == REDUCER {
        ReducerDecided(gens[index], p, l.variable, before[index]);
      } else {
        QuietNext(visited, middle, index, Views());
      }
    }

    /** The status at `index` stands at a differing pair and emits its clause. */
    method EmitFrom(index: nat, reason: nat, injector: ClauseInjector) returns (ghost c: Clause)
      requires Valid() && injector.Valid() && index < |statuses| && Views()[index].state == REDUCER
      requires DecidedAt(Gens()[index], assignment.Values(), Views()[index].index)
      requires reason in assignment.Values() && reason < order.numVars
      modifies injector
      ensures Valid() && injector.Valid() && Gens() == old(Gens()) && Views() == old(Views())
      ensures IsEsbp(Gens()[index], assignment.Values(), reason, Views()[index].index, c)
      ensures forall t :: t != ESBP ==> injector.clauses[t] == old(injector.clauses[t])
      ensures injector.clauses[ESBP] == if old(injector.Waiting(ESBP, reason)) == []
                                        then old(injector.clauses[ESBP])[reason := [c]] else old(injector.clauses[ESBP])
    {
      hide Tables, Consistent, ValidGenerator, Indexed, Complete, IsEsbp, DecidedAt, Group.Valid, Order.Finished,
        Assignment.Valid;
      assert statuses[index].Ready();
      c := statuses[index].GenerateESBP(reason, injector);
    }

    /** The watchers hear of the literal in any order; the first that reduces emits its
        clause and the rest are skipped.  `r` is the status that emitted, or -1. */
    method UpdateNotify(l: Literal, injector: ClauseInjector)
      returns (ghost visited: set<nat>, ghost r: int, ghost c: Clause)
      requires Valid() && injector.Valid() && l.variable < order.numVars && l.variable in assignment.Values()
      requires forall i :: 0 <= i < |Views()| ==> PairsAgree(Gens()[i], assignment.Values(), Views()[i].index)
      modifies statuses, injector
      ensures Valid() && injector.Valid() && Gens() == old(Gens())
      ensures Visited(Gens(), assignment.Values(), l.variable, visited, old(Views()), Views())
      ensures forall t :: t != ESBP ==> injector.clauses[t] == old(injector.clauses[t])
      ensures r < 0 ==> visited == Watch(Gens(), l.variable) && Quiet(visited, Views()) &&
                        injector.clauses[ESBP] == old(injector.clauses[ESBP])
      ensures 0 <= r ==> Emitted(Gens(), assignment.Values(), l.variable, visited, r, Views(), c)
      ensures 0 <= r ==> injector.clauses[ESBP] == if old(injector.Waiting(ESBP, l.variable)) == []
                                                   then old(injector.clauses[ESBP])[l.variable := [c]]
                                                   else old(injector.clauses[ESBP])
    {
      hide Tables, Consistent, ValidGenerator, Indexed, Complete, IsEsbp, DecidedAt, PairsAgree, Notified, Visited,
        Quiet, Emitted, Group.Valid, Order.Finished, Assignment.Valid, OnePerCause, CosyStatus.Ready,
        Moves;
      WatchersMove(l.variable);
      ghost var gens, before, p := Gens(), Views(), assignment.Values();
      visited, r, c := {}, -1, [];
      VisitedNone(gens, p, l.variable, before);
      var remaining := group.Watch(l.variable);
      while remaining != {}
        invariant Valid() && injector.Valid() && Gens() == gens && assignment.Values() == p
        invariant visited == Watch(gens, l.variable) - remaining && remaining <= Watch(gens, l.variable)
        invariant Visited(gens, p, l.variable, visited, before, Views()) && Quiet(visited, Views())
        invariant injector.clauses == old(injector.clauses)
        decreases remaining
      {
        var index :| index in remaining;
        remaining := remaining - {index};
        VisitStatus(index, l, visited, before);
        visited := visited + {index};
        if statuses[index].state == REDUCER {
          c := EmitFrom(index, l.variable, injector);
          r := index;
          IsEmitted(gens, p, l.variable, visited, index, Views(), c);
          return;
        }
      }
    }
  }

  /** The status `r`, visited last, reduces and `c` is its clause. */
  ghost predicate Emitted(gens: seq<Generator>, p: Partial, v: nat, visited: set<nat>, r: nat, after: seq<Status>,
                          c: Clause) {
    r in visited && visited <= Watch(gens, v) && r < |after| == |gens| &&
    Quiet(visited - {r}, after) && after[r].state == REDUCER && IsEsbp(gens[r], p, v, after[r].index, c)
  }

  lemma IsEmitted(gens: seq<Generator>, p: Partial, v: nat, visited: set<nat>, r: nat, after: seq<Status>, c: Clause)
    requires r in visited && visited <= Watch(gens, v) && r < |after| == |gens|
    requires Quiet(visited - {r}, after) && after[r].state == REDUCER && IsEsbp(gens[r], p, v, after[r].index, c)
    ensures Emitted(gens, p, v, visited, r, after, c)
  {
  }

  lemma VisitedNone(gens: seq<Generator>, p: Partial, v: nat, views: seq<Status>)
    requires |views| == |gens|
    ensures Visited(gens, p, v, {}, views, views) && Quiet({}, views)
  {
  }

  lemma VisitedNext(gens: seq<Generator>, p: Partial, v: nat, visited: set<nat>, before: seq<Status>,
                    middle: seq<Status>, index: nat)
    requires Visited(gens, p, v, visited, before, middle) && index < |gens| && index !in visited
    requires ValidGenerator(gens[index]) && middle[index].index <= |gens[index].lookup|
    ensures before[index] == middle[index]
    ensures Visited(gens, p, v, visited + {index}, before, middle[index := Notified(gens[index], p, v, middle[index])])
    ensures Quiet(visited, middle) ==> Quiet(visited, middle[index := Notified(gens[index], p, v, middle[index])])
  {
    hide ValidGenerator, Notified;
    var after := middle[index := Notified(gens[index], p, v, middle[index])];
    assert middle[index] == before[index];
    forall i | 0 <= i < |gens|
      ensures if i in visited + {index}
              then ValidGenerator(gens[i]) && before[i].index <= |gens[i].lookup| &&
                after[i] == Notified(gens[i], p, v, before[i])
              else after[i] == before[i]
    {
      assert after[i] == if i == index then Notified(gens[index], p, v, middle[index]) else middle[i];
    }
  }

  lemma QuietNext(visited: set<nat>, before: seq<Status>, index: nat, after: seq<Status>)
    requires |after| == |before| && index < |after| && after == before[index := after[index]] && index !in visited
    requires Quiet(visited, before) && after[index].state != REDUCER
    ensures Quiet(visited + {index}, after)
  {
  }

  lemma ReducerDecided(g: Generator, p: Partial, v: nat, s: Status)
    requires ValidGenerator(g) && s.index <= |g.lookup| && PairsAgree(g, p, s.index)
    requires Notified(g, p, v, s).state == REDUCER
    ensures DecidedAt(g, p, Notified(g, p, v, s).index)
  {
  }
}
