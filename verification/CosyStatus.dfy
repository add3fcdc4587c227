/** The status of one generator, as the object the manager updates. */
module CosyStatuses {
  import opened Logic
  import opened LexLeader
  import opened Lookup
  import opened Soundness
  import opened Permutations
  import opened Assignments
  import opened Orders
  import opened Injection

  lemma WalkUnique(g: Generator, p: Partial, i: nat, k: nat)
    requires i <= |g.lookup| && StopsAt(g, p, i, k)
    ensures Walk(g, p, i) == k
  {
    var w := Walk(g, p, i);
    assert w < k ==> PairAgrees(g, p, w);
    assert k < w ==> PairAgrees(g, p, k);
  }

  /** The clause under construction after the first `n` pairs: the literals that forbid the
      reason and those pairs, each once, the reason and the first other variable in front. */
  ghost predicate Collects(g: Generator, p: Partial, reason: nat, k: nat, n: nat, literals: Clause,
                           used: set<Literal>) {
    NoRepeats(literals) && (forall l :: l in literals <==> l in used) &&
    literals != [] && literals[0].variable == reason &&
    (if |literals| > 1 then literals[1].variable == FirstOther(g, reason) && n > 0
     else n > 0 ==> FirstOther(g, reason) == reason) &&
    forall l :: l in used <==>
      l.variable in p && l == FalseLiteral(p, l.variable) &&
      (l.variable == reason || exists i :: i < n && InPair(g, i, k, l.variable))
  }

  lemma PairAssigned(g: Generator, p: Partial, k: nat, i: nat)
    requires DecidedAt(g, p, k) && i <= k
    ensures g.lookup[i] in g.inverse && g.lookup[i].variable in p && g.inverse[g.lookup[i]].variable in p
    ensures k < |g.lookup|
  {
    assert i < k ==> PairAgrees(g, p, i);
  }

  lemma CollectNone(g: Generator, p: Partial, reason: nat, k: nat)
    requires reason in p
    ensures Collects(g, p, reason, k, 0, [FalseLiteral(p, reason)], {FalseLiteral(p, reason)})
  {
  }

  /** Beyond the first pair the walk gets only if its two variables differ. */
  lemma FirstDiffers(g: Generator, p: Partial, reason: nat, k: nat)
    requires ValidGenerator(g) && DecidedAt(g, p, k)
    ensures k > 0 ==> FirstOther(g, reason) != reason
    ensures FirstOther(g, reason) == reason <==> IsInverting(g, 0) && g.lookup[0].variable == reason
  {
    assert k > 0 ==> PairAgrees(g, p, 0);
  }

  function With(literals: Clause, l: Literal): Clause { if l in literals then literals else literals + [l] }

  lemma CollectPair(g: Generator, p: Partial, reason: nat, k: nat, n: nat, literals: Clause, used: set<Literal>)
    requires Collects(g, p, reason, k, n, literals, used) && n <= k && n < |g.lookup| && g.lookup[n] in g.inverse
    requires g.lookup[n].variable in p && g.inverse[g.lookup[n]].variable in p
    requires n > 0 ==> FirstOther(g, reason) != reason
    ensures var a, b := FalseLiteral(p, g.lookup[n].variable), FalseLiteral(p, g.inverse[g.lookup[n]].variable);
            (a in used <==> a in literals) && (b in used + {a} <==> b in With(literals, a)) &&
            Collects(g, p, reason, k, n + 1, With(With(literals, a), b), used + {a} + {b})
  {
    var a, b := FalseLiteral(p, g.lookup[n].variable), FalseLiteral(p, g.inverse[g.lookup[n]].variable);
    assert InPair(g, n, k, a.variable) && InPair(g, n, k, b.variable);
    forall l ensures l in used + {a} + {b} <==>
        l.variable in p && l == FalseLiteral(p, l.variable) &&
        (l.variable == reason || exists i :: i < n + 1 && InPair(g, i, k, l.variable))
    {
    }
  }

  /** One `insert` into the set of used literals, and a push if it was new. */
  method PushUnused(literals: Clause, used: set<Literal>, l: Literal) returns (more: Clause, grown: set<Literal>)
    requires l in used <==> l in literals
    ensures more == With(literals, l) && grown == used + {l}
  {
    more, grown := literals, used + {l};
    if l !in used {
      more := literals + [l];
    }
  }

  lemma CollectedAll(g: Generator, p: Partial, reason: nat, k: nat, literals: Clause, used: set<Literal>)
    requires Collects(g, p, reason, k, k + 1, literals, used) && reason in p
    ensures IsEsbp(g, p, reason, k, if |literals| >= 2 then literals[0 := literals[1]][1 := literals[0]] else literals)
  {
    var c := if |literals| >= 2 then literals[0 := literals[1]][1 := literals[0]] else literals;
    forall l ensures l in c <==> l in literals {
      if l in literals {
        var i :| 0 <= i < |literals| && literals[i] == l;
        assert c[if |literals| >= 2 && i < 2 then 1 - i else i] == l;
      }
    }
    forall l ensures l in c <==> Forbids(g, p, reason, k, l) {
      if i :| InPair(g, i, k, l.variable) {
        assert i < k + 1;
      }
    }
  }

  class CosyStatus {
    const permutation: Permutation
    const order: Order
    const assignment: Assignment
    var lookupIndex: nat
    var lookupOrder: seq<Literal>
    var lookupInfos: seq<LookupInfo>
    var state: CosyState

    constructor (permutation: Permutation, order: Order, assignment: Assignment)
      ensures this.permutation == permutation && this.order == order && this.assignment == assignment
      ensures View() == Status(0, [], ACTIVE) && lookupOrder == []
    {
      this.permutation, this.order, this.assignment := permutation, order, assignment;
      lookupIndex, lookupOrder, lookupInfos, state := 0, [], [], ACTIVE;
    }

    ghost function View(): Status
      reads this
    {
      Status(lookupIndex, lookupInfos, state)
    }

    ghost function Gen(): Generator
      requires Complete(order.indexes, order.numVars)
      reads this, permutation, order
    {
      Generator(permutation.inverse, VariablesOf(order.order), RanksOf(order.indexes, order.numVars),
                order.valueMode, lookupOrder)
    }

    /** The status is set up: its lookup order is the order restricted to its generator. */
    ghost predicate Ready()
      reads this, permutation, order, assignment
    {
      order.Finished() && ValidGenerator(Gen()) && assignment.Valid() && |assignment.bits| == 2 * order.numVars &&
      lookupIndex <= |lookupOrder|
    }

    method AddLookupLiteral(l: Literal)
      modifies this`lookupOrder
      ensures lookupOrder == old(lookupOrder) + [l]
    {
      lookupOrder := lookupOrder + [l];
    }

    predicate IsLookupEnd()
      reads this
    {
      lookupIndex >= |lookupOrder|
    }

    lemma Usable()
      requires Ready()
      ensures assignment.Valid() && |assignment.bits| == 2 * order.numVars && lookupIndex <= |lookupOrder|
      ensures Complete(order.indexes, order.numVars)
    {
    }

    lemma ReadyGen()
      requires Ready()
      ensures ValidGenerator(Gen())
    {
    }

    /** What the walk reads at position `k`. */
    lemma AtPair(k: nat)
      requires Ready() && k < |lookupOrder|
      ensures lookupOrder[k] in permutation.inverse
      ensures var element, inverse := lookupOrder[k], permutation.inverse[lookupOrder[k]];
              assignment.InRange(element) && assignment.InRange(inverse) &&
              element in order.indexes && inverse in order.indexes &&
              element.variable < |Gen().ranks| && inverse.variable < |Gen().ranks| &&
              order.Leq(element, inverse) == Gen().Leq(element, inverse) &&
              (PairAgrees(Gen(), assignment.Values(), k) <==> assignment.HasSameAssignmentValue(element, inverse))
    {
      CompleteIsValid(order.order, order.indexes, order.numVars);
      var element, inverse := lookupOrder[k], permutation.inverse[lookupOrder[k]];
      RankIsIndex(order.order, order.indexes, order.numVars, element);
      RankIsIndex(order.order, order.indexes, order.numVars, inverse);
    }

    method UpdateNotify(l: Literal)
      requires Ready()
      modifies this`lookupIndex, this`lookupInfos, this`state
      ensures View() == Notified(old(Gen()), assignment.Values(), l.variable, old(View()))
      ensures Ready() && Gen() == old(Gen())
    {
      hide ValidGenerator, ValidOrder, Complete, Indexed;
      ghost var g, p := Gen(), assignment.Values();
      var initial := lookupIndex;
      while lookupIndex < |lookupOrder|
        invariant initial <= lookupIndex <= |lookupOrder| && Ready() && Gen() == g
        invariant forall j :: initial <= j < lookupIndex ==> PairAgrees(g, p, j)
        invariant lookupInfos == Pushed(old(View()), l.variable, lookupIndex)
      {
        AtPair(lookupIndex);
        var element := lookupOrder[lookupIndex];
        var inverse := permutation.inverse[element];
        if !assignment.HasSameAssignmentValue(element, inverse) {
          break;
        }
        if lookupIndex == initial {
          lookupInfos := lookupInfos + [LookupInfo(l.variable, lookupIndex)];
        }
        lookupIndex := lookupIndex + 1;
      }
      WalkUnique(g, p, initial, lookupIndex);
      UpdateState();
    }

    method UpdateState()
      requires Ready()
      modifies this`state
      ensures Ready() && Gen() == old(Gen())
      ensures state == Verdict(Gen(), assignment.Values(), lookupIndex)
    {
      hide ValidGenerator, ValidOrder, Complete, Indexed;
      if IsLookupEnd() {
        state := ACTIVE;
        return;
      }
      AtPair(lookupIndex);
      var element := lookupOrder[lookupIndex];
      var inverse := permutation.inverse[element];
      var minimal := order.Leq(element, inverse);
      var maximal := if minimal == element then inverse else element;
      if assignment.BothLiteralsAreAssigned(element, inverse) {
        if order.IsMinimalValue(minimal, assignment) {
          state := INACTIVE;
        } else {
          state := REDUCER;
        }
      } else if (!assignment.LiteralIsAssigned(minimal) && order.IsMinimalValue(maximal, assignment)) ||
                (!assignment.LiteralIsAssigned(maximal) && order.IsMaximalValue(minimal, assignment)) {
        state := FORCE_LEX_LEADER;
      } else {
        state := ACTIVE;
      }
    }

    method GenerateUnitClauseOnInverting(injector: ClauseInjector)
      requires Ready() && injector.Valid()
      modifies injector
      ensures injector.Valid() && injector.clauses[ESBP] == old(injector.clauses[ESBP])
      ensures injector.Waiting(UNITS, NO_VARIABLE) == old(injector.Waiting(UNITS, NO_VARIABLE)) +
                if IsInverting(Gen(), lookupIndex) then [InvertingUnit(Gen(), lookupIndex)] else []
    {
      hide ValidGenerator, ValidOrder, Complete, Indexed;
      if IsLookupEnd() {
        return;
      }
      AtPair(lookupIndex);
      var element := lookupOrder[lookupIndex];
      var inverse := permutation.inverse[element];
      if element != inverse.Negated() {
        return;
      }
      var unit := Literal(element.variable, order.valueMode == TRUE_LESS_FALSE);
      injector.AddClause(UNITS, NO_VARIABLE, [unit]);
    }

    /** The false literals of pair `i`, if they are new. */
    method CollectPairAt(i: nat, ghost reason: nat, literals: Clause, used: set<Literal>)
      returns (more: Clause, grown: set<Literal>)
      requires Ready() && DecidedAt(Gen(), assignment.Values(), lookupIndex) && i <= lookupIndex
      requires Collects(Gen(), assignment.Values(), reason, lookupIndex, i, literals, used)
      ensures Collects(Gen(), assignment.Values(), reason, lookupIndex, i + 1, more, grown)
    {
      hide ValidGenerator, ValidOrder, Complete, Indexed, Collects, DecidedAt, Assignment.Valid, PairAgrees,
        CosyStatus.Ready, Order.Finished;
      Usable();
      ghost var g, p := Gen(), assignment.Values();
      PairAssigned(g, p, lookupIndex, i);
      AtPair(i);
      ReadyGen();
      FirstDiffers(g, p, reason, lookupIndex);
      var element := lookupOrder[i];
      var inverse := permutation.inverse[element];
      CollectPair(g, p, reason, lookupIndex, i, literals, used);
      var l := assignment.GetFalseLiteralForAssignedVariable(element.variable);
      more, grown := PushUnused(literals, used, l);
      l := assignment.GetFalseLiteralForAssignedVariable(inverse.variable);
      more, grown := PushUnused(more, grown, l);
    }

    /** The clause forbids the values of the reason and of all pairs up to the lookup index.
        For a single literal the source's swap would reach past the end; see `EsbpSize`. */
    method CollectESBP(reason: nat) returns (literals: Clause)
      requires Ready() && DecidedAt(Gen(), assignment.Values(), lookupIndex)
      requires reason in assignment.Values() && reason < order.numVars
      ensures IsEsbp(Gen(), assignment.Values(), reason, lookupIndex, literals)
    {
      hide ValidGenerator, ValidOrder, Complete, Indexed, Collects, IsEsbp, DecidedAt, Assignment.Valid, PairAgrees,
        CosyStatus.Ready, Order.Finished;
      Usable();
      ghost var g, p := Gen(), assignment.Values();
      var l := assignment.GetFalseLiteralForAssignedVariable(reason);
      var used := {l};
      literals := [l];
      CollectNone(g, p, reason, lookupIndex);
      var i := 0;
      while i <= lookupIndex
        invariant 0 <= i <= lookupIndex + 1
        invariant Collects(g, p, reason, lookupIndex, i, literals, used)
      {
        literals, used := CollectPairAt(i, reason, literals, used);
        i := i + 1;
      }
      CollectedAll(g, p, reason, lookupIndex, literals, used);
      if |literals| >= 2 {
        literals := literals[0 := literals[1]][1 := literals[0]];
      }
    }

    method GenerateESBP(reason: nat, injector: ClauseInjector) returns (ghost c: Clause)
      requires Ready() && injector.Valid() && state == REDUCER
      requires DecidedAt(Gen(), assignment.Values(), lookupIndex)
      requires reason in assignment.Values() && reason < order.numVars
      modifies injector
      ensures injector.Valid() && IsEsbp(Gen(), assignment.Values(), reason, lookupIndex, c)
      ensures forall t :: t != ESBP ==> injector.clauses[t] == old(injector.clauses[t])
      ensures injector.clauses[ESBP] == if old(injector.Waiting(ESBP, reason)) == []
                                        then old(injector.clauses[ESBP])[reason := [c]] else old(injector.clauses[ESBP])
    {
      hide ValidGenerator, ValidOrder, Complete, Indexed, DecidedAt, IsEsbp;
      var literals := CollectESBP(reason);
      c := literals;
      assert injector.Waiting(ESBP, reason) == [] ==> injector.Waiting(ESBP, reason) + [literals] == [literals];
      injector.AddClause(ESBP, reason, literals);
    }

    method UpdateCancel(l: Literal)
      modifies this`lookupIndex, this`lookupInfos
      ensures View() == Cancelled(l.variable, old(View()))
    {
      if |lookupInfos| == 0 {
        return;
      }
      var lookup := lookupInfos[|lookupInfos| - 1];
      if lookup.variable != l.variable {
        return;
      }
      lookupIndex := lookup.backIndex;
      lookupInfos := lookupInfos[..|lookupInfos| - 1];
    }
  }

  lemma RankIsIndex(order: seq<Literal>, indexes: map<Literal, nat>, n: nat, l: Literal)
    requires Indexed(order, indexes, n) && Complete(indexes, n) && l.variable < n
    ensures l in indexes && RanksOf(indexes, n)[l.variable] == indexes[l]
  {
    assert Listed(indexes, l.variable);
    var positive := Literal(l.variable, true);
    assert order[indexes[positive]].variable == l.variable;
  }
}
