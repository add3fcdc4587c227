/** The variable orders.  Each constructor lists every variable once, as a positive literal. */
module Orders {
  import opened Logic
  import opened LexLeader
  import opened Lookup
  import opened Assignments
  import opened Permutations
  import opened Groups
  import opened Picking
  import opened Rarity
  import P = OrbitPartition

  /** Positions of an order and of the literals of its variables. */
  ghost predicate Indexed(order: seq<Literal>, indexes: map<Literal, nat>, n: nat) {
    (forall i :: 0 <= i < |order| ==> order[i].positive && order[i].variable < n) &&
    (forall i, l: Literal {:trigger order[i], l in indexes} :: 0 <= i < |order| && l.variable == order[i].variable ==>
       l in indexes && indexes[l] == i) &&
    (forall l :: l in indexes ==> indexes[l] < |order| && order[indexes[l]].variable == l.variable)
  }

  predicate Listed(indexes: map<Literal, nat>, v: nat) { Literal(v, true) in indexes }

  ghost predicate Complete(indexes: map<Literal, nat>, n: nat) {
    forall v: nat {:trigger Listed(indexes, v)} :: v < n ==> Listed(indexes, v)
  }

  function VariablesOf(order: seq<Literal>): seq<nat> { seq(|order|, i requires 0 <= i < |order| => order[i].variable) }

  ghost function RanksOf(indexes: map<Literal, nat>, n: nat): seq<nat>
    requires Complete(indexes, n)
  {
    seq(n, (v: nat) requires v < n => assert Listed(indexes, v); indexes[Literal(v, true)])
  }

  lemma IndexedAdd(order: seq<Literal>, indexes: map<Literal, nat>, n: nat, l: Literal)
    requires Indexed(order, indexes, n) && l !in indexes && l.positive && l.variable < n
    ensures Indexed(order + [l], indexes[l := |order|][l.Negated() := |order|], n)
  {
    var longer, more := order + [l], indexes[l := |order|][l.Negated() := |order|];
    forall i, k: Literal | 0 <= i < |longer| && k.variable == longer[i].variable ensures k in more && more[k] == i {
      if i < |order| {
        assert longer[i] == order[i];
        assert k in indexes;
        assert l.variable == order[i].variable ==> l in indexes;
      } else {
        assert k == l || k == l.Negated();
      }
    }
    forall k | k in more ensures more[k] < |longer| && longer[more[k]].variable == k.variable {
      assert k != l && k != l.Negated() ==> k in indexes;
    }
  }

  lemma NotListed(order: seq<Literal>, indexes: map<Literal, nat>, n: nat, l: Literal)
    requires Indexed(order, indexes, n) && forall i :: 0 <= i < |order| ==> order[i].variable != l.variable
    ensures l !in indexes
  {
  }

  lemma {:induction false} DistinctBelow(s: seq<nat>, n: nat)
    requires NoRepeats(s) && forall i :: 0 <= i < |s| ==> s[i] < n
    ensures |s| <= n
  {
    if s == [] {
    } else if exists i :: 0 <= i < |s| && s[i] == n - 1 {
      var i :| 0 <= i < |s| && s[i] == n - 1;
      DistinctBelow(s[..i] + s[i + 1..], n - 1);
    } else {
      assert s[0] < n;
      DistinctBelow(s, n - 1);
    }
  }

  /** A complete order is a permutation of the variables and its ranks are the inverse. */
  lemma CompleteIsValid(order: seq<Literal>, indexes: map<Literal, nat>, n: nat)
    requires Indexed(order, indexes, n) && Complete(indexes, n)
    ensures ValidOrder(VariablesOf(order), RanksOf(indexes, n)) && |order| == n
  {
    var vs, ranks := VariablesOf(order), RanksOf(indexes, n);
    forall v | 0 <= v < n ensures ranks[v] < |order| && vs[ranks[v]] == v {
      assert Listed(indexes, v);
    }
    forall i, v | 0 <= i < |vs| && 0 <= v < n ensures vs[i] == v <==> ranks[v] == i {
      assert Listed(indexes, v);
      assert Literal(v, true) in indexes;
      assert order[i].variable == vs[i];
    }
    assert NoRepeats(vs) by {
      forall i, j | 0 <= i < j < |vs| ensures vs[i] != vs[j] {
        assert ranks[vs[i]] == i;
      }
    }
    DistinctBelow(vs, n);
    DistinctBelow(ranks, |order|);
  }

  lemma {:induction false} IncreasingFrom(vs: seq<nat>, i: nat)
    requires i < |vs| && forall j, k :: 0 <= j < k < |vs| ==> vs[j] < vs[k]
    ensures vs[i] >= i
  {
    if i > 0 { IncreasingFrom(vs, i - 1); }
  }

  lemma {:induction false} IncreasingTo(vs: seq<nat>, i: nat)
    requires i < |vs| && forall j, k :: 0 <= j < k < |vs| ==> vs[j] < vs[k]
    requires forall j :: 0 <= j < |vs| ==> vs[j] < |vs|
    ensures vs[i] <= i
    decreases |vs| - i
  {
    if i + 1 < |vs| { IncreasingTo(vs, i + 1); }
  }

  /** The strict order behind the occurrence mode: more occurrences first, then the smaller index. */
  predicate OrderLt(occurrences: seq<int>, i: nat, j: nat)
    requires i < |occurrences| && j < |occurrences|
  {
    if occurrences[i] != occurrences[j] then occurrences[i] > occurrences[j] else i < j
  }

  ghost predicate SortedBy(occurrences: seq<int>, s: seq<nat>) {
    (forall i :: 0 <= i < |s| ==> s[i] < |occurrences|) &&
    forall i, j :: 0 <= i < j < |s| ==>
      occurrences[s[i]] >= occurrences[s[j]] && (occurrences[s[i]] == occurrences[s[j]] ==> s[i] < s[j])
  }

  class Order {
    const numVars: nat
    const valueMode: ValueMode
    var order: seq<Literal>
    var indexes: map<Literal, nat>

    ghost predicate Valid()
      reads this
    {
      Indexed(order, indexes, numVars)
    }

    ghost predicate Finished()
      reads this
    {
      Valid() && Complete(indexes, numVars)
    }

    predicate Contains(l: Literal)
      reads this
    {
      l in indexes
    }

    /** The earlier of two literals; on the two literals of one variable, the first argument. */
    function Leq(a: Literal, b: Literal): (r: Literal)
      requires a in indexes && b in indexes
      reads this
      ensures r in {a, b} && indexes[r] <= indexes[a] && indexes[r] <= indexes[b]
      ensures indexes[a] == indexes[b] ==> r == a
    {
      if indexes[a] <= indexes[b] then a else b
    }

    predicate IsMinimalValue(l: Literal, assignment: Assignment)
      requires assignment.InRange(l)
      reads this, assignment
      ensures assignment.Valid() ==>
                (IsMinimalValue(l, assignment) <==>
                 l.variable in assignment.Values() &&
                   (assignment.Values()[l.variable] == l.positive) == Minimal(valueMode))
    {
      (valueMode == TRUE_LESS_FALSE && assignment.LiteralIsTrue(l)) ||
      (valueMode == FALSE_LESS_TRUE && assignment.LiteralIsFalse(l))
    }

    predicate IsMaximalValue(l: Literal, assignment: Assignment)
      requires assignment.InRange(l)
      reads this, assignment
      ensures assignment.Valid() ==>
                (IsMaximalValue(l, assignment) <==>
                 l.variable in assignment.Values() &&
                   (assignment.Values()[l.variable] == l.positive) != Minimal(valueMode))
    {
      (valueMode == FALSE_LESS_TRUE && assignment.LiteralIsTrue(l)) ||
      (valueMode == TRUE_LESS_FALSE && assignment.LiteralIsFalse(l))
    }

    method Add(l: Literal)
      requires Valid() && !Contains(l) && l.positive && l.variable < numVars
      modifies this
      ensures Valid() && order == old(order) + [l]
      ensures indexes == old(indexes)[l := |old(order)|][l.Negated() := |old(order)|]
    {
      IndexedAdd(order, indexes, numVars, l);
      indexes := indexes[l := |order|][l.Negated() := |order|];
      order := order + [l];
    }

    /** Adds the variables not yet listed, in increasing order. */
    method CompleteOrder()
      requires Valid()
      modifies this
      ensures Finished() && old(order) <= order
      ensures forall i, j :: |old(order)| <= i < j < |order| ==> order[i].variable < order[j].variable
    {
      var v := 0;
      while v < numVars
        invariant 0 <= v <= numVars && Valid() && old(order) <= order
        invariant forall u: nat {:trigger Listed(indexes, u)} :: u < v ==> Listed(indexes, u)
        invariant forall i :: |old(order)| <= i < |order| ==> order[i].variable < v
        invariant forall i, j :: |old(order)| <= i < j < |order| ==> order[i].variable < order[j].variable
      {
        var l := Literal(v, true);
        if !Contains(l) {
          ghost var before := indexes;
          Add(l);
          assert forall u: nat {:trigger Listed(indexes, u)} :: Listed(before, u) ==> Listed(indexes, u);
        }
        assert Listed(indexes, v);
        v := v + 1;
      }
    }

    constructor Increase(numVars: nat, mode: ValueMode)
      ensures Finished() && this.numVars == numVars && valueMode == mode
      ensures forall i :: 0 <= i < |order| ==> order[i].variable == i
    {
      this.numVars, valueMode := numVars, mode;
      order, indexes := [], map[];
      new;
      CompleteOrder();
      CompleteIsValid(order, indexes, numVars);
      forall i | 0 <= i < |order| ensures order[i].variable == i {
        IncreasingFrom(VariablesOf(order), i);
        IncreasingTo(VariablesOf(order), i);
      }
    }

    /** Greedy: repeatedly list a variable that a remaining generator moves and drop the
        generators that move it.  Which such variable the source prefers is a heuristic. */
    constructor BreakID(numVars: nat, mode: ValueMode, group: Group)
      requires group.Valid() && |group.watchers| <= numVars
      ensures Finished() && this.numVars == numVars && valueMode == mode
      ensures exists n :: 0 <= n <= |order| && Greedy(group.permutations, order[..n]) && Rising(order[n..]) &&
                          RarestFirst(P.Images(group.permutations), order[..n])
    {
      this.numVars, valueMode := numVars, mode;
      order, indexes := [], map[];
      new;
      assert Valid();
      hide Greedy, RarestFirst, P.Images, Indexed, Complete, Group.Valid, Rising;
      ListAll(group);
    }

    /** The moved variables, then the others. */
    method ListAll(group: Group)
      requires Valid() && order == [] && group.Valid() && |group.watchers| <= numVars
      modifies this
      ensures Finished()
      ensures exists n :: 0 <= n <= |order| && Greedy(group.permutations, order[..n]) && Rising(order[n..]) &&
                          RarestFirst(P.Images(group.permutations), order[..n])
    {
      hide Greedy, RarestFirst, P.Images, Indexed, Complete, Group.Valid, Rising;
      AddMoved(group);
      ghost var listed := order;
      CompleteOrder();
      FirstListed(group.permutations, P.Images(group.permutations), listed, order);
    }

    /** The greedy loop of the BreakID order. */
    method AddMoved(group: Group)
      requires Valid() && order == [] && group.Valid() && |group.watchers| <= numVars
      modifies this
      ensures Valid() && Greedy(group.permutations, order) && RarestFirst(P.Images(group.permutations), order)
    {
      hide Tables, Consistent, Indexed, Complete, Group.Valid, Group.Kept, AllMoved, EachNeeded, RarestFirst, RarestIn,
        P.Images, Remaining, MovedVariables, LeftAlone, AllKept, Leaving;
      var q := group.permutations;
      NothingListed(q);
      NothingRarest(P.Images(q));
      while |q| > 0
        invariant Valid() && group.Valid()
        invariant forall p :: p in q ==> p in group.permutations
        invariant LeftAlone(q, order)
        invariant AllMoved(group.permutations, q, order) && EachNeeded(group.permutations, order)
        invariant RarestFirst(P.Images(group.permutations), order)
        invariant P.Images(q) == Remaining(P.Images(group.permutations), order)
        decreases |q|
      {
        KeptOnes(group, q);
        var next := NextVariable(q, |group.watchers|);
        var literal := Literal(next.variable, true);
        MovedIsNew(group, q, order, indexes, numVars, literal);
        ghost var before := q;
        NeededNext(group.permutations, q, order, literal);
        RarestNext(P.Images(group.permutations), order, literal);
        q := WithoutMovers(q, literal);
        MovedNext(group.permutations, before, q, order, literal);
        Add(literal);
      }
    }

    /** More frequent variables first; the library sort is an insertion sort here. */
    constructor Occurrence(numVars: nat, mode: ValueMode, occurrences: seq<int>)
      requires numVars <= |occurrences|
      ensures Finished() && this.numVars == numVars && valueMode == mode
      ensures SortedBy(occurrences, VariablesOf(order))
    {
      this.numVars, valueMode := numVars, mode;
      order, indexes := [], map[];
      new;
      var sorted := SortVariables(numVars, occurrences);
      AddAll(sorted);
    }

    method AddAll(sorted: seq<nat>)
      requires Valid() && order == [] && NoRepeats(sorted) && forall v: nat :: v in sorted <==> v < numVars
      modifies this
      ensures Finished() && VariablesOf(order) == sorted
    {
      hide Indexed;
      var i := 0;
      while i < |sorted|
        invariant 0 <= i <= |sorted| && Valid() && VariablesOf(order) == sorted[..i]
        invariant forall v: nat {:trigger Listed(indexes, v)} :: v in sorted[..i] ==> Listed(indexes, v)
      {
        ghost var before := indexes;
        assert sorted[i] in sorted;
        assert forall m :: 0 <= m < |order| ==> order[m].variable == VariablesOf(order)[m] != sorted[i];
        NotListed(order, indexes, numVars, Literal(sorted[i], true));
        Add(Literal(sorted[i], true));
        assert sorted[..i + 1] == sorted[..i] + [sorted[i]];
        assert forall v: nat {:trigger Listed(indexes, v)} :: Listed(before, v) ==> Listed(indexes, v);
        i := i + 1;
      }
      assert sorted[..i] == sorted;
    }
  }

  ghost predicate MovedBy(p: Permutation, order: seq<Literal>)
    reads p
  {
    exists i :: 0 <= i < |order| && order[i] in p.image
  }

  /** Every generator remains or moves something listed. */
  ghost predicate AllMoved(ps: seq<Permutation>, q: seq<Permutation>, order: seq<Literal>)
    reads ps
  {
    forall p :: p in ps && p !in q ==> MovedBy(p, order)
  }

  ghost predicate NeededAt(ps: seq<Permutation>, order: seq<Literal>, i: nat)
    requires i < |order|
    reads ps
  {
    exists p :: p in ps && order[i] in p.image && forall j :: 0 <= j < i ==> order[j] !in p.image
  }

  /** Every listed literal is the first one that some generator moves. */
  ghost predicate EachNeeded(ps: seq<Permutation>, order: seq<Literal>)
    reads ps
  {
    forall i :: 0 <= i < |order| ==> NeededAt(ps, order, i)
  }

  /** What the greedy choice lists: every generator moves one of these literals, and each of them is
      the first that some generator moves. */
  ghost predicate Greedy(ps: seq<Permutation>, order: seq<Literal>)
    reads ps
  {
    AllMoved(ps, [], order) && EachNeeded(ps, order)
  }

  ghost predicate Rising(order: seq<Literal>) {
    forall i, j :: 0 <= i < j < |order| ==> order[i].variable < order[j].variable
  }

  lemma NothingRarest(images: seq<Image>)
    ensures RarestFirst(images, []) && Remaining(images, []) == images
  {
  }

  lemma FirstListed(ps: seq<Permutation>, images: seq<Image>, listed: seq<Literal>, order: seq<Literal>)
    requires Greedy(ps, listed) && RarestFirst(images, listed) && listed <= order
    requires forall i, j :: |listed| <= i < j < |order| ==> order[i].variable < order[j].variable
    ensures exists n :: 0 <= n <= |order| && Greedy(ps, order[..n]) && Rising(order[n..]) &&
                        RarestFirst(images, order[..n])
  {
    hide Greedy, RarestFirst;
    assert order[..|listed|] == listed && Rising(order[|listed|..]);
  }

  lemma NothingListed(ps: seq<Permutation>)
    ensures AllMoved(ps, ps, []) && EachNeeded(ps, []) && LeftAlone(ps, [])
  {
  }

  lemma NeededNext(ps: seq<Permutation>, q: seq<Permutation>, order: seq<Literal>, l: Literal)
    requires EachNeeded(ps, order) && LeftAlone(q, order) && forall p :: p in q ==> p in ps
    requires exists p :: p in q && l in p.image
    ensures EachNeeded(ps, order + [l])
  {
    var more := order + [l];
    forall i | 0 <= i < |more| ensures NeededAt(ps, more, i) {
      if i < |order| {
        assert NeededAt(ps, order, i);
        var p :| p in ps && order[i] in p.image && forall j :: 0 <= j < i ==> order[j] !in p.image;
        assert more[i] in p.image && forall j :: 0 <= j < i ==> more[j] !in p.image;
      } else {
        var p :| p in q && l in p.image;
        assert more[i] in p.image && forall j :: 0 <= j < i ==> more[j] !in p.image;
      }
    }
  }

  lemma MovedNext(ps: seq<Permutation>, before: seq<Permutation>, q: seq<Permutation>, order: seq<Literal>, l: Literal)
    requires AllMoved(ps, before, order) && LeftAlone(before, order)
    requires forall p :: p in q <==> p in before && l !in p.image
    ensures AllMoved(ps, q, order + [l]) && LeftAlone(q, order + [l])
  {
    var more := order + [l];
    forall p | p in ps && p !in q ensures MovedBy(p, more) {
      if p in before {
        assert more[|order|] in p.image;
      } else {
        var i :| 0 <= i < |order| && order[i] in p.image;
        assert more[i] in p.image;
      }
    }
  }

  /** The remaining generators move nothing that is listed already. */
  ghost predicate LeftAlone(q: seq<Permutation>, order: seq<Literal>)
    reads q
  {
    forall p, i :: p in q && 0 <= i < |order| ==> order[i] !in p.image
  }

  ghost predicate AllKept(q: seq<Permutation>, n: nat)
    reads q
  {
    forall p :: p in q ==> Group.Kept(p, n)
  }

  lemma KeptOnes(group: Group, q: seq<Permutation>)
    requires group.Valid() && forall p :: p in q ==> p in group.permutations
    ensures AllKept(q, |group.watchers|)
  {
    hide Group.Kept;
  }

  lemma KeptTable(p: Permutation, n: nat)
    requires Group.Kept(p, n)
    ensures forall l :: l in p.image <==> l in p.cycles
    ensures BalancedTable(p.image, n) && NoRepeats(p.cycles)
  {
    TablesFit(p.cycles, p.cyclesLim, p.image, p.inverse);
    assert p.cycles[0] in p.image;
    forall v ensures Literal(v, true) in p.image <==> Literal(v, false) in p.image {
      var l := Literal(v, true);
      assert l in p.cycles ==> KeepsSign(p.image, l);
      assert l.Negated() in p.cycles ==> KeepsSign(p.image, l.Negated());
      assert l.Negated().Negated() == l;
    }
  }

  /** What a kept generator moves it moves with both signs. */
  lemma KeptMove(q: seq<Permutation>, n: nat)
    requires AllKept(q, n)
    ensures Balanced(P.Images(q), n)
    ensures forall v :: v in MovedVariables(P.Images(q)) ==> v < n && exists p :: p in q && Literal(v, true) in p.image
  {
    hide Group.Kept, MovedVariables;
    var images := P.Images(q);
    forall i | 0 <= i < |images| ensures BalancedTable(images[i], n) {
      assert q[i] in q;
      KeptTable(q[i], n);
    }
    forall v | v in MovedVariables(images) ensures v < n && exists p :: p in q && Literal(v, true) in p.image {
      var i := BalancedMoves(images, n, v);
      assert q[i] in q;
    }
  }

  lemma MovedIsNew(group: Group, q: seq<Permutation>, order: seq<Literal>, indexes: map<Literal, nat>, n: nat,
                   l: Literal)
    requires Indexed(order, indexes, n) && |group.watchers| <= n && LeftAlone(q, order)
    requires AllKept(q, |group.watchers|) && l.positive && l.variable in MovedVariables(P.Images(q))
    ensures l !in indexes && l.variable < n
    ensures exists p :: p in q && l in p.image
  {
    hide AllKept, MovedVariables, P.Images, Balanced;
    KeptMove(q, |group.watchers|);
    assert l == Literal(l.variable, true);
    var p :| p in q && l in p.image;
    assert forall i :: 0 <= i < |order| ==> order[i] != l;
  }

  /** One more for every variable with its positive literal in the support. */
  method CountSupport(occ: map<nat, nat>, support: seq<Literal>) returns (more: map<nat, nat>)
    requires NoRepeats(support)
    ensures forall v :: CountOf(more, v) == CountOf(occ, v) + if Literal(v, true) in support then 1 else 0
  {
    more := occ;
    var k := 0;
    while k < |support|
      invariant 0 <= k <= |support|
      invariant forall v :: CountOf(more, v) == CountOf(occ, v) + if Literal(v, true) in support[..k] then 1 else 0
    {
      assert support[..k + 1] == support[..k] + [support[k]] && support[k] !in support[..k];
      if support[k].positive {
        more := more[support[k].variable := CountOf(more, support[k].variable) + 1];
      }
      k := k + 1;
    }
    assert support[..k] == support;
  }

  /** How many generators move the variable, as counted over their cycles. */
  method CountMovers(q: seq<Permutation>, ghost n: nat) returns (occ: map<nat, nat>)
    requires AllKept(q, n)
    ensures forall v :: CountOf(occ, v) == MoversIn(P.Images(q), v)
  {
    hide Group.Kept, BalancedTable, CountOf, MoversIn, P.Images;
    occ := map[];
    var i := 0;
    NothingCounted(q);
    while i < |q|
      invariant 0 <= i <= |q| && forall v :: CountOf(occ, v) == MoversIn(P.Images(q[..i]), v)
    {
      KeptTable(q[i], n);
      CountNext(q, i);
      occ := CountSupport(occ, q[i].cycles);
      i := i + 1;
    }
    assert q[..i] == q;
  }

  lemma NothingCounted(q: seq<Permutation>)
    ensures forall v :: CountOf(map[], v) == MoversIn(P.Images(q[..0]), v)
  {
  }

  lemma CountNext(q: seq<Permutation>, i: nat)
    requires i < |q|
    ensures forall v :: MoversIn(P.Images(q[..i + 1]), v) ==
              MoversIn(P.Images(q[..i]), v) + if Literal(v, true) in q[i].image then 1 else 0
  {
    assert q[..i + 1][..i] == q[..i];
    assert P.Images(q[..i + 1]) == P.Images(q[..i]) + [q[i].image];
  }

  /** The scan over the orbits. */
  method ScanOrbits(occ: map<nat, nat>, orbits: seq<seq<nat>>) returns (next: Pick)
    ensures next == Scan(occ, orbits).next
  {
    var largestOrbit: nat := 0;
    next := NoPick;
    var i := 0;
    while i < |orbits|
      invariant 0 <= i <= |orbits| && Scan(occ, orbits[..i]) == Scanned(next, largestOrbit)
    {
      assert orbits[..i + 1][..i] == orbits[..i];
      var orbit := orbits[i];
      if |orbit| >= largestOrbit {
        ghost var s := Scanned(next, largestOrbit);
        var k := 0;
        while k < |orbit|
          invariant 0 <= k <= |orbit| && ScanOrbit(occ, orbit[..k], |orbit|, s) == Scanned(next, largestOrbit)
        {
          assert orbit[..k + 1][..k] == orbit[..k];
          var variable := orbit[k];
          if CountOf(occ, variable) != 0 {
            if next.NoPick? || CountOf(occ, variable) < CountOf(occ, next.variable) ||
               (CountOf(occ, variable) == CountOf(occ, next.variable) && variable < next.variable) {
              next := Pick(variable);
              largestOrbit := |orbit|;
            }
          }
          k := k + 1;
        }
        assert orbit[..k] == orbit;
      }
      i := i + 1;
    }
    assert orbits[..i] == orbits;
  }

  /** One of the rarest moved variables. */
  method NextVariable(q: seq<Permutation>, ghost n: nat) returns (next: Pick)
    requires AllKept(q, n) && q != []
    ensures next.Pick? && RarestIn(P.Images(q), next.variable) && next.variable in MovedVariables(P.Images(q))
  {
    hide AllKept, MovedVariables, RarestIn, P.Moved, P.LinksOf, P.AreOrbits, MoversIn, BothSigns, Scan, P.Images,
      Balanced, CountOf, P.Connected;
    ghost var images := P.Images(q);
    KeptMove(q, n);
    BalancedMean(images, n);
    var occ := CountMovers(q, n);
    var orbits;
    ghost var symmetrics;
    orbits, symmetrics := OrbitsOf(q, n);
    next := ScanOrbits(occ, orbits);
    ScanFindsRarest(images, occ, orbits, symmetrics);
    RarestMoved(images, next.variable);
  }

  method OrbitsOf(q: seq<Permutation>, ghost n: nat) returns (orbits: seq<seq<nat>>, ghost symmetrics: seq<nat>)
    requires AllKept(q, n)
    ensures forall v :: v in symmetrics <==> P.Moved(P.Images(q), v)
    ensures P.AreOrbits(orbits, symmetrics, P.LinksOf(P.Images(q)))
  {
    hide Group.Kept, P.Moved, P.LinksOf, P.AreOrbits, P.Images;
    KeptClosed(q, n);
    var partition := new P.Orbits();
    partition.Assign(q);
    orbits, symmetrics := partition.orbits, partition.symmetrics;
  }

  lemma KeptClosed(q: seq<Permutation>, n: nat)
    requires AllKept(q, n)
    ensures forall p :: p in q ==> p.Closed()
  {
  }

  /** The generators that leave `l` alone. */
  method WithoutMovers(q: seq<Permutation>, l: Literal) returns (filter: seq<Permutation>)
    ensures forall p :: p in filter <==> p in q && l !in p.image
    ensures |filter| <= |q| && ((exists p :: p in q && l in p.image) ==> |filter| < |q|)
    ensures P.Images(filter) == Leaving(P.Images(q), l)
  {
    filter := [];
    var i := 0;
    while i < |q|
      invariant 0 <= i <= |q| && |filter| <= i
      invariant forall p :: p in filter <==> p in q[..i] && l !in p.image
      invariant (exists p :: p in q[..i] && l in p.image) ==> |filter| < i
      invariant P.Images(filter) == Leaving(P.Images(q[..i]), l)
    {
      assert q[..i + 1] == q[..i] + [q[i]];
      ImagesNext(q[..i], q[i], l);
      ImagesNext(filter, q[i], l);
      if l !in q[i].image {
        filter := filter + [q[i]];
      }
      i := i + 1;
    }
    assert q[..i] == q;
  }

  lemma ImagesNext(q: seq<Permutation>, p: Permutation, l: Literal)
    ensures P.Images(q + [p]) == P.Images(q) + [p.image]
    ensures Leaving(P.Images(q + [p]), l) == Leaving(P.Images(q), l) + if l in p.image then [] else [p.image]
  {
    assert (q + [p])[..|q|] == q;
  }

  /** All variables below `n`, sorted. */
  method SortVariables(n: nat, occurrences: seq<int>) returns (s: seq<nat>)
    requires n <= |occurrences|
    ensures SortedBy(occurrences, s) && NoRepeats(s) && forall v: nat :: v in s <==> v < n
  {
    s := [];
    var v := 0;
    while v < n
      invariant 0 <= v <= n && SortedBy(occurrences, s)
      invariant forall u: nat :: u in s <==> u < v
    {
      var k := |s|;
      while k > 0 && OrderLt(occurrences, v, s[k - 1])
        invariant 0 <= k <= |s|
        invariant forall j :: k <= j < |s| ==> OrderLt(occurrences, v, s[j])
        decreases k
      {
        k := k - 1;
      }
      InsertSorted(occurrences, s, v, k);
      InsertMembers(s, v, k);
      s := s[..k] + [v] + s[k..];
      v := v + 1;
    }
    assert NoRepeats(s) by {
      forall i, j | 0 <= i < j < |s| ensures s[i] != s[j] { assert OrderLt(occurrences, s[i], s[j]); }
    }
  }

  lemma InsertMembers(s: seq<nat>, v: nat, k: nat)
    requires k <= |s|
    ensures forall u :: u in s[..k] + [v] + s[k..] <==> u in s || u == v
  {
    assert s == s[..k] + s[k..];
  }

  lemma InsertSorted(occurrences: seq<int>, s: seq<nat>, v: nat, k: nat)
    requires SortedBy(occurrences, s) && v < |occurrences| && k <= |s| && v !in s
    requires forall j :: k <= j < |s| ==> OrderLt(occurrences, v, s[j])
    requires k > 0 ==> !OrderLt(occurrences, v, s[k - 1])
    ensures SortedBy(occurrences, s[..k] + [v] + s[k..])
  {
    var t := s[..k] + [v] + s[k..];
    forall j | 0 <= j < k ensures OrderLt(occurrences, s[j], v) {
      assert s[k - 1] in s;
      assert j < k - 1 ==> OrderLt(occurrences, s[j], s[k - 1]);
    }
    forall i | 0 <= i < |t|
      ensures t[i] == if i < k then s[i] else if i == k then v else s[i - 1]
    {
    }
    forall i, j | 0 <= i < j < |t| ensures OrderLt(occurrences, t[i], t[j]) {
      if i != k && j != k {
        assert OrderLt(occurrences, s[if i < k then i else i - 1], s[if j < k then j else j - 1]);
      }
    }
  }
}
