/** What becomes of the arrays. */
module KeptArrays {
  // What the group keeps and the orders list, in terms of the arrays alone.

  import opened Logic
  import opened LexLeader
  import opened Lookup
  import opened Runs
  import opened Soundness
  import opened Permutations
  import opened Automorphism
  import opened CNFGraphs
  import opened FormulaSymmetry
  import opened Groups
  import opened Orders
  import opened Rarity
  import P = OrbitPartition

  // ---------------------------------------------------------------- the filter

  /** The node of the negated literal. */
  function NegatedNode(x: nat, n: nat): int { if x < n then n + x else x - n }

  /** The array sends negations to negations. */
  predicate KeepsSigns(aut: seq<nat>, n: nat) {
    2 * n <= |aut| && forall v :: 0 <= v < n ==> aut[n + v] == NegatedNode(aut[v], n)
  }

  predicate MovesNode(aut: seq<nat>, x: nat) { x < |aut| && aut[x] != x }

  predicate MovesSome(aut: seq<nat>, n: nat) { exists v: nat :: v < n && MovesNode(aut, v) }

  /** The permutation read off the array passes the filter of the group. */
  predicate Usable(aut: seq<nat>, n: nat) { KeepsSigns(aut, n) && MovesSome(aut, n) }

  /** The arrays that are kept, in order. */
  function Usables(auts: seq<seq<nat>>, n: nat): (kept: seq<seq<nat>>)
    ensures forall a :: a in kept <==> a in auts && Usable(a, n)
  {
    if auts == [] then []
    else
      var front, last := auts[..|auts| - 1], auts[|auts| - 1];
      assert auts == front + [last];
      Usables(front, n) + if Usable(last, n) then [last] else []
  }

  lemma UsablesNext(auts: seq<seq<nat>>, n: nat, k: nat)
    requires k < |auts|
    ensures Usables(auts[..k + 1], n) == Usables(auts[..k], n) + if Usable(auts[k], n) then [auts[k]] else []
  {
    assert auts[..k + 1][..k] == auts[..k];
  }

  lemma SignsAreNegations(aut: seq<nat>, n: nat)
    requires KeepsLiterals(aut, n)
    ensures KeepsSigns(aut, n) <==> KeepsNegation(aut, n)
  {
    NodesAreLiterals(n);
    if KeepsSigns(aut, n) {
      forall l: Literal | l.variable < n ensures Sends(aut, n, l.Negated()) == Sends(aut, n, l).Negated() {
        SignAt(aut, n, l);
      }
    }
    if KeepsNegation(aut, n) {
      forall v | 0 <= v < n ensures aut[n + v] == NegatedNode(aut[v], n) {
        var l := Literal(v, true);
        assert Sends(aut, n, l.Negated()) == Sends(aut, n, l).Negated();
        assert LiteralToNode(l.Negated(), n) == n + v;
      }
    }
  }

  lemma SignAt(aut: seq<nat>, n: nat, l: Literal)
    requires KeepsLiterals(aut, n) && KeepsSigns(aut, n) && l.variable < n
    ensures Sends(aut, n, l.Negated()) == Sends(aut, n, l).Negated()
  {
    NodesAreLiterals(n);
    var v := l.variable;
    assert aut[n + v] == NegatedNode(aut[v], n);
    assert IsLiteralNode(v, n) && IsLiteralNode(n + v, n);
  }

  /** The filter lets through exactly the arrays that keep signs. */
  lemma FilterExactly(cycles: seq<Literal>, image: map<Literal, Literal>, inverse: map<Literal, Literal>,
                      aut: seq<nat>, n: nat)
    requires KeepsLiterals(aut, n) && Tabulates(image, inverse, aut, n)
    requires forall l :: l in image <==> l in cycles
    ensures Consistent(cycles, image) <==> KeepsSigns(aut, n)
  {
    hide MutuallyInverse;
    SignsAreNegations(aut, n);
    if Consistent(cycles, image) {
      FilterKeepsNegation(cycles, image, inverse, aut, n);
    }
    if KeepsNegation(aut, n) {
      forall e | e in cycles ensures KeepsSign(image, e) {
        ImageIsSent(image, inverse, aut, n, e);
        ImageIsSent(image, inverse, aut, n, e.Negated());
        MovedTogether(aut, n, e);
      }
    }
  }

  lemma MovedTogether(aut: seq<nat>, n: nat, l: Literal)
    requires KeepsLiterals(aut, n) && KeepsSigns(aut, n) && l.variable < n
    ensures MovesNode(aut, LiteralToNode(l, n)) <==> MovesNode(aut, l.variable)
  {
    assert aut[n + l.variable] == NegatedNode(aut[l.variable], n);
  }

  /** A permutation with a closed cycle moves something. */
  lemma SomethingMoved(cycles: seq<Literal>, lim: seq<nat>, image: map<Literal, Literal>,
                       inverse: map<Literal, Literal>, aut: seq<nat>, n: nat)
    requires KeepsLiterals(aut, n) && Tabulates(image, inverse, aut, n) && KeepsSigns(aut, n)
    requires Limits(lim, |cycles|) && Start(lim, |lim|) == |cycles| && forall l :: l in image <==> l in cycles
    ensures lim != [] <==> MovesSome(aut, n)
  {
    hide MutuallyInverse;
    if lim != [] {
      assert cycles[0] in image;
      MovedTogether(aut, n, cycles[0]);
    }
    if MovesSome(aut, n) {
      var v: nat :| v < n && MovesNode(aut, v);
      assert LiteralToNode(Literal(v, true), n) == v;
      assert Literal(v, true) in image;
    }
  }

  // ---------------------------------------------------------------- what is kept

  /** The permutation is read off the array. */
  ghost predicate ReadOff(p: Permutation, aut: seq<nat>, n: nat)
    reads p
  {
    KeepsLiterals(aut, n) && Tabulates(p.image, p.inverse, aut, n)
  }

  /** The permutations are those of the arrays, one for each. */
  ghost predicate AllReadOff(ps: seq<Permutation>, auts: seq<seq<nat>>, n: nat)
    reads ps
  {
    |ps| == |auts| && forall i :: 0 <= i < |ps| ==> ReadOff(ps[i], auts[i], n)
  }

  predicate Negates(aut: seq<nat>, n: nat, v: nat) { v < n && v < |aut| && aut[v] == n + v }

  /** The variables that some array sends to their negation. */
  function Inverted(auts: seq<seq<nat>>, n: nat): set<nat> {
    set v: nat | v < n && SomeNegates(auts, n, v)
  }

  predicate SomeNegates(auts: seq<seq<nat>>, n: nat, v: nat) {
    exists k :: 0 <= k < |auts| && Negates(auts[k], n, v)
  }

  lemma InvertedAt(p: Permutation, aut: seq<nat>, n: nat, v: nat)
    requires p.Closed() && ReadOff(p, aut, n) && KeepsSigns(aut, n)
    ensures InvertsVariable(p.cycles, p.image, v) <==> Negates(aut, n, v)
  {
    hide Tables, MutuallyInverse, Tabulates, KeepsSigns, KeepsLiterals, Negates, NegatesLiteral;
    TablesFit(p.cycles, p.cyclesLim, p.image, p.inverse);
    if InvertsVariable(p.cycles, p.image, v) {
      var l :| l in p.cycles && l.variable == v && l in p.image && p.image[l] == l.Negated();
      NegatedImage(p.image, p.inverse, aut, n, l);
      NegatedEither(aut, n, l);
    }
    if Negates(aut, n, v) {
      var l := Literal(v, true);
      NegatedEither(aut, n, l);
      NegatedImage(p.image, p.inverse, aut, n, l);
      assert l in p.cycles;
    }
  }

  predicate NegatesLiteral(aut: seq<nat>, n: nat, l: Literal) {
    l.variable < n && 2 * n <= |aut| && aut[LiteralToNode(l, n)] == LiteralToNode(l.Negated(), n)
  }

  lemma NegatedEither(aut: seq<nat>, n: nat, l: Literal)
    requires KeepsSigns(aut, n)
    ensures NegatesLiteral(aut, n, l) <==> Negates(aut, n, l.variable)
  {
    assert l.variable < n ==> aut[n + l.variable] == NegatedNode(aut[l.variable], n);
  }

  lemma NegatedImage(image: map<Literal, Literal>, inverse: map<Literal, Literal>, aut: seq<nat>, n: nat, l: Literal)
    requires KeepsLiterals(aut, n) && Tabulates(image, inverse, aut, n)
    ensures l in image && image[l] == l.Negated() <==> NegatesLiteral(aut, n, l)
  {
    hide MutuallyInverse;
    if l.variable < n {
      ImageIsSent(image, inverse, aut, n, l);
      NodesAreLiterals(n);
      assert l.Negated() != l;
    }
  }

  // ---------------------------------------------------------------- the order

  datatype OrderMode = INCREASE | OCCURENCE | BREAKID | AUTO

  /** AUTO decides by the number of inverted variables. */
  predicate ByOccurrence(vars: OrderMode, inverted: nat, n: nat) {
    vars == OCCURENCE || (vars == AUTO && 4 * inverted <= n)
  }

  ghost predicate SomeMoved(aut: seq<nat>, vs: seq<nat>) { exists i :: 0 <= i < |vs| && MovesNode(aut, vs[i]) }

  ghost predicate NeededFor(auts: seq<seq<nat>>, vs: seq<nat>, i: nat)
    requires i < |vs|
  {
    exists k :: 0 <= k < |auts| && MovesNode(auts[k], vs[i]) && forall j :: 0 <= j < i ==> !MovesNode(auts[k], vs[j])
  }

  /** Every array moves one of the variables and each of them is the first that some array moves. */
  ghost predicate Covering(auts: seq<seq<nat>>, vs: seq<nat>) {
    (forall k :: 0 <= k < |auts| ==> SomeMoved(auts[k], vs)) && forall i :: 0 <= i < |vs| ==> NeededFor(auts, vs, i)
  }

  predicate MovesLiteral(aut: seq<nat>, n: nat, l: Literal) {
    var x := LiteralToNode(l, n);
    MovesNode(aut, x) && IsLiteralNode(aut[x], n)
  }

  function SentTo(aut: seq<nat>, n: nat, l: Literal): Literal
    requires MovesLiteral(aut, n, l)
  {
    NodeToLiteral(aut[LiteralToNode(l, n)], n)
  }

  /** The table of an array: where it sends the literals it moves. */
  ghost function TableOf(aut: seq<nat>, n: nat): Image {
    map l | l in LiteralsBelow(n) && MovesLiteral(aut, n, l) :: SentTo(aut, n, l)
  }

  ghost function LiteralsBelow(n: nat): set<Literal> {
    set v, b | 0 <= v < n && b in {true, false} :: Literal(v, b)
  }

  ghost function TablesOf(auts: seq<seq<nat>>, n: nat): (r: seq<Image>)
    ensures |r| == |auts| && forall i :: 0 <= i < |auts| ==> r[i] == TableOf(auts[i], n)
  {
    seq(|auts|, i requires 0 <= i < |auts| => TableOf(auts[i], n))
  }

  ghost function Positive(vs: seq<nat>): seq<Literal> {
    seq(|vs|, i requires 0 <= i < |vs| => Literal(vs[i], true))
  }

  lemma ReadOffTable(p: Permutation, aut: seq<nat>, n: nat)
    requires ReadOff(p, aut, n)
    ensures p.image == TableOf(aut, n)
  {
    TabulatedTable(p.image, p.inverse, aut, n);
  }

  lemma TabulatedAt(image: Image, inverse: Image, aut: seq<nat>, n: nat, l: Literal)
    requires KeepsLiterals(aut, n) && Tabulates(image, inverse, aut, n)
    ensures l in image <==> l in LiteralsBelow(n) && MovesLiteral(aut, n, l)
    ensures l in image ==> image[l] == SentTo(aut, n, l)
  {
    assert l in LiteralsBelow(n) <==> l.variable < n by {
      assert l == Literal(l.variable, l.positive);
    }
    if l in image {
      assert Into(image, inverse, l);
      assert image[l] in inverse.Keys;
    }
  }

  lemma TabulatedTable(image: Image, inverse: Image, aut: seq<nat>, n: nat)
    requires KeepsLiterals(aut, n) && Tabulates(image, inverse, aut, n)
    ensures image == TableOf(aut, n)
  {
    forall l ensures l in image <==> l in LiteralsBelow(n) && MovesLiteral(aut, n, l) {
      TabulatedAt(image, inverse, aut, n, l);
    }
    forall l | l in image ensures MovesLiteral(aut, n, l) && image[l] == SentTo(aut, n, l) {
      TabulatedAt(image, inverse, aut, n, l);
    }
    hide MutuallyInverse, Tabulates, KeepsLiterals, LiteralsBelow, MovesLiteral, SentTo;
    assert image.Keys == TableOf(aut, n).Keys;
  }

  lemma ReadOffTables(ps: seq<Permutation>, auts: seq<seq<nat>>, n: nat)
    requires AllReadOff(ps, auts, n)
    ensures P.Images(ps) == TablesOf(auts, n)
  {
    hide ReadOff, TableOf;
    var images, tables := P.Images(ps), TablesOf(auts, n);
    forall i | 0 <= i < |images| ensures images[i] == tables[i] {
      ReadOffTable(ps[i], auts[i], n);
    }
  }

  ghost predicate Increasing(vs: seq<nat>) { forall i, j :: 0 <= i < j < |vs| ==> vs[i] < vs[j] }

  /** First the covering variables, each one of the rarest for the arrays that move none before it, then the
      others by index. */
  ghost predicate CoveringFirst(auts: seq<seq<nat>>, n: nat, order: seq<nat>) {
    exists k :: 0 <= k <= |order| && Covering(auts, order[..k]) && Increasing(order[k..]) &&
                RarestFirst(TablesOf(auts, n), Positive(order[..k]))
  }

  /** The order a mode stands for. */
  ghost predicate IsOrderFor(vars: OrderMode, auts: seq<seq<nat>>, n: nat, occurrences: seq<int>, order: seq<nat>) {
    |order| == n &&
    if vars == INCREASE then forall i :: 0 <= i < n ==> order[i] == i
    else if ByOccurrence(vars, |Inverted(auts, n)|, n) then SortedBy(occurrences, order)
    else CoveringFirst(auts, n, order)
  }

  lemma CoversFirst(ps: seq<Permutation>, auts: seq<seq<nat>>, n: nat, order: seq<Literal>, k: nat)
    requires AllReadOff(ps, auts, n) && k <= |order| && Greedy(ps, order[..k]) && Rising(order[k..])
    requires RarestFirst(P.Images(ps), order[..k])
    requires forall i :: 0 <= i < |order| ==> order[i].positive && order[i].variable < n
    ensures CoveringFirst(auts, n, VariablesOf(order))
  {
    hide AllReadOff, Greedy, Covering, RarestFirst, P.Images;
    ReadOffTables(ps, auts, n);
    assert Positive(VariablesOf(order)[..k]) == order[..k];
    assert VariablesOf(order)[..k] == VariablesOf(order[..k]);
    assert forall i :: 0 <= i < |order| - k ==> VariablesOf(order)[k..][i] == order[k..][i].variable;
    GreedyCovers(ps, auts, n, order[..k]);
  }

  lemma GreedyCovers(ps: seq<Permutation>, auts: seq<seq<nat>>, n: nat, listed: seq<Literal>)
    requires AllReadOff(ps, auts, n) && Greedy(ps, listed)
    requires forall i :: 0 <= i < |listed| ==> listed[i].positive && listed[i].variable < n
    ensures Covering(auts, VariablesOf(listed))
  {
    hide AllReadOff, MovesNode, VariablesOf;
    var vs := VariablesOf(listed);
    ListedVariables(listed);
    forall j, i | 0 <= j < |ps| && 0 <= i < |listed|
      ensures |ps| == |auts| && (listed[i] in ps[j].image <==> MovesNode(auts[j], vs[i]))
    {
      OneReadOff(ps, auts, n, j);
      MovedIsListed(ps[j], auts[j], n, listed[i]);
    }
    SameNumber(ps, auts, n);
    forall j | 0 <= j < |auts| ensures SomeMoved(auts[j], vs) {
      assert ps[j] in ps && MovedBy(ps[j], listed);
      var i :| 0 <= i < |listed| && listed[i] in ps[j].image;
      assert MovesNode(auts[j], vs[i]);
    }
    forall i | 0 <= i < |vs| ensures NeededFor(auts, vs, i) {
      assert NeededAt(ps, listed, i);
      var p :| p in ps && listed[i] in p.image && forall j :: 0 <= j < i ==> listed[j] !in p.image;
      var j :| 0 <= j < |ps| && ps[j] == p;
      assert MovesNode(auts[j], vs[i]);
    }
  }

  lemma ListedVariables(listed: seq<Literal>)
    ensures |VariablesOf(listed)| == |listed|
    ensures forall i :: 0 <= i < |listed| ==> VariablesOf(listed)[i] == listed[i].variable
  {
  }

  lemma SameNumber(ps: seq<Permutation>, auts: seq<seq<nat>>, n: nat)
    requires AllReadOff(ps, auts, n)
    ensures |ps| == |auts|
  {
  }

  lemma OneReadOff(ps: seq<Permutation>, auts: seq<seq<nat>>, n: nat, j: nat)
    requires AllReadOff(ps, auts, n) && j < |ps|
    ensures |ps| == |auts| && ReadOff(ps[j], auts[j], n)
  {
  }

  lemma MovedIsListed(p: Permutation, aut: seq<nat>, n: nat, l: Literal)
    requires ReadOff(p, aut, n) && l.positive && l.variable < n
    ensures l in p.image <==> MovesNode(aut, l.variable)
  {
    hide MutuallyInverse;
  }

  // ---------------------------------------------------------------- the generators

  /** The table inverts the array on the literals it moves. */
  ghost predicate InvertsArray(inverse: map<Literal, Literal>, aut: seq<nat>, n: nat) {
    2 * n <= |aut| &&
    (forall l: Literal :: l in inverse <==> l.variable < n && MovesNode(aut, LiteralToNode(l, n))) &&
    forall l: Literal :: l in inverse ==>
      inverse[l].variable < n && aut[LiteralToNode(inverse[l], n)] == LiteralToNode(l, n)
  }

  /** One generator for each array: its inverse, all in one order of the given mode. */
  ghost predicate BuiltFor(gens: seq<Generator>, auts: seq<seq<nat>>, n: nat, vars: OrderMode, mode: ValueMode,
                           occurrences: seq<int>) {
    |gens| == |auts| && (forall j :: 0 <= j < |gens| ==> InvertsArray(gens[j].inverse, auts[j], n)) &&
    exists order, ranks :: ValidGroup(gens, order, ranks, mode) && IsOrderFor(vars, auts, n, occurrences, order)
  }

  lemma TabulatesInverts(image: map<Literal, Literal>, inverse: map<Literal, Literal>, aut: seq<nat>, n: nat)
    requires KeepsLiterals(aut, n) && Tabulates(image, inverse, aut, n)
    ensures InvertsArray(inverse, aut, n)
  {
    NodesAreLiterals(n);
    forall l: Literal ensures l in inverse <==> l.variable < n && MovesNode(aut, LiteralToNode(l, n)) {
      assert l in inverse.Keys <==> l in image.Keys;
    }
    forall l | l in inverse
      ensures inverse[l].variable < n && aut[LiteralToNode(inverse[l], n)] == LiteralToNode(l, n)
    {
      assert Into(inverse, image, l);
    }
  }

  // ---------------------------------------------------------------- involutions

  predicate Involutive(aut: seq<nat>) { forall x :: 0 <= x < |aut| ==> aut[x] < |aut| && aut[aut[x]] == x }

  lemma InvolutiveInverse(g: Generator, aut: seq<nat>, n: nat)
    requires ValidGenerator(g) && InvertsArray(g.inverse, aut, n) && Involutive(aut)
    ensures Involution(g)
  {
    NodesAreLiterals(n);
    forall l | l in g.inverse ensures g.inverse[l] in g.inverse && g.inverse[g.inverse[l]] == l {
      assert MovesImage(g.inverse, l);
      var k := g.inverse[l];
      var x, y := LiteralToNode(l, n), LiteralToNode(k, n);
      assert aut[y] == x && aut[x] == y;
      var z := LiteralToNode(g.inverse[k], n);
      assert aut[z] == y && aut[aut[z]] == z;
    }
  }
}
