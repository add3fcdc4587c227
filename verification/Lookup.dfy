/** What one status computes, on values. */
module Lookup {
  // The walk along the pairs (element, inverse of element), the verdict, the undo stack, and the
  // clause a REDUCER verdict stands for.

  import opened Logic
  import opened LexLeader

  /** The variables the solver has assigned and reported. */
  type Partial = map<nat, bool>

  predicate Assigned(p: Partial, l: Literal) { l.variable in p }

  predicate TrueIn(p: Partial, l: Literal) { l.variable in p && p[l.variable] == l.positive }

  predicate FalseIn(p: Partial, l: Literal) { l.variable in p && p[l.variable] != l.positive }

  predicate SameValue(p: Partial, x: Literal, y: Literal) {
    Assigned(p, x) && Assigned(p, y) && TrueIn(p, x) == TrueIn(p, y)
  }

  predicate IsMinimalValue(mode: ValueMode, p: Partial, l: Literal) {
    if mode == TRUE_LESS_FALSE then TrueIn(p, l) else FalseIn(p, l)
  }

  predicate IsMaximalValue(mode: ValueMode, p: Partial, l: Literal) {
    if mode == TRUE_LESS_FALSE then FalseIn(p, l) else TrueIn(p, l)
  }

  function FalseLiteral(p: Partial, v: nat): Literal
    requires v in p
  {
    Literal(v, !p[v])
  }

  /** `order` lists the variables below its length once each; `ranks` is its inverse. */
  ghost predicate ValidOrder(order: seq<nat>, ranks: seq<nat>) {
    |ranks| == |order| &&
    (forall i :: 0 <= i < |order| ==> order[i] < |order|) &&
    (forall v :: 0 <= v < |ranks| ==> ranks[v] < |order|) &&
    (forall i, v :: 0 <= i < |order| && 0 <= v < |ranks| ==> (order[i] == v <==> ranks[v] == i))
  }

  /** What a status never changes: the inverse of its permutation on the literals it moves,
      the global order with the rank of every variable, and the moved variables in that order. */
  datatype Generator = Generator(
    inverse: map<Literal, Literal>,
    order: seq<nat>,
    ranks: seq<nat>,
    mode: ValueMode,
    lookup: seq<Literal>)
  {
    function InverseOf(l: Literal): Literal { if l in inverse then inverse[l] else l }

    function Leq(a: Literal, b: Literal): Literal
      requires a.variable < |ranks| && b.variable < |ranks|
    {
      if ranks[a.variable] <= ranks[b.variable] then a else b
    }
  }

  predicate Opposite(l: Literal, k: Literal) { l.variable == k.variable && l.positive != k.positive }

  predicate MovesImage(inverse: map<Literal, Literal>, l: Literal) { l in inverse ==> inverse[l] in inverse }

  /** The permutation moves the negation of a literal it moves, to the negated image. */
  ghost predicate ValidInverse(inverse: map<Literal, Literal>, n: nat) {
    (forall l {:trigger inverse[l]} :: l in inverse ==>
       l.variable < n && inverse[l].variable < n && inverse[l] != l) &&
    (forall l {:trigger MovesImage(inverse, l)} :: MovesImage(inverse, l)) &&
    (forall l, k {:trigger inverse[l], Opposite(l, k)} :: l in inverse && Opposite(l, k) ==>
       k in inverse && Opposite(inverse[l], inverse[k]))
  }

  predicate Moves(inverse: map<Literal, Literal>, v: nat) { Literal(v, true) in inverse }

  /** The lookup order is the order restricted to the variables the permutation moves. */
  ghost predicate ValidLookup(g: Generator)
    requires |g.ranks| == |g.order|
  {
    (forall k :: 0 <= k < |g.lookup| ==>
       g.lookup[k].positive && g.lookup[k] in g.inverse && g.lookup[k].variable < |g.order|) &&
    (forall j, k :: 0 <= j < k < |g.lookup| ==>
       g.ranks[g.lookup[j].variable] < g.ranks[g.lookup[k].variable]) &&
    (forall v: nat {:trigger Moves(g.inverse, v)} :: v < |g.order| && Moves(g.inverse, v) ==>
      Literal(v, true) in g.lookup)
  }

  ghost predicate ValidGenerator(g: Generator) {
    ValidOrder(g.order, g.ranks) && ValidInverse(g.inverse, |g.order|) && ValidLookup(g)
  }

  // ---------------------------------------------------------------- verdict and walk

  datatype CosyState = INACTIVE | ACTIVE | REDUCER | FORCE_LEX_LEADER

  datatype LookupInfo = LookupInfo(variable: nat, backIndex: nat)

  datatype Status = Status(index: nat, infos: seq<LookupInfo>, state: CosyState)

  function Verdict(g: Generator, p: Partial, k: nat): CosyState
    requires ValidGenerator(g)
  {
    if k >= |g.lookup| then ACTIVE
    else
      var element := g.lookup[k];
      var inverse := g.inverse[element];
      var minimal := g.Leq(element, inverse);
      var maximal := if minimal == element then inverse else element;
      if Assigned(p, element) && Assigned(p, inverse) then
        if IsMinimalValue(g.mode, p, minimal) then INACTIVE else REDUCER
      else if (!Assigned(p, minimal) && IsMinimalValue(g.mode, p, maximal)) ||
              (!Assigned(p, maximal) && IsMaximalValue(g.mode, p, minimal)) then FORCE_LEX_LEADER
      else ACTIVE
  }

  predicate PairAgrees(g: Generator, p: Partial, i: int) {
    0 <= i < |g.lookup| && g.lookup[i] in g.inverse && SameValue(p, g.lookup[i], g.inverse[g.lookup[i]])
  }

  ghost predicate PairsAgree(g: Generator, p: Partial, k: nat) {
    forall i :: 0 <= i < k ==> PairAgrees(g, p, i)
  }

  /** `k` is where a walk that starts at `i` stops: the first pair that does not agree. */
  ghost predicate StopsAt(g: Generator, p: Partial, i: nat, k: nat) {
    i <= k <= |g.lookup| &&
    (forall j :: i <= j < k ==> PairAgrees(g, p, j)) &&
    (k < |g.lookup| ==> !PairAgrees(g, p, k))
  }

  function Walk(g: Generator, p: Partial, i: nat): (k: nat)
    requires i <= |g.lookup|
    ensures StopsAt(g, p, i, k)
    decreases |g.lookup| - i
  {
    if i < |g.lookup| && PairAgrees(g, p, i) then Walk(g, p, i + 1) else i
  }

  function Notified(g: Generator, p: Partial, v: nat, s: Status): Status
    requires ValidGenerator(g) && s.index <= |g.lookup|
  {
    var k := Walk(g, p, s.index);
    Status(k, Pushed(s, v, k), Verdict(g, p, k))
  }

  function Pushed(s: Status, v: nat, k: nat): seq<LookupInfo> {
    if k > s.index then s.infos + [LookupInfo(v, s.index)] else s.infos
  }

  function Cancelled(v: nat, s: Status): Status {
    if s.infos != [] && s.infos[|s.infos| - 1].variable == v
    then s.(index := s.infos[|s.infos| - 1].backIndex, infos := s.infos[..|s.infos| - 1])
    else s
  }

  // ---------------------------------------------------------------- the clauses

  /** The literals of the clause that forbids the current values of the reason and of
      every pair up to the lookup index. */
  ghost predicate Forbids(g: Generator, p: Partial, reason: nat, k: nat, l: Literal) {
    l.variable in p && l == FalseLiteral(p, l.variable) &&
    (l.variable == reason || exists i :: InPair(g, i, k, l.variable))
  }

  ghost predicate InPair(g: Generator, i: int, k: nat, v: nat) {
    0 <= i <= k && i < |g.lookup| && g.lookup[i] in g.inverse &&
    (v == g.lookup[i].variable || v == g.inverse[g.lookup[i]].variable)
  }

  /** The first variable of the first pair that is not the reason; the reason if there is none. */
  function FirstOther(g: Generator, reason: nat): nat {
    if g.lookup == [] || g.lookup[0] !in g.inverse then reason
    else if g.lookup[0].variable != reason then g.lookup[0].variable
    else g.inverse[g.lookup[0]].variable
  }

  /** `c` is the symmetry-breaking clause built for `reason` when the walk stands at `k`.  The last
      exchange leaves the reason in slot 1 and in slot 0 what was met first after it. */
  ghost predicate IsEsbp(g: Generator, p: Partial, reason: nat, k: nat, c: Clause) {
    NoRepeats(c) && c != [] &&
    (forall l :: l in c <==> Forbids(g, p, reason, k, l)) &&
    (reason in p ==> c[if |c| == 1 then 0 else 1] == FalseLiteral(p, reason)) &&
    (|c| > 1 ==> c[0].variable == FirstOther(g, reason))
  }

  function InvertingUnit(g: Generator, k: nat): Clause
    requires k < |g.lookup|
  {
    [Literal(g.lookup[k].variable, g.mode == TRUE_LESS_FALSE)]
  }

  predicate IsInverting(g: Generator, k: nat) {
    k < |g.lookup| && g.lookup[k] in g.inverse && g.lookup[k] == g.inverse[g.lookup[k]].Negated()
  }
}
