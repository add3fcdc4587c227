/** From the node array of a graph automorphism to a permutation of literals. */
module Automorphism {
  import opened Logic
  import opened Permutations

  function LiteralToNode(l: Literal, n: nat): nat { if l.positive then l.variable else n + l.variable }

  predicate IsLiteralNode(node: nat, n: nat) { node < 2 * n }

  function NodeToLiteral(node: nat, n: nat): Literal
    requires IsLiteralNode(node, n)
  {
    if node < n then Literal(node, true) else Literal(node - n, false)
  }

  /** The node numbering of literals is a bijection. */
  lemma NodesAreLiterals(n: nat)
    ensures forall node: nat :: IsLiteralNode(node, n) ==>
              NodeToLiteral(node, n).variable < n && LiteralToNode(NodeToLiteral(node, n), n) == node
    ensures forall l: Literal :: l.variable < n ==>
              IsLiteralNode(LiteralToNode(l, n), n) && NodeToLiteral(LiteralToNode(l, n), n) == l
  {
  }

  ghost predicate Inverts(aut: seq<nat>, inv: seq<nat>) {
    |inv| == |aut| &&
    (forall i :: 0 <= i < |aut| ==> aut[i] < |aut|) &&
    (forall j :: 0 <= j < |inv| ==> inv[j] < |inv|) &&
    (forall i, j :: 0 <= i < |aut| && 0 <= j < |inv| ==> (aut[i] == j <==> inv[j] == i))
  }

  /** Literal nodes are permuted among themselves. */
  ghost predicate KeepsLiterals(aut: seq<nat>, n: nat) {
    2 * n <= |aut| && forall i :: 0 <= i < |aut| ==> (IsLiteralNode(i, n) <==> IsLiteralNode(aut[i], n))
  }

  ghost function Unseen(seen: seq<bool>): set<nat> { set i: nat | i < |seen| && !seen[i] }

  /** Nodes already visited; on the current cycle `last` has an unvisited image and `first` an
      unvisited preimage, unless the walk is between cycles. */
  ghost predicate Walked(aut: seq<nat>, inv: seq<nat>, seen: seq<bool>, between: bool, first: nat, last: nat)
    requires Inverts(aut, inv)
  {
    |seen| == |aut| &&
    (forall x :: 0 <= x < |aut| && seen[x] ==> aut[x] != x) &&
    (forall x {:trigger seen[x], aut[x]} :: 0 <= x < |aut| && seen[x] && (between || x != last) ==> seen[aut[x]]) &&
    (forall x {:trigger seen[x], inv[x]} :: 0 <= x < |aut| && seen[x] && (between || x != first) ==>
      seen[inv[x]] && (between || inv[x] != last))
  }

  lemma WalkOpens(aut: seq<nat>, inv: seq<nat>, seen: seq<bool>, i: nat)
    requires Inverts(aut, inv) && Walked(aut, inv, seen, true, 0, 0)
    requires i < |aut| && !seen[i] && aut[i] != i
    ensures Walked(aut, inv, seen[i := true], false, i, i)
  {
    InversesFit(aut, inv);
    hide Inverts;
    var next := seen[i := true];
    forall x | 0 <= x < |aut| && next[x] && x != i ensures next[inv[x]] && inv[x] != i && next[aut[x]] {
      assert seen[x];
      assert seen[aut[x]] && seen[inv[x]];
    }
  }

  lemma InversesFit(aut: seq<nat>, inv: seq<nat>)
    requires Inverts(aut, inv)
    ensures |inv| == |aut| && (forall x :: 0 <= x < |aut| ==> aut[x] < |aut|)
    ensures forall x :: 0 <= x < |inv| ==> inv[x] < |aut|
  {
  }

  lemma WalkExtends(aut: seq<nat>, inv: seq<nat>, seen: seq<bool>, i: nat, last: nat)
    requires Inverts(aut, inv) && Walked(aut, inv, seen, false, i, last)
    requires i < |aut| && last < |aut| && seen[last] && aut[last] != i
    ensures !seen[aut[last]] && Walked(aut, inv, seen[aut[last] := true], false, i, aut[last])
    ensures Unseen(seen[aut[last] := true]) == Unseen(seen) - {aut[last]}
  {
    var j := aut[last];
    assert inv[j] == last;
    var next := seen[j := true];
    forall x | 0 <= x < |aut| && next[x]
      ensures aut[x] != x && (x != j ==> next[aut[x]]) && (x != i ==> next[inv[x]] && inv[x] != j)
    {
      assert x != j ==> seen[x];
      assert inv[x] == j ==> aut[j] == x;
    }
  }

  lemma WalkCloses(aut: seq<nat>, inv: seq<nat>, seen: seq<bool>, i: nat, last: nat)
    requires Inverts(aut, inv) && Walked(aut, inv, seen, false, i, last)
    requires i < |aut| && last < |aut| && seen[last] && seen[i] && aut[last] == i
    ensures Walked(aut, inv, seen, true, 0, 0)
  {
    assert inv[i] == last;
  }

  /** The tables hold the visited literals with their images. */
  ghost predicate Holding(cycles: seq<Literal>, image: map<Literal, Literal>, aut: seq<nat>, n: nat, seen: seq<bool>)
    requires 2 * n <= |aut| == |seen|
  {
    (forall l :: l in cycles <==> l.variable < n && seen[LiteralToNode(l, n)]) &&
    (forall l :: l in image ==>
                   l.variable < n && IsLiteralNode(aut[LiteralToNode(l, n)], n) &&
                   image[l] == NodeToLiteral(aut[LiteralToNode(l, n)], n))
  }

  lemma HoldsNext(cycles: seq<Literal>, image: map<Literal, Literal>, aut: seq<nat>, n: nat, seen: seq<bool>, j: nat)
    requires 2 * n <= |aut| == |seen| && Holding(cycles, image, aut, n, seen) && j < |seen|
    ensures if IsLiteralNode(j, n) then Holding(cycles + [NodeToLiteral(j, n)], image, aut, n, seen[j := true])
            else Holding(cycles, image, aut, n, seen[j := true])
    ensures IsLiteralNode(j, n) && !seen[j] ==> NodeToLiteral(j, n) !in cycles
  {
    NodesAreLiterals(n);
  }

  lemma HoldsImage(cycles: seq<Literal>, image: map<Literal, Literal>, aut: seq<nat>, n: nat, seen: seq<bool>,
                   last: nat)
    requires 2 * n <= |aut| == |seen| && Holding(cycles, image, aut, n, seen)
    requires last < |aut| && IsLiteralNode(last, n) && IsLiteralNode(aut[last], n)
    ensures Holding(cycles, image[NodeToLiteral(last, n) := NodeToLiteral(aut[last], n)], aut, n, seen)
  {
    NodesAreLiterals(n);
  }

  lemma HoldsAll(cycles: seq<Literal>, image: map<Literal, Literal>, aut: seq<nat>, inv: seq<nat>, n: nat,
                 seen: seq<bool>)
    requires Inverts(aut, inv) && 2 * n <= |aut| == |seen| && Holding(cycles, image, aut, n, seen)
    requires Walked(aut, inv, seen, true, 0, 0) && forall x :: 0 <= x < |aut| ==> aut[x] == x || seen[x]
    ensures forall l :: l in cycles <==> l.variable < n && aut[LiteralToNode(l, n)] != LiteralToNode(l, n)
    ensures forall l :: l in image ==> LiteralToNode(image[l], n) == aut[LiteralToNode(l, n)]
  {
    NodesAreLiterals(n);
  }

  /** The state of the walk inside the cycle of `first`. */
  ghost predicate InCycle(p: Permutation, aut: seq<nat>, inv: seq<nat>, n: nat, seen: seq<bool>, first: nat, last: nat)
    reads p
  {
    Inverts(aut, inv) && 2 * n <= |aut| == |seen| && first < |aut| && last < |aut| && seen[last] && seen[first] &&
    Walked(aut, inv, seen, false, first, last) && (forall x :: 0 <= x <= first ==> aut[x] == x || seen[x]) &&
    p.Valid() && Holding(p.cycles, p.image, aut, n, seen) &&
    (IsLiteralNode(first, n) <==> IsLiteralNode(last, n)) &&
    p.OpenStart() <= |p.cycles| &&
    (if IsLiteralNode(first, n)
     then p.OpenStart() < |p.cycles| && p.cycles[p.OpenStart()] == NodeToLiteral(first, n) &&
          p.cycles[|p.cycles| - 1] == NodeToLiteral(last, n)
     else p.OpenStart() == |p.cycles|) &&
    (|p.cycles| == p.OpenStart() + 1 ==> last == first)
  }

  /** The inner loop: mark and record the cycle of `i` until it comes back to `i`. */
  method FollowCycle(p: Permutation, aut: seq<nat>, numVars: nat, ghost inv: seq<nat>, seen0: seq<bool>, i: nat)
    returns (seen: seq<bool>, ghost last: nat)
    requires KeepsLiterals(aut, numVars) && InCycle(p, aut, inv, numVars, seen0, i, i)
    modifies p
    ensures InCycle(p, aut, inv, numVars, seen, i, last) && aut[last] == i
  {
    hide Tables, MutuallyInverse, Walked, Holding;
    seen, last := seen0, i;
    var j := aut[i];
    while j != i
      invariant InCycle(p, aut, inv, numVars, seen, i, last) && j == aut[last]
      decreases |Unseen(seen)|
    {
      WalkExtends(aut, inv, seen, i, last);
      HoldsNext(p.cycles, p.image, aut, numVars, seen, j);
      if IsLiteralNode(j, numVars) {
        HoldsImage(p.cycles + [NodeToLiteral(j, numVars)], p.image, aut, numVars, seen[j := true], last);
        p.AddToCurrentCycle(NodeToLiteral(j, numVars));
      }
      seen := seen[j := true];
      last := j;
      j := aut[j];
    }
  }

  /** The image of a literal under the automorphism is its image under the permutation, with
      fixed literals left out of the tables; the tables are two-sided inverses. */
  method OnAutomorphism(aut: seq<nat>, numVars: nat, ghost inv: seq<nat>) returns (p: Permutation)
    requires Inverts(aut, inv) && KeepsLiterals(aut, numVars)
    ensures fresh(p) && p.Closed() && p.size == numVars
    ensures forall l :: l in p.image <==>
        l.variable < numVars && aut[LiteralToNode(l, numVars)] != LiteralToNode(l, numVars)
    ensures forall l :: l in p.image ==> LiteralToNode(p.image[l], numVars) == aut[LiteralToNode(l, numVars)]
    ensures p.inverse.Keys == p.image.Keys && MutuallyInverse(p.image, p.inverse)
  {
    hide Tables, MutuallyInverse, Walked, Holding;
    p := new Permutation(numVars);
    var n := |aut|;
    var seen := seq(n, (x: nat) => false);
    WalkStarts(aut, inv, numVars, seen);
    var i := 0;
    while i < n
      invariant 0 <= i <= n && |seen| == n && fresh(p) && p.size == numVars
      invariant Walked(aut, inv, seen, true, 0, 0)
      invariant forall x :: 0 <= x < i ==> aut[x] == x || seen[x]
      invariant p.Closed() && Holding(p.cycles, p.image, aut, numVars, seen)
    {
      if i != aut[i] && !seen[i] {
        seen := AddCycle(p, aut, numVars, inv, seen, i);
      }
      i := i + 1;
    }
    HoldsAll(p.cycles, p.image, aut, inv, numVars, seen);
    TablesFit(p.cycles, p.cyclesLim, p.image, p.inverse);
  }

  /** The cycle through a node not seen yet, if it is a literal's, goes into the permutation. */
  method AddCycle(p: Permutation, aut: seq<nat>, numVars: nat, ghost inv: seq<nat>, before: seq<bool>, i: nat)
    returns (seen: seq<bool>)
    requires Inverts(aut, inv) && KeepsLiterals(aut, numVars) && |before| == |aut| && i < |aut| && i != aut[i]
    requires !before[i]
    requires Walked(aut, inv, before, true, 0, 0) && p.Closed() && p.size == numVars
    requires Holding(p.cycles, p.image, aut, numVars, before)
    requires forall x :: 0 <= x < i ==> aut[x] == x || before[x]
    modifies p
    ensures |seen| == |aut| && forall x :: 0 <= x <= i ==> aut[x] == x || seen[x]
    ensures Walked(aut, inv, seen, true, 0, 0) && p.Closed() && Holding(p.cycles, p.image, aut, numVars, seen)
  {
    hide Tables, MutuallyInverse, Walked, Holding;
    seen := before;
    WalkOpens(aut, inv, seen, i);
    HoldsNext(p.cycles, p.image, aut, numVars, seen, i);
    if IsLiteralNode(i, numVars) {
      p.AddToCurrentCycle(NodeToLiteral(i, numVars));
    }
    seen := seen[i := true];
    ghost var last;
    seen, last := FollowCycle(p, aut, numVars, inv, seen, i);
    WalkCloses(aut, inv, seen, i, last);
    if IsLiteralNode(i, numVars) {
      HoldsImage(p.cycles, p.image, aut, numVars, seen, last);
    }
    p.CloseCurrentCycle();
  }

  lemma WalkStarts(aut: seq<nat>, inv: seq<nat>, n: nat, seen: seq<bool>)
    requires Inverts(aut, inv) && 2 * n <= |aut| == |seen| && forall x :: 0 <= x < |seen| ==> !seen[x]
    ensures Walked(aut, inv, seen, true, 0, 0) && Holding([], map[], aut, n, seen)
  {
  }
}
