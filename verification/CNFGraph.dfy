/** The graph whose automorphisms are read as symmetries of a formula. */
module CNFGraphs {
  import opened Logic
  import opened Automorphism

  const CLAUSE_COLOR: nat := 1

  /** The clauses that get a node of their own. */
  function NodeClauses(clauses: seq<Clause>): seq<Clause> {
    if clauses == [] then []
    else
      var front, c := clauses[..|clauses| - 1], clauses[|clauses| - 1];
      if |c| == 2 then NodeClauses(front) else NodeClauses(front) + [c]
  }

  ghost predicate OverVariables(clauses: seq<Clause>, n: nat) {
    forall c, l :: c in clauses && l in c ==> l.variable < n
  }

  ghost predicate IsBinary(clauses: seq<Clause>, a: Literal, b: Literal) {
    [a, b] in clauses || [b, a] in clauses
  }

  ghost predicate InClauseNode(clauses: seq<Clause>, n: nat, x: nat, y: nat) {
    2 * n <= x < 2 * n + |NodeClauses(clauses)| && IsLiteralNode(y, n) &&
    NodeToLiteral(y, n) in NodeClauses(clauses)[x - 2 * n]
  }

  /** The edges the clauses call for: between the literals of a binary clause, and between the
      node of any other clause and its literals. */
  ghost predicate ClauseEdge(clauses: seq<Clause>, n: nat, x: nat, y: nat) {
    InClauseNode(clauses, n, x, y) || InClauseNode(clauses, n, y, x) ||
    (IsLiteralNode(x, n) && IsLiteralNode(y, n) && IsBinary(clauses, NodeToLiteral(x, n), NodeToLiteral(y, n)))
  }

  ghost predicate NegationEdge(n: nat, x: nat, y: nat) {
    (x < n && y == x + n) || (y < n && x == y + n)
  }

  ghost predicate Occurs(clauses: seq<Clause>, l: Literal) {
    exists c :: c in clauses && l in c
  }

  ghost predicate Adjacent(adjacency: seq<seq<nat>>, x: nat, y: nat) {
    x < |adjacency| && y in adjacency[x]
  }

  /** The finished graph: both kinds of edges, one colour for clauses and others for literals. */
  ghost predicate Encodes(adjacency: seq<seq<nat>>, colors: seq<nat>, clauses: seq<Clause>, n: nat) {
    |adjacency| == |colors| == 2 * n + |NodeClauses(clauses)| &&
    (forall x: nat, y: nat :: Adjacent(adjacency, x, y) <==> ClauseEdge(clauses, n, x, y) || NegationEdge(n, x, y)) &&
    (forall x :: 0 <= x < |colors| ==> (colors[x] == CLAUSE_COLOR <==> x >= 2 * n))
  }

  // ---------------------------------------------------------------- construction

  function Degree(adjacency: seq<seq<nat>>, x: nat): nat { if x < |adjacency| then |adjacency[x]| else 0 }

  /** Both literals of a variable have one neighbour, which is the other one. */
  predicate Lonely(adjacency: seq<seq<nat>>, n: nat, v: nat) {
    Degree(adjacency, v) == 1 && Degree(adjacency, n + v) == 1
  }

  /** No clause mentions the variable. */
  ghost predicate Unused(clauses: seq<Clause>, v: nat) {
    !Occurs(clauses, Literal(v, true)) && !Occurs(clauses, Literal(v, false))
  }

  /** Both literals of an unused variable have colours of their own, so that no automorphism
      moves them. */
  ghost predicate UnusedFixed(colors: seq<nat>, clauses: seq<Clause>, n: nat) {
    forall v: nat, x: nat :: v < n && Unused(clauses, v) && n + v < |colors| && x < |colors| ==>
      (colors[x] == colors[v] ==> x == v) && (colors[x] == colors[n + v] ==> x == n + v)
  }

  /** The literals of the other variables all look alike. */
  ghost predicate UsedPlain(colors: seq<nat>, clauses: seq<Clause>, n: nat) {
    forall v: nat :: v < n && !Unused(clauses, v) && n + v < |colors| ==> colors[v] == 0 && colors[n + v] == 0
  }

  function EdgeCount(clauses: seq<Clause>): nat {
    if clauses == [] then 0
    else
      var front, c := clauses[..|clauses| - 1], clauses[|clauses| - 1];
      EdgeCount(front) + if |c| == 2 then 1 else |c|
  }

  ghost predicate PartOfClause(n: nat, c: Clause, node: nat, k: nat, x: nat, y: nat)
    requires k <= |c|
  {
    x == node && IsLiteralNode(y, n) && NodeToLiteral(y, n) in c[..k]
  }

  lemma NextClause(clauses: seq<Clause>, i: nat, n: nat, x: nat, y: nat)
    requires i < |clauses|
    ensures clauses[..i + 1] == clauses[..i] + [clauses[i]]
    ensures NodeClauses(clauses[..i + 1]) == NodeClauses(clauses[..i]) + if |clauses[i]| == 2 then [] else [clauses[i]]
    ensures EdgeCount(clauses[..i + 1]) == EdgeCount(clauses[..i]) + if |clauses[i]| == 2 then 1 else |clauses[i]|
    ensures var c, node := clauses[i], 2 * n + |NodeClauses(clauses[..i])|;
            ClauseEdge(clauses[..i + 1], n, x, y) <==>
              ClauseEdge(clauses[..i], n, x, y) ||
              (if |c| == 2
               then IsLiteralNode(x, n) && IsLiteralNode(y, n) &&
                    (c == [NodeToLiteral(x, n), NodeToLiteral(y, n)] || c == [NodeToLiteral(y, n), NodeToLiteral(x, n)])
               else PartOfClause(n, c, node, |c|, x, y) || PartOfClause(n, c, node, |c|, y, x))
  {
    assert clauses[..i + 1][..i] == clauses[..i];
    assert clauses[i][..|clauses[i]|] == clauses[i];
  }

  lemma {:induction false} NodeClausesAre(clauses: seq<Clause>)
    ensures forall c :: c in NodeClauses(clauses) <==> c in clauses && |c| != 2
  {
    if clauses != [] {
      var front, c := clauses[..|clauses| - 1], clauses[|clauses| - 1];
      NodeClausesAre(front);
      assert clauses == front + [c];
    }
  }

  lemma NoEdges(n: nat, adjacency: seq<seq<nat>>)
    requires adjacency == []
    ensures forall x: nat, y: nat :: Adjacent(adjacency, x, y) <==> ClauseEdge([], n, x, y)
  {
  }

  lemma BinaryNodes(c: Clause, n: nat)
    requires |c| == 2 && NoRepeats(c) && forall l :: l in c ==> l.variable < n
    ensures LiteralToNode(c[0], n) != LiteralToNode(c[1], n) && LiteralToNode(c[0], n) < 2 * n
    ensures LiteralToNode(c[1], n) < 2 * n
    ensures forall x: nat, y: nat :: (x == LiteralToNode(c[0], n) && y == LiteralToNode(c[1], n)) <==>
              IsLiteralNode(x, n) && IsLiteralNode(y, n) && c == [NodeToLiteral(x, n), NodeToLiteral(y, n)]
  {
    assert c[0] in c && c[1] in c && c[0] != c[1] && c == [c[0], c[1]];
  }

  lemma PartNone(n: nat, c: Clause, node: nat)
    ensures forall x, y :: !PartOfClause(n, c, node, 0, x, y)
  {
  }

  lemma PartNext(n: nat, c: Clause, node: nat, k: nat)
    requires k < |c| && c[k].variable < n
    ensures forall x, y :: PartOfClause(n, c, node, k + 1, x, y) <==>
              PartOfClause(n, c, node, k, x, y) || (x == node && y == LiteralToNode(c[k], n))
  {
    NodesAreLiterals(n);
    assert c[..k + 1] == c[..k] + [c[k]];
    forall x: nat, y: nat
      ensures PartOfClause(n, c, node, k + 1, x, y) <==>
          PartOfClause(n, c, node, k, x, y) || (x == node && y == LiteralToNode(c[k], n))
    {
      assert IsLiteralNode(y, n) ==> (NodeToLiteral(y, n) == c[k] <==> y == LiteralToNode(c[k], n));
    }
  }

  ghost predicate OwnColor(colors: seq<nat>, x: nat) {
    x < |colors| && colors[x] > CLAUSE_COLOR && forall y :: 0 <= y < |colors| && colors[y] == colors[x] ==> y == x
  }

  /** Colours from 2 up to `next` are used once each, the rest is still plain. */
  ghost predicate Painted(colors: seq<nat>, next: nat) {
    next > CLAUSE_COLOR &&
    (forall x :: 0 <= x < |colors| ==> colors[x] == 0 || CLAUSE_COLOR < colors[x] < next) &&
    (forall x, y :: 0 <= x < y < |colors| && colors[x] != 0 ==> colors[x] != colors[y])
  }

  lemma PaintNone(colors: seq<nat>)
    requires forall x :: 0 <= x < |colors| ==> colors[x] == 0
    ensures Painted(colors, CLAUSE_COLOR + 1)
  {
  }

  lemma PaintAll(colors: seq<nat>, next: nat)
    requires Painted(colors, next)
    ensures forall x :: 0 <= x < |colors| ==> colors[x] != CLAUSE_COLOR && (colors[x] != 0 ==> OwnColor(colors, x))
  {
  }

  lemma PaintTwo(colors: seq<nat>, next: nat, x: nat, y: nat)
    requires Painted(colors, next) && x < y < |colors|
    ensures Painted(colors[x := next][y := next + 1], next + 2)
  {
  }

  lemma FirstNeighbour(adjacency: seq<seq<nat>>, x: nat) returns (y: nat)
    requires Degree(adjacency, x) > 0
    ensures Adjacent(adjacency, x, y)
  {
    y := adjacency[x][0];
  }

  lemma SomeNeighbour(clauses: seq<Clause>, n: nat, l: Literal) returns (y: nat)
    requires OverVariables(clauses, n) && l.variable < n && Occurs(clauses, l)
    ensures ClauseEdge(clauses, n, LiteralToNode(l, n), y)
  {
    NodesAreLiterals(n);
    NodeClausesAre(clauses);
    var c :| c in clauses && l in c;
    if |c| == 2 {
      var k := if c[0] == l then c[1] else c[0];
      y := LiteralToNode(k, n);
      assert k in c && (c == [l, k] || c == [k, l]);
    } else {
      var j :| 0 <= j < |NodeClauses(clauses)| && NodeClauses(clauses)[j] == c;
      y := 2 * n + j;
      assert InClauseNode(clauses, n, y, LiteralToNode(l, n));
    }
  }

  lemma EdgeOccurs(clauses: seq<Clause>, n: nat, l: Literal, y: nat)
    requires l.variable < n && ClauseEdge(clauses, n, LiteralToNode(l, n), y)
    ensures Occurs(clauses, l)
  {
    NodesAreLiterals(n);
    NodeClausesAre(clauses);
    if InClauseNode(clauses, n, y, LiteralToNode(l, n)) {
      assert NodeClauses(clauses)[y - 2 * n] in NodeClauses(clauses);
    }
  }

  /** A literal node has no neighbour but its negation exactly if no clause has the literal. */
  lemma UsedLiterals(before: seq<seq<nat>>, after: seq<seq<nat>>, clauses: seq<Clause>, n: nat)
    requires forall x: nat, y: nat :: Adjacent(before, x, y) <==> ClauseEdge(clauses, n, x, y)
    requires forall x :: 0 <= x < 2 * n ==> Degree(after, x) == Degree(before, x) + 1
    requires OverVariables(clauses, n)
    ensures forall l: Literal :: l.variable < n ==> (Degree(after, LiteralToNode(l, n)) == 1 <==> !Occurs(clauses, l))
  {
    hide OverVariables, ClauseEdge, Occurs;
    NodesAreLiterals(n);
    forall l: Literal | l.variable < n && Occurs(clauses, l) ensures Degree(after, LiteralToNode(l, n)) > 1 {
      var y := SomeNeighbour(clauses, n, l);
      assert Adjacent(before, LiteralToNode(l, n), y);
    }
    forall l: Literal | l.variable < n && !Occurs(clauses, l) ensures Degree(after, LiteralToNode(l, n)) == 1 {
      if Degree(before, LiteralToNode(l, n)) > 0 {
        var y := FirstNeighbour(before, LiteralToNode(l, n));
        EdgeOccurs(clauses, n, l, y);
      }
    }
  }

  lemma ColorsFix(literalColors: seq<nat>, colors: seq<nat>, adjacency: seq<seq<nat>>, clauses: seq<Clause>, n: nat)
    requires 2 * n <= |colors| == |literalColors|
    requires forall x :: 0 <= x < |colors| ==> colors[x] == if x < 2 * n then literalColors[x] else CLAUSE_COLOR
    requires forall l: Literal :: l.variable < n ==>
               (Degree(adjacency, LiteralToNode(l, n)) == 1 <==> !Occurs(clauses, l))
    requires LiteralsColored(adjacency, literalColors, n)
    ensures UnusedFixed(colors, clauses, n) && UsedPlain(colors, clauses, n)
  {
    forall v: nat | v < n ensures Lonely(adjacency, n, v) <==> Unused(clauses, v) {
      assert Degree(adjacency, LiteralToNode(Literal(v, true), n)) == 1 <==> !Occurs(clauses, Literal(v, true));
      assert Degree(adjacency, LiteralToNode(Literal(v, false), n)) == 1 <==> !Occurs(clauses, Literal(v, false));
    }
    forall v: nat | v < n && !Unused(clauses, v) && n + v < |colors| ensures colors[v] == 0 && colors[n + v] == 0 {
      assert !Lonely(adjacency, n, v);
    }
    forall v: nat, x: nat | v < n && Unused(clauses, v) && n + v < |colors| && x < |colors|
      ensures (colors[x] == colors[v] ==> x == v) && (colors[x] == colors[n + v] ==> x == n + v)
    {
      assert Lonely(adjacency, n, v);
      assert OwnColor(literalColors, v) && OwnColor(literalColors, n + v);
    }
  }

  /** Colours of their own for the literals of lonely variables, and one for all others. */
  ghost predicate LiteralsColored(adjacency: seq<seq<nat>>, colors: seq<nat>, n: nat) {
    2 * n <= |colors| &&
    (forall v: nat :: v < n && Lonely(adjacency, n, v) ==> OwnColor(colors, v) && OwnColor(colors, n + v)) &&
    (forall v: nat :: v < n && !Lonely(adjacency, n, v) ==> colors[v] == 0 && colors[n + v] == 0)
  }

  /** The literals of the first `k` variables have their colours, all other nodes are still plain. */
  ghost predicate ColoredBelow(adjacency: seq<seq<nat>>, colors: seq<nat>, n: nat, k: nat) {
    2 * n <= |colors| && k <= n &&
    (forall x :: 0 <= x < |colors| && (x >= 2 * n || k <= x < n || n + k <= x) ==> colors[x] == 0) &&
    forall u: nat {:trigger Lonely(adjacency, n, u)} :: u < k ==>
      if Lonely(adjacency, n, u) then colors[u] != 0 && colors[n + u] != 0 else colors[u] == 0 && colors[n + u] == 0
  }

  lemma NothingColored(adjacency: seq<seq<nat>>, colors: seq<nat>, n: nat)
    requires 2 * n <= |colors| && forall x :: 0 <= x < |colors| ==> colors[x] == 0
    ensures ColoredBelow(adjacency, colors, n, 0)
  {
  }

  lemma ColoredNext(adjacency: seq<seq<nat>>, before: seq<nat>, colors: seq<nat>, n: nat, k: nat)
    requires ColoredBelow(adjacency, before, n, k) && k < n && |colors| == |before|
    requires forall z :: 0 <= z < |colors| && z != k && z != n + k ==> colors[z] == before[z]
    requires if Lonely(adjacency, n, k) then colors[k] != 0 && colors[n + k] != 0 else colors == before
    ensures ColoredBelow(adjacency, colors, n, k + 1)
  {
    hide Lonely;
  }

  lemma AllColored(adjacency: seq<seq<nat>>, colors: seq<nat>, n: nat)
    requires ColoredBelow(adjacency, colors, n, n)
    requires forall x :: 0 <= x < |colors| ==> colors[x] != CLAUSE_COLOR && (colors[x] != 0 ==> OwnColor(colors, x))
    ensures LiteralsColored(adjacency, colors, n)
    ensures forall x :: 0 <= x < |colors| ==> colors[x] != CLAUSE_COLOR && (x >= 2 * n ==> colors[x] == 0)
  {
    hide Lonely, OwnColor;
  }

  class CNFGraph {
    var numNodes: nat
    var numEdges: nat
    var adjacency: seq<seq<nat>>
    var colors: seq<nat>

    ghost predicate Valid()
      reads this
    {
      |adjacency| == |colors| == numNodes
    }

    constructor ()
      ensures Valid() && numNodes == numEdges == 0
    {
      numNodes, numEdges, adjacency, colors := 0, 0, [], [];
    }

    method AddNode(node: nat)
      requires Valid()
      modifies this
      ensures Valid() && numEdges == old(numEdges)
      ensures numNodes == if old(numNodes) > node then old(numNodes) else node + 1
      ensures adjacency == old(adjacency) + seq(numNodes - old(numNodes), i => [])
      ensures colors == old(colors) + seq(numNodes - old(numNodes), i => 0)
    {
      if numNodes > node {
        assert adjacency == adjacency + [] && colors == colors + [];
        return;
      }
      adjacency := adjacency + seq(node + 1 - numNodes, i => []);
      colors := colors + seq(node + 1 - numNodes, i => 0);
      numNodes := node + 1;
    }

    method AddEdge(from: nat, to: nat)
      requires Valid()
      modifies this
      ensures Valid() && numEdges == old(numEdges) + 1
      ensures var m := (if from > to then from else to); numNodes == if old(numNodes) > m then old(numNodes) else m + 1
      ensures forall x: nat, y: nat :: Adjacent(adjacency, x, y) <==>
                Adjacent(old(adjacency), x, y) || (x == from && y == to) || (x == to && y == from)
      ensures forall x ::
                Degree(adjacency, x) ==
                  Degree(old(adjacency), x) + (if x == from then 1 else 0) + if x == to then 1 else 0
      ensures forall x :: 0 <= x < numNodes ==> colors[x] == if x < |old(colors)| then old(colors)[x] else 0
    {
      AddNode(if from > to then from else to);
      adjacency := adjacency[from := adjacency[from] + [to]];
      adjacency := adjacency[to := adjacency[to] + [from]];
      numEdges := numEdges + 1;
    }

    /** The graph of a clause list; literals are distinct within a clause, clauses not empty. */
    method Assign(clauses: seq<Clause>, n: nat)
      requires Valid() && numNodes == 0
      requires OverVariables(clauses, n) && forall c :: c in clauses ==> c != [] && NoRepeats(c)
      modifies this
      ensures Valid() && Encodes(adjacency, colors, clauses, n) && UnusedFixed(colors, clauses, n)
      ensures UsedPlain(colors, clauses, n) && numEdges == old(numEdges) + EdgeCount(clauses) + n
    {
      hide ClauseEdge, Adjacent, OverVariables, UnusedFixed, UsedPlain, LiteralsColored;
      var numClauses := AddClauses(clauses, n);
      ghost var before := adjacency;
      AddNegations(n);
      assert forall x: nat, y: nat :: Adjacent(adjacency, x, y) <==>
        ClauseEdge(clauses, n, x, y) || NegationEdge(n, x, y);
      ColorLiterals(n);
      UsedLiterals(before, adjacency, clauses, n);
      ghost var literalColors := colors;
      ColorClauses(2 * n, numClauses);
      ColorsFix(literalColors, colors, adjacency, clauses, n);
    }

    method AddClauses(clauses: seq<Clause>, n: nat) returns (numClauses: nat)
      requires Valid() && numNodes == 0
      requires OverVariables(clauses, n) && forall c :: c in clauses ==> c != [] && NoRepeats(c)
      modifies this
      ensures Valid() && numClauses == 2 * n + |NodeClauses(clauses)| && numNodes <= numClauses
      ensures numEdges == old(numEdges) + EdgeCount(clauses)
      ensures numClauses > 2 * n ==> numNodes == numClauses
      ensures forall x :: 0 <= x < numNodes ==> colors[x] == 0
      ensures forall x: nat, y: nat :: Adjacent(adjacency, x, y) <==> ClauseEdge(clauses, n, x, y)
    {
      hide ClauseEdge, Adjacent, PartOfClause;
      numClauses := 2 * n;
      NoEdges(n, adjacency);
      assert clauses[..0] == [];
      var i := 0;
      while i < |clauses|
        invariant 0 <= i <= |clauses| && Valid() && numEdges == old(numEdges) + EdgeCount(clauses[..i])
        invariant numClauses == 2 * n + |NodeClauses(clauses[..i])| && numNodes <= numClauses
        invariant numClauses > 2 * n ==> numNodes == numClauses
        invariant forall x :: 0 <= x < numNodes ==> colors[x] == 0
        invariant forall x: nat, y: nat :: Adjacent(adjacency, x, y) <==> ClauseEdge(clauses[..i], n, x, y)
      {
        var clause := clauses[i];
        ghost var before := adjacency;
        assert clause in clauses;
        if |clause| == 2 {
          BinaryNodes(clause, n);
          assert clause[0] in clause && clause[1] in clause;
          AddEdge(LiteralToNode(clause[0], n), LiteralToNode(clause[1], n));
        } else {
          AddClauseNode(clause, n, numClauses);
          numClauses := numClauses + 1;
        }
        forall x: nat, y: nat ensures Adjacent(adjacency, x, y) <==> ClauseEdge(clauses[..i + 1], n, x, y) {
          NextClause(clauses, i, n, x, y);
          assert Adjacent(before, x, y) <==> ClauseEdge(clauses[..i], n, x, y);
        }
        NextClause(clauses, i, n, 0, 0);
        i := i + 1;
      }
      assert clauses[..i] == clauses;
    }

    /** The literals of a clause that is not binary are linked to a node of its own. */
    method AddClauseNode(clause: Clause, n: nat, node: nat)
      requires Valid() && numNodes <= node && 2 * n <= node && clause != []
      requires forall l :: l in clause ==> l.variable < n
      modifies this
      ensures Valid() && numNodes == node + 1 && numEdges == old(numEdges) + |clause|
      ensures forall x :: 0 <= x < numNodes ==> colors[x] == if x < |old(colors)| then old(colors)[x] else 0
      ensures forall x: nat, y: nat :: Adjacent(adjacency, x, y) <==>
                Adjacent(old(adjacency), x, y) || PartOfClause(n, clause, node, |clause|, x, y) ||
                  PartOfClause(n, clause, node, |clause|, y, x)
    {
      hide Adjacent, PartOfClause;
      PartNone(n, clause, node);
      var k := 0;
      while k < |clause|
        invariant numEdges == old(numEdges) + k
        invariant 0 <= k <= |clause| && Valid() && numNodes == if k == 0 then old(numNodes) else node + 1
        invariant forall x :: 0 <= x < numNodes ==> colors[x] == if x < |old(colors)| then old(colors)[x] else 0
        invariant forall x: nat, y: nat :: Adjacent(adjacency, x, y) <==>
                    Adjacent(old(adjacency), x, y) || PartOfClause(n, clause, node, k, x, y) ||
                      PartOfClause(n, clause, node, k, y, x)
      {
        assert clause[k] in clause;
        PartNext(n, clause, node, k);
        AddEdge(LiteralToNode(clause[k], n), node);
        k := k + 1;
      }
    }

    /** Boolean consistency: every literal is linked to its negation. */
    method AddNegations(n: nat)
      requires Valid()
      modifies this
      ensures Valid() && numNodes == if old(numNodes) > 2 * n then old(numNodes) else 2 * n
      ensures numEdges == old(numEdges) + n
      ensures forall x :: 0 <= x < numNodes ==> colors[x] == if x < |old(colors)| then old(colors)[x] else 0
      ensures forall x: nat, y: nat :: Adjacent(adjacency, x, y) <==>
          Adjacent(old(adjacency), x, y) || NegationEdge(n, x, y)
      ensures forall x :: 0 <= x < 2 * n ==> Degree(adjacency, x) == Degree(old(adjacency), x) + 1
    {
      hide Adjacent;
      var v := 0;
      while v < n
        invariant 0 <= v <= n && Valid() && numEdges == old(numEdges) + v
        invariant old(numNodes) <= numNodes && (v > 0 ==> numNodes >= n + v)
        invariant numNodes <= if old(numNodes) > 2 * n then old(numNodes) else 2 * n
        invariant forall x :: 0 <= x < numNodes ==> colors[x] == if x < |old(colors)| then old(colors)[x] else 0
        invariant forall x: nat, y: nat :: Adjacent(adjacency, x, y) <==>
                    Adjacent(old(adjacency), x, y) || (x < v && y == x + n) || (y < v && x == y + n)
        invariant forall x :: 0 <= x < 2 * n ==>
            Degree(adjacency, x) == Degree(old(adjacency), x) + if x < v || n <= x < n + v then 1 else 0
      {
        AddEdge(LiteralToNode(Literal(v, true), n), LiteralToNode(Literal(v, false), n));
        v := v + 1;
      }
    }

    /** Literals of variables without clauses get colours nobody else has. */
    method ColorLiterals(n: nat)
      requires Valid() && numNodes >= 2 * n && forall x :: 0 <= x < numNodes ==> colors[x] == 0
      modifies this`colors
      ensures Valid() && |colors| == numNodes
      ensures forall x :: 0 <= x < numNodes ==> colors[x] != CLAUSE_COLOR && (x >= 2 * n ==> colors[x] == 0)
      ensures LiteralsColored(adjacency, colors, n)
    {
      hide Painted, OwnColor, Degree, Adjacent, ClauseEdge, ColoredBelow, LiteralsColored;
      NothingColored(adjacency, colors, n);
      PaintNone(colors);
      var color := CLAUSE_COLOR + 1;
      var v := 0;
      while v < n
        invariant 0 <= v <= n && Valid() && color > CLAUSE_COLOR
        invariant Painted(colors, color) && ColoredBelow(adjacency, colors, n, v)
      {
        var x, y := LiteralToNode(Literal(v, true), n), LiteralToNode(Literal(v, false), n);
        ghost var before := colors;
        if Degree(adjacency, x) == 1 && Degree(adjacency, y) == 1 {
          ColorPair(x, y, color);
          color := color + 2;
        }
        ColoredNext(adjacency, before, colors, n, v);
        v := v + 1;
      }
      PaintAll(colors, color);
      AllColored(adjacency, colors, n);
    }

    method ColorClauses(first: nat, last: nat)
      requires Valid() && first <= last == numNodes
      modifies this`colors
      ensures Valid() && |colors| == numNodes
      ensures forall x :: 0 <= x < numNodes ==> colors[x] == if x < first then old(colors)[x] else CLAUSE_COLOR
    {
      var i := first;
      while i < last
        invariant first <= i <= last && Valid()
        invariant forall x :: 0 <= x < numNodes ==> colors[x] == if first <= x < i then CLAUSE_COLOR else old(colors)[x]
      {
        ChangeColor(i, CLAUSE_COLOR);
        i := i + 1;
      }
    }

    method ColorPair(x: nat, y: nat, color: nat)
      requires Valid() && x < y < numNodes && Painted(colors, color)
      modifies this`colors
      ensures Valid() && Painted(colors, color + 2) && colors[x] != 0 && colors[y] != 0
      ensures forall z :: 0 <= z < numNodes && z != x && z != y ==> colors[z] == old(colors)[z]
    {
      PaintTwo(colors, color, x, y);
      ChangeColor(x, color);
      ChangeColor(y, color + 1);
    }

    method ChangeColor(node: nat, color: nat)
      requires Valid() && node < numNodes
      modifies this`colors
      ensures Valid() && colors == old(colors)[node := color]
    {
      colors := colors[node := color];
    }
  }

  // ---------------------------------------------------------------- automorphisms

  ghost predicate PreservesGraph(adjacency: seq<seq<nat>>, colors: seq<nat>, aut: seq<nat>) {
    |adjacency| == |colors| == |aut| &&
    (forall x :: 0 <= x < |aut| ==> aut[x] < |aut| && colors[aut[x]] == colors[x]) &&
    (forall x, y :: 0 <= x < |aut| && 0 <= y < |aut| ==>
       (Adjacent(adjacency, aut[x], aut[y]) <==> Adjacent(adjacency, x, y)))
  }

  /** A colour-preserving permutation keeps literal nodes apart from clause nodes. */
  lemma ColorsKeepLiterals(adjacency: seq<seq<nat>>, colors: seq<nat>, clauses: seq<Clause>, n: nat, aut: seq<nat>)
    requires Encodes(adjacency, colors, clauses, n) && PreservesGraph(adjacency, colors, aut)
    ensures KeepsLiterals(aut, n)
  {
  }

  lemma InversePreserves(adjacency: seq<seq<nat>>, colors: seq<nat>, aut: seq<nat>, inv: seq<nat>)
    requires PreservesGraph(adjacency, colors, aut) && Inverts(aut, inv)
    ensures PreservesGraph(adjacency, colors, inv) && Inverts(inv, aut)
  {
    forall x | 0 <= x < |inv| ensures inv[x] < |inv| && aut[inv[x]] == x {
    }
  }

  /** The literal a node permutation sends `l` to. */
  function Sends(aut: seq<nat>, n: nat, l: Literal): (k: Literal)
    requires KeepsLiterals(aut, n) && l.variable < n
    ensures k.variable < n && LiteralToNode(k, n) == aut[LiteralToNode(l, n)]
  {
    NodesAreLiterals(n);
    NodeToLiteral(aut[LiteralToNode(l, n)], n)
  }

  /** What the filter on permutations checks, for all literals. */
  ghost predicate KeepsNegation(aut: seq<nat>, n: nat)
    requires KeepsLiterals(aut, n)
  {
    forall l: Literal {:trigger Sends(aut, n, l)} :: l.variable < n ==>
      Sends(aut, n, l.Negated()) == Sends(aut, n, l).Negated()
  }

  /** `d` consists of the images of the literals of `c`. */
  ghost predicate ImageClause(aut: seq<nat>, n: nat, c: Clause, d: Clause)
    requires KeepsLiterals(aut, n) && forall l :: l in c ==> l.variable < n
  {
    (forall l :: l in c ==> Sends(aut, n, l) in d) &&
    (forall k :: k in d ==> exists l :: l in c && Sends(aut, n, l) == k)
  }

  lemma SendsBack(aut: seq<nat>, inv: seq<nat>, n: nat, k: Literal)
    requires Inverts(aut, inv) && KeepsLiterals(aut, n) && k.variable < n
    ensures IsLiteralNode(inv[LiteralToNode(k, n)], n)
    ensures var l := NodeToLiteral(inv[LiteralToNode(k, n)], n);
            l.variable < n && LiteralToNode(l, n) == inv[LiteralToNode(k, n)] && Sends(aut, n, l) == k
  {
    NodesAreLiterals(n);
    var y := LiteralToNode(k, n);
    assert aut[inv[y]] == y;
  }

  lemma SendsInjective(aut: seq<nat>, inv: seq<nat>, n: nat, a: Literal, b: Literal)
    requires Inverts(aut, inv) && KeepsLiterals(aut, n) && a.variable < n && b.variable < n
    requires Sends(aut, n, a) == Sends(aut, n, b)
    ensures a == b
  {
    NodesAreLiterals(n);
    var x, y := LiteralToNode(a, n), LiteralToNode(b, n);
    assert aut[x] == LiteralToNode(Sends(aut, n, a), n) && aut[y] == LiteralToNode(Sends(aut, n, b), n);
    assert inv[aut[x]] == x && inv[aut[y]] == y;
  }

  lemma BinaryIsEdge(adjacency: seq<seq<nat>>, colors: seq<nat>, clauses: seq<Clause>, n: nat, a: Literal, b: Literal)
    requires Encodes(adjacency, colors, clauses, n) && a.variable < n && b.variable < n
    ensures IsBinary(clauses, a, b) ==> Adjacent(adjacency, LiteralToNode(a, n), LiteralToNode(b, n))
    ensures Adjacent(adjacency, LiteralToNode(a, n), LiteralToNode(b, n)) && a != b.Negated() ==>
        IsBinary(clauses, a, b)
  {
    NodesAreLiterals(n);
    NegationNodes(n, a, b);
    var x, y := LiteralToNode(a, n), LiteralToNode(b, n);
    assert ClauseEdge(clauses, n, x, y) <==> IsBinary(clauses, a, b);
  }

  /** A clause of the form x or not x. */
  predicate BinaryTautology(c: Clause) { |c| == 2 && c[0] == c[1].Negated() }

  lemma BinaryImage(adjacency: seq<seq<nat>>, colors: seq<nat>, clauses: seq<Clause>, n: nat, aut: seq<nat>,
                    inv: seq<nat>, c: Clause)
    returns (d: Clause)
    requires Encodes(adjacency, colors, clauses, n) && OverVariables(clauses, n)
    requires PreservesGraph(adjacency, colors, aut) && Inverts(aut, inv) && KeepsLiterals(aut, n)
    requires KeepsNegation(aut, n)
    requires c in clauses && |c| == 2 && !BinaryTautology(c)
    ensures d in clauses && ImageClause(aut, n, c, d) && !BinaryTautology(d)
  {
    hide Encodes, IsBinary, PreservesGraph, Inverts, KeepsLiterals, KeepsNegation, OverVariables;
    var a, b := c[0], c[1];
    OverLiteral(clauses, n, c, a);
    OverLiteral(clauses, n, c, b);
    assert c == [a, b];
    ListedIsBinary(clauses, a, b);
    BinarySent(adjacency, colors, clauses, n, aut, inv, a, b);
    d := BinaryClause(clauses, Sends(aut, n, a), Sends(aut, n, b));
  }

  lemma OverLiteral(clauses: seq<Clause>, n: nat, c: Clause, l: Literal)
    requires OverVariables(clauses, n) && c in clauses && l in c
    ensures l.variable < n
  {
  }

  lemma BinarySent(adjacency: seq<seq<nat>>, colors: seq<nat>, clauses: seq<Clause>, n: nat, aut: seq<nat>,
                   inv: seq<nat>, a: Literal, b: Literal)
    requires Encodes(adjacency, colors, clauses, n) && a.variable < n && b.variable < n
    requires PreservesGraph(adjacency, colors, aut) && Inverts(aut, inv) && KeepsLiterals(aut, n)
    requires KeepsNegation(aut, n)
    requires IsBinary(clauses, a, b) && a != b.Negated()
    ensures Sends(aut, n, a) != Sends(aut, n, b).Negated() && IsBinary(clauses, Sends(aut, n, a), Sends(aut, n, b))
  {
    hide Encodes, IsBinary, PreservesGraph, Inverts, KeepsLiterals, Adjacent;
    var s, t := Sends(aut, n, a), Sends(aut, n, b);
    assert Sends(aut, n, b.Negated()) == t.Negated();
    if s == t.Negated() {
      SendsInjective(aut, inv, n, a, b.Negated());
    }
    BinaryIsEdge(adjacency, colors, clauses, n, a, b);
    EdgeCarried(adjacency, colors, aut, n, a, b);
    BinaryIsEdge(adjacency, colors, clauses, n, s, t);
  }

  lemma EdgeCarried(adjacency: seq<seq<nat>>, colors: seq<nat>, aut: seq<nat>, n: nat, a: Literal, b: Literal)
    requires PreservesGraph(adjacency, colors, aut) && KeepsLiterals(aut, n) && a.variable < n && b.variable < n
    ensures Sends(aut, n, a).variable < n && Sends(aut, n, b).variable < n
    ensures Adjacent(adjacency, LiteralToNode(a, n), LiteralToNode(b, n)) <==>
            Adjacent(adjacency, LiteralToNode(Sends(aut, n, a), n), LiteralToNode(Sends(aut, n, b), n))
  {
    NodesAreLiterals(n);
    assert LiteralToNode(Sends(aut, n, a), n) == aut[LiteralToNode(a, n)];
    assert LiteralToNode(Sends(aut, n, b), n) == aut[LiteralToNode(b, n)];
  }

  lemma ListedIsBinary(clauses: seq<Clause>, a: Literal, b: Literal)
    requires [a, b] in clauses
    ensures IsBinary(clauses, a, b)
  {
  }

  lemma BinaryClause(clauses: seq<Clause>, s: Literal, t: Literal) returns (d: Clause)
    requires IsBinary(clauses, s, t)
    ensures d in clauses && (d == [s, t] || d == [t, s])
  {
    d := if [s, t] in clauses then [s, t] else [t, s];
  }

  lemma NegationNodes(n: nat, s: Literal, t: Literal)
    requires s.variable < n && t.variable < n
    ensures NegationEdge(n, LiteralToNode(s, n), LiteralToNode(t, n)) <==> s == t.Negated()
  {
  }

  lemma NodeImage(adjacency: seq<seq<nat>>, colors: seq<nat>, clauses: seq<Clause>, n: nat, aut: seq<nat>,
                  inv: seq<nat>, c: Clause)
    returns (d: Clause)
    requires Encodes(adjacency, colors, clauses, n) && OverVariables(clauses, n)
    requires PreservesGraph(adjacency, colors, aut) && Inverts(aut, inv) && KeepsLiterals(aut, n)
    requires c in clauses && |c| != 2
    ensures d in clauses && |d| != 2 && ImageClause(aut, n, c, d)
  {
    NodesAreLiterals(n);
    NodeClausesAre(clauses);
    var j :| 0 <= j < |NodeClauses(clauses)| && NodeClauses(clauses)[j] == c;
    var x := 2 * n + j;
    var z := aut[x];
    d := NodeClauses(clauses)[z - 2 * n];
    assert d in NodeClauses(clauses);
    forall l | l in c ensures Sends(aut, n, l) in d {
      var y := LiteralToNode(l, n);
      assert InClauseNode(clauses, n, x, y);
      assert Adjacent(adjacency, z, aut[y]);
      assert InClauseNode(clauses, n, z, aut[y]);
    }
    forall k | k in d ensures exists l :: l in c && Sends(aut, n, l) == k {
      var y := LiteralToNode(k, n);
      SendsBack(aut, inv, n, k);
      assert InClauseNode(clauses, n, z, y) && aut[inv[y]] == y;
      assert Adjacent(adjacency, x, inv[y]);
      assert InClauseNode(clauses, n, x, inv[y]);
    }
  }

  /** A graph automorphism that respects negation maps every clause onto a clause, although
      binary clauses and negations share one kind of edge.  The one exception, a clause that says
      x or not x, adds no edge of its own to the graph. */
  lemma AutomorphismMapsClauses(adjacency: seq<seq<nat>>, colors: seq<nat>, clauses: seq<Clause>, n: nat,
                                aut: seq<nat>, inv: seq<nat>, c: Clause)
    returns (d: Clause)
    requires Encodes(adjacency, colors, clauses, n) && OverVariables(clauses, n)
    requires PreservesGraph(adjacency, colors, aut) && Inverts(aut, inv) && KeepsLiterals(aut, n)
    requires KeepsNegation(aut, n)
    requires c in clauses && !BinaryTautology(c)
    ensures d in clauses && ImageClause(aut, n, c, d) && !BinaryTautology(d)
  {
    if |c| == 2 {
      d := BinaryImage(adjacency, colors, clauses, n, aut, inv, c);
    } else {
      d := NodeImage(adjacency, colors, clauses, n, aut, inv, c);
    }
  }

  /** A variable no clause mentions is fixed by every automorphism. */
  lemma UnusedNotMoved(adjacency: seq<seq<nat>>, colors: seq<nat>, clauses: seq<Clause>, n: nat, aut: seq<nat>, v: nat)
    requires Encodes(adjacency, colors, clauses, n) && UnusedFixed(colors, clauses, n)
    requires PreservesGraph(adjacency, colors, aut)
    requires v < n && Unused(clauses, v)
    ensures aut[v] == v && aut[n + v] == n + v
  {
    var x, y: nat := aut[v], aut[n + v];
    assert colors[x] == colors[v] && colors[y] == colors[n + v];
  }

  // ---------------------------------------------------------------- the automorphisms exactly

  /** The array fixes what no clause mentions, maps the literals of each clause with a node onto those of
      another one, and pairs in a binary clause onto pairs in a binary clause. */
  ghost predicate MapsFormula(clauses: seq<Clause>, n: nat, aut: seq<nat>)
    requires KeepsLiterals(aut, n)
  {
    (forall v: nat :: v < n && Unused(clauses, v) ==> aut[v] == v && aut[n + v] == n + v) &&
    (forall x: nat, l: Literal {:trigger InClauseNode(clauses, n, x, LiteralToNode(l, n))} ::
       x < |aut| && l.variable < n ==>
         (InClauseNode(clauses, n, x, LiteralToNode(l, n)) <==>
            InClauseNode(clauses, n, aut[x], LiteralToNode(Sends(aut, n, l), n)))) &&
    (forall a: Literal, b: Literal {:trigger IsBinary(clauses, a, b)} ::
       a.variable < n && b.variable < n && a != b.Negated() ==>
         (IsBinary(clauses, a, b) <==> IsBinary(clauses, Sends(aut, n, a), Sends(aut, n, b))))
  }

  lemma FixedLiteral(aut: seq<nat>, n: nat, l: Literal)
    requires KeepsLiterals(aut, n) && l.variable < n && aut[l.variable] == l.variable
    requires aut[n + l.variable] == n + l.variable
    ensures Sends(aut, n, l) == l
  {
    NodesAreLiterals(n);
  }

  lemma UsedSent(clauses: seq<Clause>, n: nat, aut: seq<nat>, inv: seq<nat>, v: nat)
    requires KeepsLiterals(aut, n) && Inverts(aut, inv) && KeepsNegation(aut, n) && MapsFormula(clauses, n, aut)
    requires v < n && !Unused(clauses, v)
    ensures !Unused(clauses, Sends(aut, n, Literal(v, true)).variable)
    ensures !Unused(clauses, Sends(aut, n, Literal(v, false)).variable)
  {
    hide IsBinary, InClauseNode, Unused;
    NodesAreLiterals(n);
    var l := Literal(v, true);
    assert Sends(aut, n, l.Negated()) == Sends(aut, n, l).Negated();
    var u := Sends(aut, n, l).variable;
    if Unused(clauses, u) {
      FixedLiteral(aut, n, Sends(aut, n, l));
      SendsInjective(aut, inv, n, l, Sends(aut, n, l));
    }
  }

  /** Exactly the symmetries of the formula are automorphisms of its graph, among the node permutations
      that respect negation: the graph neither misses one nor invents one. */
  lemma AutomorphismsExactly(adjacency: seq<seq<nat>>, colors: seq<nat>, clauses: seq<Clause>, n: nat, aut: seq<nat>,
                             inv: seq<nat>)
    requires Encodes(adjacency, colors, clauses, n) && OverVariables(clauses, n)
    requires UnusedFixed(colors, clauses, n) && UsedPlain(colors, clauses, n)
    requires |aut| == |adjacency| && Inverts(aut, inv) && KeepsLiterals(aut, n) && KeepsNegation(aut, n)
    ensures PreservesGraph(adjacency, colors, aut) <==> MapsFormula(clauses, n, aut)
  {
    hide Encodes, OverVariables, UnusedFixed, UsedPlain, Inverts, KeepsLiterals, KeepsNegation, PreservesGraph,
      MapsFormula;
    if PreservesGraph(adjacency, colors, aut) {
      PreservedMaps(adjacency, colors, clauses, n, aut, inv);
    }
    if MapsFormula(clauses, n, aut) {
      MappedPreserves(adjacency, colors, clauses, n, aut, inv);
    }
  }

  lemma PreservedMaps(adjacency: seq<seq<nat>>, colors: seq<nat>, clauses: seq<Clause>, n: nat, aut: seq<nat>,
                      inv: seq<nat>)
    requires Encodes(adjacency, colors, clauses, n) && UnusedFixed(colors, clauses, n)
    requires Inverts(aut, inv) && KeepsLiterals(aut, n) && KeepsNegation(aut, n)
    requires PreservesGraph(adjacency, colors, aut)
    ensures MapsFormula(clauses, n, aut)
  {
    hide Unused, IsBinary, UnusedFixed, Inverts, KeepsNegation;
    NodesAreLiterals(n);
    forall v: nat | v < n && Unused(clauses, v) ensures aut[v] == v && aut[n + v] == n + v {
      UnusedNotMoved(adjacency, colors, clauses, n, aut, v);
    }
    forall x: nat, l: Literal | x < |aut| && l.variable < n
      ensures InClauseNode(clauses, n, x, LiteralToNode(l, n)) <==>
              InClauseNode(clauses, n, aut[x], LiteralToNode(Sends(aut, n, l), n))
    {
      NodeEdge(adjacency, colors, clauses, n, x, l);
      NodeEdge(adjacency, colors, clauses, n, aut[x], Sends(aut, n, l));
    }
    forall a: Literal, b: Literal | a.variable < n && b.variable < n && a != b.Negated()
      ensures IsBinary(clauses, a, b) <==> IsBinary(clauses, Sends(aut, n, a), Sends(aut, n, b))
    {
      PairCarried(adjacency, colors, clauses, n, aut, inv, a, b);
    }
  }

  lemma PairCarried(adjacency: seq<seq<nat>>, colors: seq<nat>, clauses: seq<Clause>, n: nat, aut: seq<nat>,
                    inv: seq<nat>, a: Literal, b: Literal)
    requires Encodes(adjacency, colors, clauses, n) && a.variable < n && b.variable < n && a != b.Negated()
    requires Inverts(aut, inv) && KeepsLiterals(aut, n) && KeepsNegation(aut, n)
    ensures IsBinary(clauses, a, b) <==> Adjacent(adjacency, LiteralToNode(a, n), LiteralToNode(b, n))
    ensures IsBinary(clauses, Sends(aut, n, a), Sends(aut, n, b)) <==>
            Adjacent(adjacency, aut[LiteralToNode(a, n)], aut[LiteralToNode(b, n)])
    ensures PreservesGraph(adjacency, colors, aut) ==>
              (IsBinary(clauses, a, b) <==> IsBinary(clauses, Sends(aut, n, a), Sends(aut, n, b)))
  {
    hide Encodes, IsBinary, Inverts, Adjacent;
    var s, t := Sends(aut, n, a), Sends(aut, n, b);
    assert Sends(aut, n, b.Negated()) == t.Negated();
    if s == t.Negated() {
      SendsInjective(aut, inv, n, a, b.Negated());
    }
    BinaryIsEdge(adjacency, colors, clauses, n, a, b);
    BinaryIsEdge(adjacency, colors, clauses, n, s, t);
    if PreservesGraph(adjacency, colors, aut) {
      EdgeCarried(adjacency, colors, aut, n, a, b);
    }
  }

  /** From a clause node there are edges to its literals only. */
  lemma NodeEdge(adjacency: seq<seq<nat>>, colors: seq<nat>, clauses: seq<Clause>, n: nat, x: nat, l: Literal)
    requires Encodes(adjacency, colors, clauses, n) && l.variable < n
    ensures InClauseNode(clauses, n, x, LiteralToNode(l, n)) <==>
            x >= 2 * n && Adjacent(adjacency, x, LiteralToNode(l, n))
    ensures x >= 2 * n ==>
              (Adjacent(adjacency, x, LiteralToNode(l, n)) <==> Adjacent(adjacency, LiteralToNode(l, n), x))
  {
    hide IsBinary;
    NodesAreLiterals(n);
  }

  lemma ClauseNodesApart(adjacency: seq<seq<nat>>, colors: seq<nat>, clauses: seq<Clause>, n: nat, x: nat, y: nat)
    requires Encodes(adjacency, colors, clauses, n) && x >= 2 * n && y >= 2 * n
    ensures !Adjacent(adjacency, x, y)
  {
  }

  lemma MappedPreserves(adjacency: seq<seq<nat>>, colors: seq<nat>, clauses: seq<Clause>, n: nat, aut: seq<nat>,
                        inv: seq<nat>)
    requires Encodes(adjacency, colors, clauses, n) && UsedPlain(colors, clauses, n)
    requires |aut| == |adjacency| && Inverts(aut, inv) && KeepsLiterals(aut, n) && KeepsNegation(aut, n)
    requires MapsFormula(clauses, n, aut)
    ensures PreservesGraph(adjacency, colors, aut)
  {
    forall x: nat | x < |aut| ensures aut[x] < |aut| && colors[aut[x]] == colors[x] {
      ColorSent(adjacency, colors, clauses, n, aut, inv, x);
    }
    hide Unused, IsBinary, Inverts, KeepsNegation, InClauseNode, MapsFormula, Adjacent, UsedPlain;
    NodesAreLiterals(n);
    forall x: nat, y: nat | x < |aut| && y < |aut|
      ensures Adjacent(adjacency, aut[x], aut[y]) <==> Adjacent(adjacency, x, y)
    {
      EdgeSent(adjacency, colors, clauses, n, aut, inv, x, y);
    }
  }

  lemma ColorSent(adjacency: seq<seq<nat>>, colors: seq<nat>, clauses: seq<Clause>, n: nat, aut: seq<nat>,
                  inv: seq<nat>, x: nat)
    requires Encodes(adjacency, colors, clauses, n) && UsedPlain(colors, clauses, n)
    requires |aut| == |adjacency| && Inverts(aut, inv) && KeepsLiterals(aut, n) && KeepsNegation(aut, n)
    requires MapsFormula(clauses, n, aut) && x < |aut|
    ensures aut[x] < |aut| && colors[aut[x]] == colors[x]
  {
    hide Unused, IsBinary, KeepsNegation, InClauseNode, ClauseEdge, NegationEdge;
    NodesAreLiterals(n);
    if x < 2 * n {
      var l := NodeToLiteral(x, n);
      var v, u := l.variable, Sends(aut, n, l).variable;
      if !Unused(clauses, v) {
        UsedSent(clauses, n, aut, inv, v);
        assert colors[v] == 0 && colors[n + v] == 0 && colors[u] == 0 && colors[n + u] == 0;
      }
    }
  }

  lemma EdgeSent(adjacency: seq<seq<nat>>, colors: seq<nat>, clauses: seq<Clause>, n: nat, aut: seq<nat>,
                 inv: seq<nat>, x: nat, y: nat)
    requires Encodes(adjacency, colors, clauses, n)
    requires |aut| == |adjacency| && Inverts(aut, inv) && KeepsLiterals(aut, n) && KeepsNegation(aut, n)
    requires MapsFormula(clauses, n, aut) && x < |aut| && y < |aut|
    requires forall z :: 0 <= z < |aut| ==> aut[z] < |aut| && colors[aut[z]] == colors[z]
    ensures Adjacent(adjacency, aut[x], aut[y]) <==> Adjacent(adjacency, x, y)
  {
    NodesAreLiterals(n);
    assert (x >= 2 * n <==> aut[x] >= 2 * n) && (y >= 2 * n <==> aut[y] >= 2 * n);
    hide Encodes, KeepsNegation, InClauseNode, IsBinary, Inverts, Unused, Adjacent;
    if x >= 2 * n && y >= 2 * n {
      ClauseNodesApart(adjacency, colors, clauses, n, x, y);
      ClauseNodesApart(adjacency, colors, clauses, n, aut[x], aut[y]);
    } else if x >= 2 * n {
      var l := NodeToLiteral(y, n);
      NodeEdge(adjacency, colors, clauses, n, x, l);
      NodeEdge(adjacency, colors, clauses, n, aut[x], Sends(aut, n, l));
    } else if y >= 2 * n {
      var l := NodeToLiteral(x, n);
      NodeEdge(adjacency, colors, clauses, n, y, l);
      NodeEdge(adjacency, colors, clauses, n, aut[y], Sends(aut, n, l));
    } else {
      var a, b := NodeToLiteral(x, n), NodeToLiteral(y, n);
      if a == b.Negated() {
        NegationsLinked(adjacency, colors, clauses, n, b);
        NegationsLinked(adjacency, colors, clauses, n, Sends(aut, n, b));
        NegationKept(aut, n, b);
      } else {
        PairCarried(adjacency, colors, clauses, n, aut, inv, a, b);
      }
    }
  }

  lemma NegationKept(aut: seq<nat>, n: nat, l: Literal)
    requires KeepsLiterals(aut, n) && KeepsNegation(aut, n) && l.variable < n
    ensures Sends(aut, n, l.Negated()) == Sends(aut, n, l).Negated()
  {
  }

  lemma NegationsLinked(adjacency: seq<seq<nat>>, colors: seq<nat>, clauses: seq<Clause>, n: nat, l: Literal)
    requires Encodes(adjacency, colors, clauses, n) && l.variable < n
    ensures Adjacent(adjacency, LiteralToNode(l.Negated(), n), LiteralToNode(l, n))
  {
    NegationNodes(n, l.Negated(), l);
  }
}
