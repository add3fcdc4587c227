/** Union by rank and find with path compression.  A node is named by its index; its parent
    pointer is the index of another node, or none at a root. */
module DisjointSet {
  import opened Logic

  datatype Parent = Null | To(index: nat)

  datatype Node = Node(parent: Parent, rank: nat)

  type Forest = map<nat, Node>

  /** Parents exist and have larger ranks. */
  ghost predicate Ranked(f: Forest) {
    forall x {:trigger Rises(f, x)} :: x in f ==> Rises(f, x)
  }

  predicate Rises(f: Forest, x: nat)
    requires x in f
  {
    f[x].parent.To? ==> f[x].parent.index in f && f[x].rank < f[f[x].parent.index].rank
  }

  predicate HasNode(f: Forest, x: nat) { x in f }

  ghost function Above(f: Forest, x: nat): set<nat>
    requires x in f
  {
    set y | y in f && f[y].rank > f[x].rank
  }

  lemma AboveShrinks(f: Forest, x: nat)
    requires Ranked(f) && x in f && f[x].parent.To?
    ensures f[x].parent.index in f
    ensures Above(f, f[x].parent.index) < Above(f, x)
  {
    assert Rises(f, x);
    var p := f[x].parent.index;
    assert p in Above(f, x) && p !in Above(f, p);
  }

  /** The root a chain of parents leads to. */
  ghost function Root(f: Forest, x: nat): (r: nat)
    requires Ranked(f) && x in f
    ensures r in f && f[r].parent == Null && f[x].rank <= f[r].rank && (f[x].parent == Null <==> r == x)
    decreases Above(f, x)
  {
    if f[x].parent == Null then x
    else AboveShrinks(f, x); Root(f, f[x].parent.index)
  }

  lemma SameRoot(f: Forest, x: nat)
    requires Ranked(f) && x in f && f[x].parent.To?
    ensures f[x].parent.index in f && Root(f, f[x].parent.index) == Root(f, x)
    ensures Above(f, f[x].parent.index) < Above(f, x)
  {
    AboveShrinks(f, x);
  }

  /** Two elements of the same set. */
  ghost predicate Together(f: Forest, x: nat, y: nat)
    requires Ranked(f)
  {
    x in f && y in f && Root(f, x) == Root(f, y)
  }

  ghost function Roots(f: Forest): set<nat> { set x | x in f && f[x].parent == Null }

  ghost function Class(f: Forest, r: nat): set<nat>
    requires Ranked(f)
  {
    set x | x in f && Root(f, x) == r
  }

  function Pow2(n: nat): nat { if n == 0 then 1 else 2 * Pow2(n - 1) }

  /** A root of rank r stands for at least 2^r elements. */
  ghost predicate Weighed(f: Forest)
    requires Ranked(f)
  {
    forall r :: r in Roots(f) ==> Pow2(f[r].rank) <= |Class(f, r)|
  }

  /** Pointing a node straight at its root changes no root. */
  lemma {:induction false} CompressKeepsRoots(f: Forest, x: nat, y: nat)
    requires Ranked(f) && x in f && y in f && f[x].parent != Null
    ensures var g := f[x := Node(To(Root(f, x)), f[x].rank)];
            Ranked(g) && Root(g, y) == Root(f, y)
    decreases Above(f, y)
  {
    var g := f[x := Node(To(Root(f, x)), f[x].rank)];
    CompressRanked(f, x);
    if f[y].parent != Null {
      AboveShrinks(f, y);
      if y == x {
        assert Root(g, Root(f, x)) == Root(f, x);
      } else {
        CompressKeepsRoots(f, x, f[y].parent.index);
      }
    }
  }

  lemma CompressRanked(f: Forest, x: nat)
    requires Ranked(f) && x in f && f[x].parent != Null
    ensures Ranked(f[x := Node(To(Root(f, x)), f[x].rank)])
  {
    var r := Root(f, x);
    assert r != x;
    var g := f[x := Node(To(r), f[x].rank)];
    forall z | z in g ensures Rises(g, z) {
      assert Rises(f, z);
    }
  }

  /** The nodes on the chain of parents. */
  ghost function Way(f: Forest, x: nat): (way: set<nat>)
    requires Ranked(f) && x in f
    ensures x in way && Root(f, x) in way && way <= f.Keys
    ensures forall y :: y in way ==> f[x].rank <= f[y].rank && Root(f, y) == Root(f, x)
    decreases Above(f, x)
  {
    if f[x].parent == Null then {x}
    else AboveShrinks(f, x); assert Rises(f, x); {x} + Way(f, f[x].parent.index)
  }

  lemma WayEnds(f: Forest, r: nat)
    requires Ranked(f) && r in f && f[r].parent == Null
    ensures Way(f, r) == {r}
  {
  }

  lemma WayShrinks(f: Forest, x: nat)
    requires Ranked(f) && x in f && f[x].parent != Null
    ensures f[x].parent.index in f && x !in Way(f, f[x].parent.index)
    ensures Way(f, x) == {x} + Way(f, f[x].parent.index)
  {
    assert Rises(f, x);
  }

  /** Every node of the chain points at the root. */
  ghost predicate Flattened(f: Forest, g: Forest, x: nat)
    requires Ranked(f) && x in f
  {
    g.Keys == f.Keys && forall y :: y in f ==>
      g[y] == if y in Way(f, x) && y != Root(f, x) then Node(To(Root(f, x)), f[y].rank) else f[y]
  }

  /** The same elements with the same ranks and roots. */
  ghost predicate SameSets(f: Forest, g: Forest) {
    Ranked(f) && Ranked(g) && f.Keys == g.Keys &&
    forall x {:trigger HasNode(f, x)} :: HasNode(f, x) ==> f[x].rank == g[x].rank && Root(f, x) == Root(g, x)
  }

  lemma CompressKeepsSets(f: Forest, x: nat)
    requires Ranked(f) && x in f && f[x].parent != Null
    ensures SameSets(f, f[x := Node(To(Root(f, x)), f[x].rank)])
  {
    CompressRanked(f, x);
    forall y | HasNode(f, y) ensures Root(f[x := Node(To(Root(f, x)), f[x].rank)], y) == Root(f, y) {
      CompressKeepsRoots(f, x, y);
    }
  }

  lemma SameSetsWeighed(f: Forest, g: Forest)
    requires SameSets(f, g) && Weighed(f)
    ensures Roots(g) == Roots(f) && Weighed(g)
  {
    hide Root, Ranked;
    forall x | x in f ensures x in Roots(f) <==> x in Roots(g) {
      assert HasNode(f, x);
    }
    forall r | r in Roots(g) ensures Pow2(g[r].rank) <= |Class(g, r)| {
      assert HasNode(f, r);
      assert Class(g, r) == Class(f, r) by {
        forall x ensures x in Class(g, r) <==> x in Class(f, r) { assert HasNode(f, x) <==> x in g; }
      }
    }
  }

  /** A root hung below another of at least its rank. */
  function Hung(f: Forest, child: nat, top: nat): Forest
    requires child in f && top in f
  {
    f[child := Node(To(top), f[child].rank)]
     [top := Node(Null, if f[child].rank < f[top].rank then f[top].rank else f[top].rank + 1)]
  }

  ghost predicate CanHang(f: Forest, child: nat, top: nat) {
    Ranked(f) && child in Roots(f) && top in Roots(f) && child != top && f[child].rank <= f[top].rank
  }

  lemma HungRanked(f: Forest, child: nat, top: nat)
    requires CanHang(f, child, top)
    ensures Ranked(Hung(f, child, top)) && Roots(Hung(f, child, top)) == Roots(f) - {child}
  {
    var g := Hung(f, child, top);
    forall z | z in g ensures Rises(g, z) {
      assert Rises(f, z);
    }
  }

  lemma {:induction false} HungRoot(f: Forest, child: nat, top: nat, y: nat)
    requires CanHang(f, child, top) && y in f
    ensures Ranked(Hung(f, child, top))
    ensures Root(Hung(f, child, top), y) == if Root(f, y) == child then top else Root(f, y)
    decreases Above(f, y)
  {
    HungRanked(f, child, top);
    if f[y].parent != Null {
      AboveShrinks(f, y);
      HungRoot(f, child, top, f[y].parent.index);
    } else if y == child {
      assert Root(Hung(f, child, top), top) == top;
    }
  }

  lemma HungRoots(f: Forest, child: nat, top: nat)
    requires CanHang(f, child, top)
    ensures var g := Hung(f, child, top);
            Ranked(f) && Ranked(g) && g.Keys == f.Keys &&
            (forall y {:trigger Root(g, y)} {:trigger Root(f, y)} :: y in f ==>
              Root(g, y) == if Root(f, y) == child then top else Root(f, y)) &&
            Roots(g) == Roots(f) - {child} && |Roots(g)| == |Roots(f)| - 1
  {
    HungRanked(f, child, top);
    hide Root, Ranked;
    forall y | y in f ensures Root(Hung(f, child, top), y) == if Root(f, y) == child then top else Root(f, y) {
      HungRoot(f, child, top, y);
    }
    hide Hung;
  }

  lemma HungRank(f: Forest, child: nat, top: nat)
    requires CanHang(f, child, top)
    ensures var g := Hung(f, child, top);
            (forall r :: r in f && r != top ==> r in g && g[r].rank == f[r].rank) &&
            top in g && Pow2(g[top].rank) <= Pow2(f[top].rank) + Pow2(f[child].rank)
  {
  }

  lemma HungWeighed(f: Forest, child: nat, top: nat)
    requires CanHang(f, child, top) && Weighed(f)
    ensures Ranked(Hung(f, child, top)) && Weighed(Hung(f, child, top))
  {
    hide Root, Ranked, Class, Hung, Pow2;
    HungRoots(f, child, top);
    HungRank(f, child, top);
    HungClasses(f, Hung(f, child, top), child, top);
  }

  lemma HungClasses(f: Forest, g: Forest, child: nat, top: nat)
    requires Ranked(f) && Ranked(g) && f.Keys == g.Keys && child != top
    requires forall y {:trigger Root(g, y)} {:trigger Root(f, y)} :: y in f ==>
        Root(g, y) == if Root(f, y) == child then top else Root(f, y)
    ensures |Class(g, top)| == |Class(f, top)| + |Class(f, child)|
    ensures forall r :: r != top && r != child ==> Class(g, r) == Class(f, r)
  {
    hide Root, Ranked;
    assert Class(g, top) == Class(f, top) + Class(f, child) by {
      forall y ensures y in Class(g, top) <==> y in Class(f, top) + Class(f, child) {}
    }
    assert Class(f, top) !! Class(f, child);
    forall r | r != top && r != child ensures Class(g, r) == Class(f, r) {
      forall y ensures y in Class(g, r) <==> y in Class(f, r) {}
    }
  }

  /** A new element is a set of its own. */
  lemma Alone(f: Forest, x: nat)
    requires Ranked(f) && Weighed(f) && x !in f
    ensures var g := f[x := Node(Null, 0)];
            Ranked(g) && Weighed(g) && Roots(g) == Roots(f) + {x} && Root(g, x) == x &&
            forall y {:trigger Root(g, y)} {:trigger Root(f, y)} :: y in f ==> Root(g, y) == Root(f, y)
  {
    hide Root, Ranked, Class;
    var g := f[x := Node(Null, 0)];
    AddedRanked(f, x);
    forall y | y in f ensures Root(g, y) == Root(f, y) {
      AddedRoot(f, x, y);
    }
    AloneClasses(f, g, x);
  }

  lemma AloneClasses(f: Forest, g: Forest, x: nat)
    requires Ranked(f) && Ranked(g) && x !in f && g.Keys == f.Keys + {x} && g[x].parent == Null
    requires forall y {:trigger Root(g, y)} {:trigger Root(f, y)} :: y in f ==> Root(g, y) == Root(f, y)
    ensures |Class(g, x)| >= 1 && forall r :: r in f ==> Class(g, r) == Class(f, r)
  {
    hide Root, Ranked;
    assert x in Class(g, x);
    forall r | r in f ensures Class(g, r) == Class(f, r) {
      forall y ensures y in Class(g, r) <==> y in Class(f, r) {}
    }
  }

  lemma AddedRanked(f: Forest, x: nat)
    requires Ranked(f) && x !in f
    ensures Ranked(f[x := Node(Null, 0)])
  {
    var g := f[x := Node(Null, 0)];
    forall z | z in g ensures Rises(g, z) {
      assert z in f ==> Rises(f, z);
    }
  }

  lemma {:induction false} AddedRoot(f: Forest, x: nat, y: nat)
    requires Ranked(f) && x !in f && y in f && Ranked(f[x := Node(Null, 0)])
    ensures Root(f[x := Node(Null, 0)], y) == Root(f, y)
    decreases Above(f, y)
  {
    if f[y].parent != Null {
      AboveShrinks(f, y);
      AddedRoot(f, x, f[y].parent.index);
    }
  }

  class DisjointSets {
    var nodes: Forest
    var numElements: nat
    var numSets: nat

    constructor ()
      ensures Valid() && nodes == map[]
    {
      nodes, numElements, numSets := map[], 0, 0;
    }

    /** Chains end, ranks grow towards the root, a root of rank r has at least 2^r elements and
        the counters are right. */
    ghost predicate Valid()
      reads this
    {
      Ranked(nodes) && Weighed(nodes) && numElements == |nodes| && numSets == |Roots(nodes)|
    }

    method Add(element: nat)
      requires Valid()
      modifies this
      ensures Valid() && nodes.Keys == old(nodes.Keys) + {element}
      ensures forall x, y :: Together(nodes, x, y) <==> Together(old(nodes), x, y) || (x == element && y == element)
    {
      hide Root, Ranked, Weighed;
      if element !in nodes {
        Alone(nodes, element);
        nodes := nodes[element := Node(Null, 0)];
        numElements := numElements + 1;
        numSets := numSets + 1;
      }
    }

    /** The second loop points every node on the way straight at the root. */
    method Find(element: nat) returns (root: nat)
      requires Valid() && element in nodes
      modifies this`nodes
      ensures Valid() && SameSets(old(nodes), nodes)
      ensures root == Root(nodes, element) == Root(old(nodes), element)
      ensures Flattened(old(nodes), nodes, element)
    {
      hide Root, Ranked, Weighed, SameSets, Above, Way;
      ghost var f := nodes;
      SameSetsRefl(nodes);
      root := element;
      while nodes[root].parent != Null
        invariant root in nodes && nodes == old(nodes) && Root(nodes, root) == Root(nodes, element)
        decreases Above(nodes, root)
      {
        SameRoot(nodes, root);
        root := nodes[root].parent.index;
      }
      var node := element;
      while node != root
        invariant Ranked(nodes) && SameSets(f, nodes) && node in nodes && Root(nodes, node) == root
        invariant nodes.Keys == f.Keys && Way(f, node) <= Way(f, element) && Root(f, node) == root
        invariant forall y :: y in f ==>
                    nodes[y] == if y in Way(f, element) && y !in Way(f, node) then Node(To(root), f[y].rank) else f[y]
        decreases Above(nodes, node)
      {
        SameRoot(nodes, node);
        SameRoot(f, node);
        WayShrinks(f, node);
        CompressKeepsSets(nodes, node);
        var parent := nodes[node].parent.index;
        ghost var before := nodes;
        nodes := nodes[node := Node(To(root), nodes[node].rank)];
        SameSetsAt(before, nodes, parent);
        SameSetsTrans(old(nodes), before, nodes);
        node := parent;
      }
      WayEnds(f, root);
      SameSetsWeighed(old(nodes), nodes);
      SameSetsAt(old(nodes), nodes, element);
    }

    /** Merges two sets and no others. */
    method Union(x: nat, y: nat)
      requires Valid() && x in nodes && y in nodes
      modifies this
      ensures Valid() && nodes.Keys == old(nodes.Keys) && numElements == old(numElements)
      ensures numSets == old(numSets) - if Together(old(nodes), x, y) then 0 else 1
      ensures Merged(old(nodes), nodes, x, y)
    {
      hide Root, Ranked, Weighed, SameSets, CanHang, Merged, Flattened, Way;
      var xRoot := Find(x);
      SameSetsAt(old(nodes), nodes, y);
      ghost var middle := nodes;
      var yRoot := Find(y);
      SameSetsTrans(old(nodes), middle, nodes);
      SameSetsAt(old(nodes), nodes, x);
      SameSetsWeighed(old(nodes), nodes);
      if xRoot == yRoot {
        AlreadyMerged(old(nodes), nodes, x, y);
        return;
      }
      ghost var before := nodes;
      var xRank, yRank := nodes[xRoot].rank, nodes[yRoot].rank;
      ghost var child, top := if xRank < yRank then xRoot else yRoot, if xRank < yRank then yRoot else xRoot;
      MayHang(before, child, top);
      LinkSets(old(nodes), before, child, top, x, y);
      if xRank < yRank {
        nodes := nodes[xRoot := Node(To(yRoot), xRank)];
      } else if xRank > yRank {
        nodes := nodes[yRoot := Node(To(xRoot), yRank)];
      } else {
        nodes := nodes[yRoot := Node(To(xRoot), yRank)];
        nodes := nodes[xRoot := Node(Null, xRank + 1)];
      }
      assert nodes == Hung(before, child, top);
      assert |nodes| == |nodes.Keys| && |before| == |before.Keys|;
      numSets := numSets - 1;
    }
  }

  /** The sets of `x` and `y` have become one, all others are as they were. */
  ghost predicate Merged(f: Forest, g: Forest, x: nat, y: nat)
    requires Ranked(f) && Ranked(g)
  {
    forall u, v :: Together(g, u, v) <==>
      Together(f, u, v) || (Together(f, u, x) && Together(f, v, y)) || (Together(f, u, y) && Together(f, v, x))
  }

  lemma AlreadyMerged(f: Forest, g: Forest, x: nat, y: nat)
    requires SameSets(f, g) && Together(f, x, y)
    ensures Merged(f, g, x, y)
  {
    hide Root, Ranked;
    forall u ensures u in f <==> HasNode(f, u) {}
  }

  lemma MayHang(f: Forest, child: nat, top: nat)
    requires Ranked(f) && child in f && top in f && f[child].parent == Null && f[top].parent == Null
    requires child != top && f[child].rank <= f[top].rank
    ensures CanHang(f, child, top)
  {
  }

  lemma SameSetsRefl(f: Forest)
    requires Ranked(f)
    ensures SameSets(f, f)
  {
  }

  lemma SameSetsAt(f: Forest, g: Forest, x: nat)
    requires SameSets(f, g) && x in f
    ensures Ranked(f) && Ranked(g) && f.Keys == g.Keys && Root(f, x) == Root(g, x) && Above(f, x) == Above(g, x)
  {
    hide Root, Ranked;
    assert HasNode(f, x);
    assert forall y :: y in f ==> HasNode(f, y);
  }

  lemma SameSetsTrans(f: Forest, g: Forest, h: Forest)
    requires SameSets(f, g) && SameSets(g, h)
    ensures SameSets(f, h)
  {
    hide Root, Ranked;
    forall x | HasNode(f, x) ensures f[x].rank == h[x].rank && Root(f, x) == Root(h, x) {
      assert HasNode(g, x);
    }
  }

  lemma LinkSets(original: Forest, f: Forest, child: nat, top: nat, x: nat, y: nat)
    requires SameSets(original, f) && CanHang(f, child, top) && Weighed(f) && x in f && y in f
    requires (Root(f, x) == child && Root(f, y) == top) || (Root(f, x) == top && Root(f, y) == child)
    ensures var g := Hung(f, child, top);
            Ranked(g) && Weighed(g) && g.Keys == f.Keys && |Roots(g)| == |Roots(f)| - 1 && Merged(original, g, x, y)
  {
    hide Root, Ranked, Hung, Weighed, Merged, SameSets, Above, Class;
    HungRoots(f, child, top);
    HungWeighed(f, child, top);
    MergedByRoots(original, f, Hung(f, child, top), child, top, x, y);
  }

  lemma MergedByRoots(original: Forest, f: Forest, g: Forest, child: nat, top: nat, x: nat, y: nat)
    requires SameSets(original, f) && Ranked(g) && g.Keys == f.Keys && x in f && y in f && child != top
    requires (Root(f, x) == child && Root(f, y) == top) || (Root(f, x) == top && Root(f, y) == child)
    requires forall u {:trigger Root(g, u)} {:trigger Root(f, u)} :: u in f ==>
        Root(g, u) == if Root(f, u) == child then top else Root(f, u)
    ensures Merged(original, g, x, y)
  {
    hide Root, Ranked, SameSets, Above;
    SameElements(original, f);
    forall u, v ensures Together(g, u, v) <==>
      Together(original, u, v) || (Together(original, u, x) && Together(original, v, y)) ||
        (Together(original, u, y) && Together(original, v, x))
    {
      SameSetsAt(original, f, x);
      SameSetsAt(original, f, y);
      if u in f && v in f {
        SameSetsAt(original, f, u);
        SameSetsAt(original, f, v);
      }
    }
  }

  lemma SameElements(f: Forest, g: Forest)
    requires SameSets(f, g)
    ensures f.Keys == g.Keys && Ranked(f) && Ranked(g)
  {
  }
}
