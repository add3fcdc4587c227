/**
 * The indexed binary heap the solver orders its variables with: children of position i stand
 * at 2 * i + 1 and 2 * i + 2, and a second table gives the position of every element.
 */
module Heaps {
  import opened Sorting

  function Left(i: nat): nat { 2 * i + 1 }

  function Right(i: nat): nat { 2 * (i + 1) }

  function Parent(i: nat): nat { if i == 0 then 0 else (i - 1) / 2 }

  type Order = (nat, nat) -> bool

  /** No element is less than its parent, except perhaps the one at `hole`. */
  ghost predicate HeapBut(h: seq<nat>, lt: Order, hole: nat) {
    forall k :: 0 < k < |h| && k != hole ==> !lt(h[k], h[Parent(k)])
  }

  ghost predicate IsHeap(h: seq<nat>, lt: Order) {
    forall k :: 0 < k < |h| ==> !lt(h[k], h[Parent(k)])
  }

  /** The children of the hole are not less than its parent. */
  ghost predicate Bridged(h: seq<nat>, lt: Order, hole: nat) {
    forall k :: 0 < k < |h| && Parent(k) == hole && 0 < hole < |h| ==> !lt(h[k], h[Parent(hole)])
  }

  /** Everything that does not involve the element at `hole` is in order. */
  ghost predicate HeapAround(h: seq<nat>, lt: Order, hole: nat) {
    forall k :: 0 < k < |h| && k != hole && Parent(k) != hole ==> !lt(h[k], h[Parent(k)])
  }

  /** From position `from` on, no element is less than its parent. */
  ghost predicate HeapFrom(h: seq<nat>, lt: Order, from: nat) {
    forall k :: 0 < k < |h| && Parent(k) >= from ==> !lt(h[k], h[Parent(k)])
  }

  /** The same but for the children of `hole`, which are not less than its parent. */
  ghost predicate HeapFromBut(h: seq<nat>, lt: Order, from: nat, hole: nat) {
    (forall k :: 0 < k < |h| && Parent(k) >= from && Parent(k) != hole ==> !lt(h[k], h[Parent(k)])) &&
    (forall k :: 0 < k < |h| && Parent(k) == hole && 0 < hole < |h| && Parent(hole) >= from ==>
      !lt(h[k], h[Parent(hole)]))
  }

  lemma {:induction false} RootLeast(h: seq<nat>, lt: Order, k: nat)
    requires StrictWeakOrder(lt) && IsHeap(h, lt) && k < |h|
    ensures !lt(h[k], h[0])
    decreases k
  {
    hide StrictWeakOrder;
    Chain(lt, h[0], h[0], h[0]);
    if k > 0 {
      RootLeast(h, lt, Parent(k));
      assert !lt(h[k], h[Parent(k)]);
      Chain(lt, h[k], h[Parent(k)], h[0]);
    }
  }

  /** Each entry of one table is the inverse of the other. */
  ghost predicate Indexed(h: seq<nat>, indices: seq<int>) {
    (forall i :: 0 <= i < |h| ==> h[i] < |indices| && indices[h[i]] == i) &&
    (forall n :: 0 <= n < |indices| && indices[n] >= 0 ==> indices[n] < |h| && h[indices[n]] == n)
  }

  /** The same with the element `x` lifted out of position `i`. */
  ghost predicate IndexedBut(h: seq<nat>, indices: seq<int>, i: nat, x: nat) {
    i < |h| && x < |indices| && Indexed(h[i := x], indices[x := i])
  }

  ghost function Swapped(h: seq<nat>, i: nat, j: nat): seq<nat>
    requires i < |h| && j < |h|
  {
    h[i := h[j]][j := h[i]]
  }

  lemma SwapContents(h: seq<nat>, i: nat, j: nat)
    requires i < |h| && j < |h|
    ensures multiset(Swapped(h, i, j)) == multiset(h)
  {
  }

  /** One step up: the parent comes down, the hole moves to its place. */
  lemma StepUp(h: seq<nat>, lt: Order, i: nat)
    requires StrictWeakOrder(lt) && 0 < i < |h| && HeapAround(h, lt, i) && Bridged(h, lt, i) && lt(h[i], h[Parent(i)])
    ensures HeapBut(Swapped(h, i, Parent(i)), lt, Parent(i)) && Bridged(Swapped(h, i, Parent(i)), lt, Parent(i))
  {
    hide StrictWeakOrder;
    var p := Parent(i);
    var g := Swapped(h, i, p);
    forall k | 0 < k < |g| && k != p ensures !lt(g[k], g[Parent(k)]) {
      if k == i {
        Chain(lt, h[p], h[i], h[p]);
      } else if Parent(k) == i {
        assert !lt(h[k], h[p]);
      } else if Parent(k) == p {
        assert !lt(h[k], h[p]);
        Chain(lt, h[k], h[i], h[p]);
        Chain(lt, h[i], h[k], h[p]);
        Chain(lt, h[i], h[p], h[k]);
        Chain(lt, h[k], h[p], h[i]);
      }
    }
    forall k | 0 < k < |g| && Parent(k) == p && 0 < p ensures !lt(g[k], g[Parent(p)]) {
      assert !lt(h[p], h[Parent(p)]);
      if k != i {
        assert !lt(h[k], h[p]);
        Chain(lt, h[k], h[p], h[Parent(p)]);
      }
    }
  }

  lemma HoleClosed(h: seq<nat>, lt: Order, i: nat)
    requires HeapBut(h, lt, i) && i < |h| && (i == 0 || !lt(h[i], h[Parent(i)]))
    ensures IsHeap(h, lt)
  {
  }

  lemma MoveIndexed(h: seq<nat>, indices: seq<int>, i: nat, x: nat, j: nat)
    requires IndexedBut(h, indices, i, x) && j < |h| && j != i
    ensures h[j] < |indices| && h[j] != x && h[i := x][j] == h[j]
    ensures IndexedBut(h[i := h[j]], indices[h[j] := i], j, x)
    ensures h[i := h[j]][j := x] == Swapped(h[i := x], i, j)
  {
    var v, w := h[i := x], indices[x := i];
    assert v[j] == h[j] && w[v[j]] == j && w[x] == i;
    assert indices[h[j] := i][x := j] == w[h[j] := i][x := j];
    var g := h[i := h[j]][j := x];
    assert g == v[i := v[j]][j := v[i]];
  }

  class Heap {
    var lt: Order
    var heap: seq<nat>
    var indices: seq<int>

    constructor (lt: Order)
      requires StrictWeakOrder(lt)
      ensures Valid() && heap == [] && this.lt == lt
    {
      this.lt := lt;
      heap, indices := [], [];
    }

    ghost predicate Valid()
      reads this
    {
      StrictWeakOrder(lt) && Indexed(heap, indices) && IsHeap(heap, lt)
    }

    predicate InHeap(n: nat)
      reads this
    {
      n < |indices| && indices[n] >= 0
    }

    /** Moves the element at a position up until its parent is not greater.  If it does not move, its
        children may still be less. */
    method PercolateUp(start: nat)
      requires StrictWeakOrder(lt) && start < |heap| && Indexed(heap, indices) && HeapAround(heap, lt, start)
      requires Bridged(heap, lt, start)
      modifies this`heap, this`indices
      ensures Indexed(heap, indices) && multiset(heap) == multiset(old(heap)) && |indices| == |old(indices)|
      ensures IsHeap(heap, lt) ||
          (heap == old(heap) && indices == old(indices) && (start == 0 || !lt(heap[start], heap[Parent(start)])))
      ensures HeapBut(old(heap), lt, start) ==> IsHeap(heap, lt)
    {
      hide StrictWeakOrder, Indexed, IndexedBut, HeapBut, HeapAround, Bridged, IsHeap, Swapped;
      var i := start;
      var x := heap[i];
      var p := Parent(i);
      LiftOut(heap, indices, i);
      while i != 0 && lt(x, heap[p])
        invariant i < |heap| && p == Parent(i) && |indices| == |old(indices)| && IndexedBut(heap, indices, i, x)
        invariant HeapAround(heap[i := x], lt, i) && Bridged(heap[i := x], lt, i)
        invariant if i == start then heap == old(heap) && indices == old(indices) &&
            x == heap[i] else HeapBut(heap[i := x], lt, i)
        invariant multiset(heap[i := x]) == multiset(old(heap)) && i <= start
      {
        MoveIndexed(heap, indices, i, x, p);
        StepUp(heap[i := x], lt, i);
        ButIsAround(Swapped(heap[i := x], i, p), lt, p);
        SwapContents(heap[i := x], i, p);
        indices := indices[heap[p] := i];
        heap := heap[i := heap[p]];
        i := p;
        p := Parent(p);
      }
      PutBack(heap, indices, i, x);
      if i != start || HeapBut(old(heap), lt, start) {
        HoleClosed(heap[i := x], lt, i);
      }
      StillThere(heap, i);
      heap := heap[i := x];
      indices := indices[x := i];
    }

    /** Moves the element at a position down until no child is less. */
    method PercolateDown(start: nat, ghost from: nat)
      requires StrictWeakOrder(lt) && from <= start < |heap| && Indexed(heap, indices)
      requires HeapFromBut(heap, lt, from, start)
      modifies this`heap, this`indices
      ensures Indexed(heap, indices) && HeapFrom(heap, lt, from)
      ensures multiset(heap) == multiset(old(heap)) && |heap| == |old(heap)| && |indices| == |old(indices)|
    {
      hide StrictWeakOrder, Indexed, IndexedBut, HeapFrom, HeapFromBut, Swapped, Parent;
      var i := start;
      var x := heap[i];
      LiftOut(heap, indices, i);
      while Left(i) < |heap|
        invariant from <= i < |heap| && |heap| == |old(heap)| && |indices| == |old(indices)|
        invariant IndexedBut(heap, indices, i, x)
        invariant HeapFromBut(heap[i := x], lt, from, i) && multiset(heap[i := x]) == multiset(old(heap))
        decreases |heap| - i
      {
        var child := if Right(i) < |heap| && lt(heap[Right(i)], heap[Left(i)]) then Right(i) else Left(i);
        LeastChild(heap[i := x], lt, i, child);
        if !lt(heap[child], x) {
          SettledAt(heap[i := x], lt, from, i, child);
          break;
        }
        MoveIndexed(heap, indices, i, x, child);
        StepDown(heap[i := x], lt, from, i, child);
        SwapContents(heap[i := x], i, child);
        heap := heap[i := heap[child]];
        indices := indices[heap[i] := i];
        i := child;
      }
      PutBack(heap, indices, i, x);
      SettledLeaf(heap[i := x], lt, from, i);
      heap := heap[i := x];
      indices := indices[x := i];
    }

    /** After the order has made `n` smaller. */
    method Decrease(n: nat)
      requires StrictWeakOrder(lt) && Indexed(heap, indices) && InHeap(n)
      requires HeapBut(heap, lt, indices[n]) && Bridged(heap, lt, indices[n])
      modifies this`heap, this`indices
      ensures Valid() && multiset(heap) == multiset(old(heap))
    {
      hide StrictWeakOrder, Bridged, IsHeap;
      PercolateUp(indices[n]);
    }

    /** After the order has made `n` greater. */
    method Increase(n: nat)
      requires StrictWeakOrder(lt) && Indexed(heap, indices) && InHeap(n)
      requires HeapFromBut(heap, lt, 0, indices[n])
      modifies this`heap, this`indices
      ensures Valid() && multiset(heap) == multiset(old(heap))
    {
      hide StrictWeakOrder, HeapFromBut;
      PercolateDown(indices[n], 0);
    }

    method Insert(n: nat)
      requires Valid() && !InHeap(n)
      modifies this`heap, this`indices
      ensures Valid() && multiset(heap) == multiset(old(heap)) + multiset{n} && InHeap(n)
      ensures |indices| == if n < |old(indices)| then |old(indices)| else n + 1
    {
      hide StrictWeakOrder;
      while |indices| < n + 1
        invariant Indexed(heap, indices) && heap == old(heap) && (n < |indices| ==> indices[n] < 0)
        invariant |indices| == |old(indices)| || |old(indices)| < |indices| <= n + 1
        decreases n + 1 - |indices|
      {
        indices := indices + [-1];
      }
      indices := indices[n := |heap|];
      heap := heap + [n];
      assert Bridged(heap, lt, |heap| - 1);
      PercolateUp(indices[n]);
      assert n in multiset(heap);
      Positioned(heap, indices, n);
    }

    /** Whatever has happened to the place of `n` in the order. */
    method Update(n: nat)
      requires StrictWeakOrder(lt) && Indexed(heap, indices)
      requires if InHeap(n) then HeapAround(heap, lt, indices[n]) && Bridged(heap, lt, indices[n]) else IsHeap(heap, lt)
      modifies this`heap, this`indices
      ensures Valid() && InHeap(n)
      ensures multiset(heap) == multiset(old(heap)) + if old(InHeap(n)) then multiset{} else multiset{n}
    {
      if !InHeap(n) {
        Insert(n);
      } else {
        hide StrictWeakOrder, Bridged, HeapAround, IsHeap, HeapFrom, HeapFromBut;
        assert heap[indices[n]] == n;
        PercolateUp(indices[n]);
        assert n in multiset(heap) by { assert n in old(heap); assert n in multiset(old(heap)); }
        Positioned(heap, indices, n);
        DownFrom(heap, lt, indices[n], old(heap), old(indices)[n]);
        PercolateDown(indices[n], 0);
        FromRoot(heap, lt);
        assert n in multiset(heap);
        Positioned(heap, indices, n);
      }
    }

    /** Takes out an element that no other is less than. */
    method RemoveMin() returns (x: nat)
      requires Valid() && heap != []
      modifies this`heap, this`indices
      ensures Valid() && multiset(heap) == multiset(old(heap)) - multiset{x} && !InHeap(x)
      ensures x in old(heap) && forall y :: y in old(heap) ==> !lt(y, x)
    {
      hide StrictWeakOrder, Indexed, IsHeap, HeapFrom, HeapFromBut;
      x := heap[0];
      LeastOfAll(heap, lt);
      TakenOut(heap, indices, lt);
      heap := heap[0 := heap[|heap| - 1]];
      indices := indices[heap[0] := 0];
      indices := indices[x := -1];
      heap := heap[..|heap| - 1];
      if |heap| > 1 {
        PercolateDown(0, 0);
      }
      NotIn(heap, indices, x);
      FromRoot(heap, lt);
    }

    /** Forgets the old elements and heapifies the new ones from the last inner node down to the root. */
    method Build(ns: seq<nat>)
      requires Valid() && (forall i :: 0 <= i < |ns| ==> ns[i] < |indices|)
      requires forall i, j :: 0 <= i < j < |ns| ==> ns[i] != ns[j]
      modifies this`heap, this`indices
      ensures Valid() && multiset(heap) == multiset(ns)
    {
      hide StrictWeakOrder, IsHeap, HeapFrom, HeapFromBut;
      Clear();
      var k := 0;
      while k < |ns|
        invariant k <= |ns| && heap == ns[..k] && |indices| == |old(indices)| && Indexed(heap, indices)
      {
        assert indices[ns[k]] < 0;
        indices := indices[ns[k] := k];
        heap := heap + [ns[k]];
        k := k + 1;
      }
      assert ns[..k] == ns;
      Leaves(heap, lt, |heap| / 2);
      var i: int := |heap| / 2 - 1;
      while i >= 0
        invariant -1 <= i < |heap| && Indexed(heap, indices) && HeapFrom(heap, lt, i + 1)
        invariant multiset(heap) == multiset(ns) && |heap| == |ns|
      {
        hide Indexed;
        OneMore(heap, lt, i);
        PercolateDown(i, i);
        i := i - 1;
      }
      FromRoot(heap, lt);
    }

    method Clear()
      requires Valid()
      modifies this`heap, this`indices
      ensures Valid() && heap == [] && |indices| == |old(indices)|
    {
      hide StrictWeakOrder;
      var i := 0;
      while i < |heap|
        invariant i <= |heap| && |indices| == |old(indices)| && heap == old(heap)
        invariant forall n :: 0 <= n < |indices| ==>
            indices[n] == if 0 <= old(indices)[n] < i then -1 else old(indices)[n]
      {
        indices := indices[heap[i] := -1];
        i := i + 1;
      }
      heap := [];
    }
  }

  lemma ButIsAround(h: seq<nat>, lt: Order, i: nat)
    requires HeapBut(h, lt, i)
    ensures HeapAround(h, lt, i)
  {
  }

  lemma StillThere(h: seq<nat>, i: nat)
    requires i < |h|
    ensures h[i := h[i]] == h
  {
  }

  lemma LeastChild(h: seq<nat>, lt: Order, i: nat, c: nat)
    requires StrictWeakOrder(lt) && i < |h| && Left(i) < |h|
    requires c == if Right(i) < |h| && lt(h[Right(i)], h[Left(i)]) then Right(i) else Left(i)
    ensures i < c < |h| && Parent(c) == i && forall k :: 0 < k < |h| && Parent(k) == i ==> !lt(h[k], h[c])
  {
    hide StrictWeakOrder;
    forall k | 0 < k < |h| && Parent(k) == i ensures !lt(h[k], h[c]) {
      assert k == Left(i) || k == Right(i);
      Chain(lt, h[k], h[c], h[k]);
    }
  }
  lemma LiftOut(h: seq<nat>, indices: seq<int>, i: nat)
    requires Indexed(h, indices) && i < |h|
    ensures IndexedBut(h, indices, i, h[i]) && h[i := h[i]] == h && h[i] < |indices| && indices[h[i] := i] == indices
  {
    assert indices[h[i] := i] == indices;
  }

  lemma PutBack(h: seq<nat>, indices: seq<int>, i: nat, x: nat)
    requires IndexedBut(h, indices, i, x)
    ensures i < |h| && x < |indices| && Indexed(h[i := x], indices[x := i])
  {
  }

  lemma StepDown(h: seq<nat>, lt: Order, from: nat, i: nat, c: nat)
    requires StrictWeakOrder(lt) && from <= i < c < |h| && Parent(c) == i && HeapFromBut(h, lt, from, i)
    requires lt(h[c], h[i])
    requires forall k :: 0 < k < |h| && Parent(k) == i ==> !lt(h[k], h[c])
    ensures HeapFromBut(Swapped(h, i, c), lt, from, c)
  {
    var g := Swapped(h, i, c);
    hide StrictWeakOrder;
    forall k | 0 < k < |g| && Parent(k) >= from && Parent(k) != c ensures !lt(g[k], g[Parent(k)]) {
      if k == c {
        Chain(lt, h[c], h[i], h[c]);
      } else if k == i {
        assert Parent(c) == i && 0 < i;
      } else if Parent(k) == i {
        assert !lt(h[k], h[c]);
      } else {
        assert !lt(h[k], h[Parent(k)]);
      }
    }
    forall k | 0 < k < |g| && Parent(k) == c && 0 < c ensures !lt(g[k], g[Parent(c)]) {
      assert !lt(h[k], h[Parent(k)]);
    }
  }

  lemma SettledLeaf(h: seq<nat>, lt: Order, from: nat, i: nat)
    requires from <= i < |h| && HeapFromBut(h, lt, from, i)
    ensures Left(i) >= |h| ==> HeapFrom(h, lt, from)
  {
  }

  lemma SettledAt(h: seq<nat>, lt: Order, from: nat, i: nat, c: nat)
    requires StrictWeakOrder(lt) && from <= i < |h| && HeapFromBut(h, lt, from, i)
    requires 0 < c < |h| && !lt(h[c], h[i]) && forall k :: 0 < k < |h| && Parent(k) == i ==> !lt(h[k], h[c])
    ensures HeapFrom(h, lt, from)
  {
    hide StrictWeakOrder;
    forall k | 0 < k < |h| && Parent(k) == i ensures !lt(h[k], h[i]) {
      Chain(lt, h[k], h[c], h[i]);
    }
  }

  lemma Positioned(h: seq<nat>, indices: seq<int>, n: nat)
    requires Indexed(h, indices) && n in multiset(h)
    ensures n < |indices| && 0 <= indices[n] < |h| && h[indices[n]] == n
  {
    assert n in h;
  }

  lemma FromRoot(h: seq<nat>, lt: Order)
    ensures HeapFrom(h, lt, 0) <==> IsHeap(h, lt)
    ensures |h| <= 1 ==> IsHeap(h, lt)
  {
  }

  lemma DownFrom(h: seq<nat>, lt: Order, pos: nat, g: seq<nat>, start: nat)
    requires StrictWeakOrder(lt) && pos < |h|
    requires IsHeap(h, lt) ||
        (h == g && pos == start && HeapAround(g, lt, start) && Bridged(g, lt, start) &&
        (start == 0 || !lt(h[start], h[Parent(start)])))
    ensures HeapFromBut(h, lt, 0, pos)
  {
    hide StrictWeakOrder;
    if IsHeap(h, lt) {
      forall k | 0 < k < |h| && Parent(k) == pos && 0 < pos ensures !lt(h[k], h[Parent(pos)]) {
        assert !lt(h[k], h[pos]) && !lt(h[pos], h[Parent(pos)]);
        Chain(lt, h[k], h[pos], h[Parent(pos)]);
      }
    }
  }

  lemma LeastOfAll(h: seq<nat>, lt: Order)
    requires StrictWeakOrder(lt) && IsHeap(h, lt) && h != []
    ensures forall y :: y in h ==> !lt(y, h[0])
  {
    forall y | y in h ensures !lt(y, h[0]) {
      var k :| 0 <= k < |h| && h[k] == y;
      RootLeast(h, lt, k);
    }
  }

  /** The last element has taken the place of the first. */
  lemma TakenOut(h: seq<nat>, indices: seq<int>, lt: Order)
    requires h != [] && Indexed(h, indices) && IsHeap(h, lt)
    ensures h[|h| - 1] < |indices| && h[0] < |indices|
    ensures var n := |h| - 1;
            var g := h[0 := h[n]][..n];
            Indexed(g, indices[h[n] := 0][h[0] := -1]) && (n > 0 ==> HeapFromBut(g, lt, 0, 0)) &&
            multiset(g) == multiset(h) - multiset{h[0]} && h[0] !in multiset(g)
  {
    var n := |h| - 1;
    var g := h[0 := h[n]][..n];
    TakenOutContents(h);
    TakenOutIndexed(h, indices);
    assert n > 0 ==> HeapFromBut(g, lt, 0, 0);
  }

  lemma TakenOutContents(h: seq<nat>)
    requires h != []
    ensures var n := |h| - 1;
            multiset(h[0 := h[n]][..n]) == multiset(h) - multiset{h[0]}
  {
    var n := |h| - 1;
    var g := h[0 := h[n]][..n];
    if n > 0 {
      assert h == [h[0]] + h[1..n] + [h[n]] && g == [h[n]] + h[1..n];
    } else {
      assert h == [h[0]] && g == [];
    }
  }

  lemma TakenOutIndexed(h: seq<nat>, indices: seq<int>)
    requires h != [] && Indexed(h, indices)
    ensures h[|h| - 1] < |indices| && h[0] < |indices|
    ensures var n := |h| - 1;
            Indexed(h[0 := h[n]][..n], indices[h[n] := 0][h[0] := -1]) && h[0] !in multiset(h[0 := h[n]][..n])
  {
    var n := |h| - 1;
    var g := h[0 := h[n]][..n];
    assert forall k :: 0 <= k < n ==> g[k] == if k == 0 then h[n] else h[k];
    forall k | 0 <= k < n ensures g[k] != h[0] {
      assert indices[h[0]] == 0;
    }
    assert h[0] !in g;
  }

  lemma NotIn(h: seq<nat>, indices: seq<int>, x: nat)
    requires Indexed(h, indices) && x !in multiset(h)
    ensures x >= |indices| || indices[x] < 0
  {
  }

  lemma Leaves(h: seq<nat>, lt: Order, from: nat)
    requires from == |h| / 2
    ensures HeapFrom(h, lt, from)
  {
  }

  lemma OneMore(h: seq<nat>, lt: Order, i: nat)
    requires i < |h| && HeapFrom(h, lt, i + 1)
    ensures HeapFromBut(h, lt, i, i)
  {
  }
}
