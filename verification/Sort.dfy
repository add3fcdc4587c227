/**
 * The solvers' in-place sort: selection sort for short ranges, otherwise a partition around the
 * middle element and two recursive calls.
 */
module Sorting {

  ghost predicate StrictWeakOrder<T(!new)>(lt: (T, T) -> bool) {
    (forall x :: !lt(x, x)) &&
    (forall x, y, z :: lt(x, y) && lt(y, z) ==> lt(x, z)) &&
    (forall x, y, z :: lt(x, z) ==> lt(x, y) || lt(y, z))
  }

  lemma Chain<T(!new)>(lt: (T, T) -> bool, x: T, y: T, z: T)
    requires StrictWeakOrder(lt)
    ensures !lt(x, x) && !(lt(x, y) && lt(y, x))
    ensures lt(x, y) && lt(y, z) ==> lt(x, z)
    ensures lt(x, z) ==> lt(x, y) || lt(y, z)
  {
  }

  ghost predicate Ordered<T(!new)>(s: seq<T>, lo: nat, hi: nat, lt: (T, T) -> bool)
    requires hi <= |s|
  {
    forall i, j :: lo <= i < j < hi ==> !lt(s[j], s[i])
  }

  /** No element of the range is greater than `p`. */
  ghost predicate AtMost<T(!new)>(s: seq<T>, lo: nat, hi: nat, p: T, lt: (T, T) -> bool)
    requires hi <= |s|
  {
    forall k :: lo <= k < hi ==> !lt(p, s[k])
  }

  /** No element of the range is less than `p`. */
  ghost predicate AtLeast<T(!new)>(s: seq<T>, lo: nat, hi: nat, p: T, lt: (T, T) -> bool)
    requires hi <= |s|
  {
    forall k :: lo <= k < hi ==> !lt(s[k], p)
  }

  /** A permutation that leaves everything outside the range alone. */
  ghost predicate Rearranged<T>(s: seq<T>, r: seq<T>, lo: nat, hi: nat) {
    |s| == |r| && lo <= hi <= |s| && multiset(s) == multiset(r) && s[..lo] == r[..lo] && s[hi..] == r[hi..]
  }

  lemma Cancel<T>(a: multiset<T>, b: multiset<T>, c: multiset<T>, d: multiset<T>)
    requires a + b + d == a + c + d
    ensures b == c
  {
    forall e ensures b[e] == c[e] {
      assert (a + b + d)[e] == a[e] + b[e] + d[e];
      assert (a + c + d)[e] == a[e] + c[e] + d[e];
    }
  }

  lemma RearrangedRange<T>(s: seq<T>, r: seq<T>, lo: nat, hi: nat)
    requires Rearranged(s, r, lo, hi)
    ensures multiset(s[lo..hi]) == multiset(r[lo..hi])
    ensures forall k :: 0 <= k < |s| && !(lo <= k < hi) ==> s[k] == r[k]
  {
    assert s == s[..lo] + s[lo..hi] + s[hi..] && r == r[..lo] + r[lo..hi] + r[hi..];
    assert multiset(s) == multiset(s[..lo]) + multiset(s[lo..hi]) + multiset(s[hi..]);
    assert multiset(r) == multiset(r[..lo]) + multiset(r[lo..hi]) + multiset(r[hi..]);
    Cancel(multiset(s[..lo]), multiset(s[lo..hi]), multiset(r[lo..hi]), multiset(s[hi..]));
    forall k | 0 <= k < |s| && !(lo <= k < hi) ensures s[k] == r[k] {
      assert k < lo ==> s[..lo][k] == r[..lo][k];
      assert k >= hi ==> s[hi..][k - hi] == r[hi..][k - hi];
    }
  }

  lemma RearrangedTrans<T>(s: seq<T>, r: seq<T>, q: seq<T>, lo: nat, hi: nat, from: nat, to: nat)
    requires Rearranged(s, r, lo, hi) && lo <= from <= to <= hi && Rearranged(r, q, from, to)
    ensures Rearranged(s, q, lo, hi)
  {
    assert r[..lo] == r[..from][..lo] && q[..lo] == q[..from][..lo];
    assert r[hi..] == r[to..][hi - to..] && q[hi..] == q[to..][hi - to..];
  }

  lemma Exchanged<T>(s: seq<T>, i: nat, j: nat, lo: nat, hi: nat)
    requires lo <= i < hi <= |s| && lo <= j < hi
    ensures Rearranged(s, s[i := s[j]][j := s[i]], lo, hi)
  {
  }

  /** Bounds on the elements of a range survive its rearrangement. */
  lemma BoundsKept<T(!new)>(s: seq<T>, r: seq<T>, lo: nat, hi: nat, p: T, lt: (T, T) -> bool)
    requires Rearranged(s, r, lo, hi)
    ensures AtMost(s, lo, hi, p, lt) ==> AtMost(r, lo, hi, p, lt)
    ensures AtLeast(s, lo, hi, p, lt) ==> AtLeast(r, lo, hi, p, lt)
  {
    RearrangedRange(s, r, lo, hi);
    forall k | lo <= k < hi ensures exists x :: lo <= x < hi && s[x] == r[k] {
      assert r[lo..hi][k - lo] in multiset(r[lo..hi]);
      assert r[k] in s[lo..hi];
      var x :| 0 <= x < hi - lo && s[lo..hi][x] == r[k];
      assert s[lo + x] == r[k];
    }
  }

  lemma OrderedKept<T(!new)>(s: seq<T>, r: seq<T>, lo: nat, hi: nat, from: nat, to: nat, lt: (T, T) -> bool)
    requires Rearranged(s, r, lo, hi) && from <= to <= |s| && (to <= lo || hi <= from)
    ensures Ordered(s, from, to, lt) ==> Ordered(r, from, to, lt)
    ensures forall p :: AtMost(s, from, to, p, lt) ==> AtMost(r, from, to, p, lt)
    ensures forall p :: AtLeast(s, from, to, p, lt) ==> AtLeast(r, from, to, p, lt)
  {
    RearrangedRange(s, r, lo, hi);
  }

  lemma OrderedJoin<T(!new)>(s: seq<T>, lo: nat, mid: nat, hi: nat, p: T, lt: (T, T) -> bool)
    requires StrictWeakOrder(lt) && lo <= mid <= hi <= |s| && Ordered(s, lo, mid, lt) && Ordered(s, mid, hi, lt)
    requires AtMost(s, lo, mid, p, lt) && AtLeast(s, mid, hi, p, lt)
    ensures Ordered(s, lo, hi, lt)
  {
    hide StrictWeakOrder;
    forall i, j | lo <= i < j < hi ensures !lt(s[j], s[i]) {
      Chain(lt, s[j], p, s[i]);
    }
  }

  /** The first `n` elements of the range are in place: none of the later ones is less. */
  ghost predicate Selected<T(!new)>(s: seq<T>, lo: nat, n: nat, hi: nat, lt: (T, T) -> bool)
    requires lo <= n <= hi <= |s|
  {
    forall x, y :: lo <= x < n && x < y < hi ==> !lt(s[y], s[x])
  }

  lemma SelectedNext<T(!new)>(s: seq<T>, lo: nat, n: nat, hi: nat, best: nat, lt: (T, T) -> bool)
    requires StrictWeakOrder(lt) && lo <= n <= best < hi <= |s| && Selected(s, lo, n, hi, lt)
    requires AtLeast(s, n, hi, s[best], lt)
    ensures Selected(s[n := s[best]][best := s[n]], lo, n + 1, hi, lt)
  {
    var r := s[n := s[best]][best := s[n]];
    forall x, y | lo <= x < n + 1 && x < y < hi ensures !lt(r[y], r[x]) {
      var z := if y == best then n else if y == n then best else y;
      assert r[y] == s[z];
    }
  }

  method Least<T(!new)>(a: array<T>, i: nat, hi: nat, lt: (T, T) -> bool) returns (best: nat)
    requires i < hi <= a.Length && StrictWeakOrder(lt)
    ensures i <= best < hi && AtLeast(a[..], i, hi, a[best], lt)
  {
    hide StrictWeakOrder, AtLeast;
    best := i;
    var j := i + 1;
    BestFirst(a[..], i, lt);
    while j < hi
      invariant i <= best < j <= hi && AtLeast(a[..], i, j, a[best], lt)
    {
      BestNext(a[..], i, j, best, lt);
      if lt(a[j], a[best]) {
        best := j;
      }
      j := j + 1;
    }
  }

  method SelectionSort<T(!new)>(a: array<T>, lo: nat, size: nat, lt: (T, T) -> bool)
    requires lo + size <= a.Length && StrictWeakOrder(lt)
    modifies a
    ensures Rearranged(old(a[..]), a[..], lo, lo + size) && Ordered(a[..], lo, lo + size, lt)
  {
    hide StrictWeakOrder, Rearranged, Selected, AtLeast;
    var hi := lo + size;
    var i := lo;
    SortedNothing(a[..], lo, hi, lt);
    while i < hi - 1
      invariant lo <= i <= hi && Rearranged(old(a[..]), a[..], lo, hi) && Selected(a[..], lo, i, hi, lt)
    {
      ghost var s := a[..];
      var best := Least(a, i, hi, lt);
      SelectedNext(s, lo, i, hi, best, lt);
      Exchanged(s, i, best, lo, hi);
      a[i], a[best] := a[best], a[i];
      assert a[..] == s[i := s[best]][best := s[i]];
      RearrangedTrans(old(a[..]), s, a[..], lo, hi, lo, hi);
      i := i + 1;
    }
    SelectedAll(a[..], lo, i, hi, lt);
  }

  lemma SortedNothing<T(!new)>(s: seq<T>, lo: nat, hi: nat, lt: (T, T) -> bool)
    requires lo <= hi <= |s|
    ensures Rearranged(s, s, lo, hi) && Selected(s, lo, lo, hi, lt)
  {
  }

  lemma SelectedAll<T(!new)>(s: seq<T>, lo: nat, n: nat, hi: nat, lt: (T, T) -> bool)
    requires lo <= n <= hi <= |s| && hi <= n + 1 && Selected(s, lo, n, hi, lt)
    ensures Ordered(s, lo, hi, lt)
  {
  }

  lemma BestFirst<T(!new)>(s: seq<T>, i: nat, lt: (T, T) -> bool)
    requires i < |s| && StrictWeakOrder(lt)
    ensures AtLeast(s, i, i + 1, s[i], lt)
  {
  }

  lemma BestNext<T(!new)>(s: seq<T>, i: nat, j: nat, best: nat, lt: (T, T) -> bool)
    requires StrictWeakOrder(lt) && i <= best < j < |s| && AtLeast(s, i, j, s[best], lt)
    ensures AtLeast(s, i, j + 1, if lt(s[j], s[best]) then s[j] else s[best], lt)
  {
    hide StrictWeakOrder;
    forall k | i <= k < j + 1 ensures !lt(s[k], if lt(s[j], s[best]) then s[j] else s[best]) {
      Chain(lt, s[k], s[j], s[best]);
    }
  }

  /** Where the range splits: neither side is empty and the pivot lies between them.  The scans need
      no bound checks: each is stopped by the pivot or by an element exchanged before. */
  method Partition<T(!new)>(a: array<T>, lo: nat, size: nat, lt: (T, T) -> bool) returns (i: nat, ghost pivot: T)
    requires lo + size <= a.Length && size >= 2 && StrictWeakOrder(lt)
    modifies a
    ensures Rearranged(old(a[..]), a[..], lo, lo + size) && lo < i < lo + size
    ensures AtMost(a[..], lo, i, pivot, lt) && AtLeast(a[..], i, lo + size, pivot, lt)
  {
    hide StrictWeakOrder, Rearranged, AtMost, AtLeast;
    var hi := lo + size;
    var mid := lo + size / 2;
    var p := a[mid];
    pivot := p;
    Chain(lt, p, p, p);
    SortedNothing(a[..], lo, hi, lt);
    NoBounds(a[..], lo, hi, p, lt);
    var l: int := lo - 1;
    var r: int := hi;
    while l < r
      invariant Rearranged(old(a[..]), a[..], lo, hi) && lo - 1 <= l <= hi && lo <= r <= hi
      invariant if l < r then AtMost(a[..], lo, l + 1, p, lt) && AtLeast(a[..], r, hi, p, lt) &&
                              (if l < lo then r == hi && a[mid] == p else r < hi)
                else lo < l < hi && AtMost(a[..], lo, l, p, lt) && AtLeast(a[..], l, hi, p, lt)
      decreases r
    {
      ghost var s := a[..];
      l, r := Round(a, lo, l, r, hi, mid, p, lt);
      RearrangedTrans(old(a[..]), s, a[..], lo, hi, lo, hi);
    }
    i := l;
  }

  /** Both scans, and the exchange unless they have met. */
  method Round<T(!new)>(a: array<T>, lo: nat, i: int, j: nat, hi: nat, ghost mid: nat, p: T, lt: (T, T) -> bool)
    returns (l: nat, r: nat)
    requires StrictWeakOrder(lt) && lo - 1 <= i < j <= hi <= a.Length && lo < mid < hi
    requires AtMost(a[..], lo, i + 1, p, lt) && AtLeast(a[..], j, hi, p, lt)
    requires if i < lo then j == hi && a[mid] == p else j < hi
    modifies a
    ensures Rearranged(old(a[..]), a[..], lo, hi) && lo <= l < hi && lo <= r < j
    ensures if l < r then AtMost(a[..], lo, l + 1, p, lt) && AtLeast(a[..], r, hi, p, lt)
            else lo < l && AtMost(a[..], lo, l, p, lt) && AtLeast(a[..], l, hi, p, lt)
  {
    hide StrictWeakOrder, Rearranged, AtMost, AtLeast;
    ghost var s := a[..];
    ghost var stop, back := if i < lo then mid else j, if i < lo then mid else i;
    StopsHere(s, lo, i + 1, j, hi, stop, back, p, lt);
    SortedNothing(s, lo, hi, lt);
    l := ScanUp(a, lo, i + 1, p, lt, stop);
    r := ScanDown(a, hi, j - 1, p, lt, back);
    if l < r {
      Exchanged(s, l, r, lo, hi);
      ExchangedBounds(s, lo, l, r, hi, p, lt);
      a[l], a[r] := a[r], a[l];
      assert a[..] == s[l := s[r]][r := s[l]];
    } else {
      Split(s, l, r, hi, p, lt);
    }
  }

  lemma NoBounds<T(!new)>(s: seq<T>, lo: nat, hi: nat, p: T, lt: (T, T) -> bool)
    requires lo <= hi <= |s|
    ensures AtMost(s, lo, lo, p, lt) && AtLeast(s, hi, hi, p, lt)
  {
  }

  lemma Split<T(!new)>(s: seq<T>, l: nat, r: nat, hi: nat, p: T, lt: (T, T) -> bool)
    requires r <= l < hi <= |s| && !lt(s[l], p) && AtLeast(s, r + 1, hi, p, lt)
    ensures AtLeast(s, l, hi, p, lt)
  {
  }

  lemma ExchangedBounds<T(!new)>(s: seq<T>, lo: nat, l: nat, r: nat, hi: nat, p: T, lt: (T, T) -> bool)
    requires lo <= l < r < hi <= |s| && AtMost(s, lo, l, p, lt) && AtLeast(s, r + 1, hi, p, lt) && !lt(p, s[r])
    requires !lt(s[l], p)
    ensures var q := s[l := s[r]][r := s[l]];
            AtMost(q, lo, l + 1, p, lt) && AtLeast(q, r, hi, p, lt)
  {
  }

  lemma StopsHere<T(!new)>(s: seq<T>, lo: nat, l: nat, r: nat, hi: nat, stop: nat, back: nat, p: T, lt: (T, T) -> bool)
    requires StrictWeakOrder(lt) && lo <= l <= r <= hi <= |s| && AtMost(s, lo, l, p, lt) && AtLeast(s, r, hi, p, lt)
    requires if l == lo then stop == back < |s| && s[stop] == p else stop == r < hi && back == l - 1
    ensures !lt(s[stop], p) && !lt(p, s[back])
  {
  }

  /** The first element from `from` on that is not less than `p`; one at `stop` is known not to be. */
  method ScanUp<T(!new)>(a: array<T>, ghost lo: nat, from: nat, p: T, lt: (T, T) -> bool, ghost stop: nat)
    returns (l: nat)
    requires StrictWeakOrder(lt) && lo <= from <= stop < a.Length && !lt(a[stop], p) && AtMost(a[..], lo, from, p, lt)
    ensures from <= l <= stop && !lt(a[l], p) && AtMost(a[..], lo, l, p, lt)
  {
    hide StrictWeakOrder;
    l := from;
    while lt(a[l], p)
      invariant from <= l <= stop && AtMost(a[..], lo, l, p, lt)
      decreases stop - l
    {
      Chain(lt, a[l], p, p);
      l := l + 1;
    }
  }

  method ScanDown<T(!new)>(a: array<T>, ghost hi: nat, from: nat, p: T, lt: (T, T) -> bool, ghost back: nat)
    returns (r: nat)
    requires StrictWeakOrder(lt) && back <= from < hi <= a.Length && !lt(p, a[back])
    requires AtLeast(a[..], from + 1, hi, p, lt)
    ensures back <= r <= from && !lt(p, a[r]) && AtLeast(a[..], r + 1, hi, p, lt)
  {
    hide StrictWeakOrder;
    r := from;
    while lt(p, a[r])
      invariant back <= r <= from && AtLeast(a[..], r + 1, hi, p, lt)
      decreases r
    {
      Chain(lt, p, a[r], p);
      r := r - 1;
    }
  }

  /** Sorts the range: a permutation in order. */
  method Sort<T(!new)>(a: array<T>, lo: nat, size: nat, lt: (T, T) -> bool)
    requires lo + size <= a.Length && StrictWeakOrder(lt)
    modifies a
    ensures Rearranged(old(a[..]), a[..], lo, lo + size) && Ordered(a[..], lo, lo + size, lt)
    decreases size
  {
    hide StrictWeakOrder, Rearranged, AtMost, AtLeast, Ordered;
    if size <= 15 {
      SelectionSort(a, lo, size, lt);
    } else {
      ghost var pivot;
      var i;
      i, pivot := Partition(a, lo, size, lt);
      var hi := lo + size;
      ghost var s := a[..];
      Sort(a, lo, i - lo, lt);
      ghost var q := a[..];
      BoundsKept(s, q, lo, i, pivot, lt);
      OrderedKept(s, q, lo, i, i, hi, lt);
      Sort(a, i, hi - i, lt);
      BoundsKept(q, a[..], i, hi, pivot, lt);
      OrderedKept(q, a[..], i, hi, lo, i, lt);
      OrderedJoin(a[..], lo, i, hi, pivot, lt);
      RearrangedTrans(old(a[..]), s, q, lo, hi, lo, i);
      RearrangedTrans(old(a[..]), q, a[..], lo, hi, i, hi);
    }
  }
}
