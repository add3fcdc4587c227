/**
 * Range queries over a row of 64-bit words (src/Bitset.cc), the iterator over set bits and the
 * queue of set bits (include/cosy/Bitset.h), each against the bit-by-bit reading of the row.
 */
module Bitsets {
  import opened Words

  predicate Overlap(w: Word, m: Word) { w & m != 0 }

  predicate Test(w: Word, i: nat)
    requires i < 64
  {
    Overlap(w, OneBit(i))
  }

  /** Whether a position is set: the test of one masked word. */
  predicate IsBitSet(bits: seq<Word>, pos: nat)
    requires pos < 64 * |bits|
  {
    Test(bits[pos / 64], pos % 64)
  }

  /** The bit-by-bit reading. */
  predicate On(bits: seq<Word>, pos: nat)
    requires pos < 64 * |bits|
  {
    Bit(bits[pos / 64], pos % 64)
  }

  /** No position from a up to but not including b is set. */
  predicate Clear(bits: seq<Word>, a: nat, b: nat)
    requires b <= 64 * |bits|
  {
    forall pos :: a <= pos < b ==> !On(bits, pos)
  }

  /** The number of set positions from a up to but not including b, one by one. */
  function CountIn(bits: seq<Word>, a: nat, b: nat): nat
    requires b <= 64 * |bits|
    decreases b
  {
    if b <= a then 0 else CountIn(bits, a, b - 1) + if On(bits, b - 1) then 1 else 0
  }

  /** r is the first set position from start to end, or -1. */
  predicate IsFirst(bits: seq<Word>, start: nat, end: nat, r: int)
    requires end < 64 * |bits|
  {
    if r == -1 then Clear(bits, start, end + 1) else start <= r <= end && On(bits, r) && Clear(bits, start, r)
  }

  /** r is the last set position from start to end, or -1. */
  predicate IsLast(bits: seq<Word>, start: nat, end: nat, r: int)
    requires end < 64 * |bits|
  {
    if r == -1 then Clear(bits, start, end + 1) else start <= r <= end && On(bits, r) && Clear(bits, r + 1, end + 1)
  }

  // ---------- One word ----------

  lemma Split(o: nat, p: nat)
    requires p < 64
    ensures (64 * o + p) / 64 == o && (64 * o + p) % 64 == p
  {
  }

  lemma IsBitSetIs(bits: seq<Word>, pos: nat)
    requires pos < 64 * |bits|
    ensures IsBitSet(bits, pos) <==> On(bits, pos)
  {
    hide Bit, Test;
    TestIs(bits[pos / 64], pos % 64);
  }

  lemma TestIs(w: Word, i: nat)
    requires i < 64
    ensures Test(w, i) <==> Bit(w, i)
  {
    hide *;
    var m := OneBit(i);
    forall k | 0 <= k < 64 ensures Bit(m, k) <==> k == i {
      OneBitIs(i, k);
    }
    TestBy(w, m, i);
    TestOf(w, i);
  }

  lemma TestOf(w: Word, i: nat)
    requires i < 64
    ensures Test(w, i) <==> Overlap(w, OneBit(i))
  {
    hide OneBit, Overlap;
  }

  lemma OverlapIs(w: Word, m: Word)
    ensures Overlap(w, m) <==> w & m != 0
  {
  }

  lemma TestBy(w: Word, m: Word, i: nat)
    requires i < 64 && forall k :: 0 <= k < 64 ==> (Bit(m, k) <==> k == i)
    ensures Overlap(w, m) <==> Bit(w, i)
  {
    hide *;
    var v := w & m;
    OverlapIs(w, m);
    IsZero(v);
    forall k | 0 <= k < 64 ensures Bit(v, k) <==> Bit(w, k) && k == i {
      AndBit(w, m, k);
    }
    assert Bit(v, i) <==> Bit(w, i);
  }

  /** The set bits of v are those of word o at the positions from s to e. */
  ghost predicate Masked(bits: seq<Word>, o: nat, s: nat, e: nat, v: Word) {
    o < |bits| && s <= e < 64 && forall k :: 0 <= k < 64 ==> (Bit(v, k) <==> Bit(bits[o], k) && s <= k <= e)
  }

  lemma MaskedBy(bits: seq<Word>, o: nat, s: nat, e: nat, m: Word)
    requires o < |bits| && s <= e < 64 && forall k :: 0 <= k < 64 ==> (Bit(m, k) <==> s <= k <= e)
    ensures Masked(bits, o, s, e, bits[o] & m)
  {
    hide *;
    var w := bits[o];
    var v := w & m;
    forall k | 0 <= k < 64 ensures Bit(v, k) <==> Bit(w, k) && s <= k <= e {
      AndBit(w, m, k);
    }
    MakeMasked(bits, o, s, e, v);
  }

  lemma MakeMasked(bits: seq<Word>, o: nat, s: nat, e: nat, v: Word)
    requires o < |bits| && s <= e < 64 && forall k :: 0 <= k < 64 ==> (Bit(v, k) <==> Bit(bits[o], k) && s <= k <= e)
    ensures Masked(bits, o, s, e, v)
  {
    hide Bit;
  }

  lemma MaskedRange(bits: seq<Word>, o: nat, s: nat, e: nat)
    requires o < |bits| && s <= e < 64
    ensures Masked(bits, o, s, e, bits[o] & OneRange(s, e))
  {
    hide *;
    var m := OneRange(s, e);
    forall k | 0 <= k < 64 ensures Bit(m, k) <==> s <= k <= e {
      OneRangeIs(s, e, k);
    }
    MaskedBy(bits, o, s, e, m);
  }

  lemma MaskedUp(bits: seq<Word>, o: nat, s: nat)
    requires o < |bits| && s < 64
    ensures Masked(bits, o, s, 63, bits[o] & IntervalUp(s))
  {
    hide *;
    var m := IntervalUp(s);
    forall k | 0 <= k < 64 ensures Bit(m, k) <==> s <= k <= 63 {
      IntervalUpIs(s, k);
    }
    MaskedBy(bits, o, s, 63, m);
  }

  lemma MaskedDown(bits: seq<Word>, o: nat, e: nat)
    requires o < |bits| && e < 64
    ensures Masked(bits, o, 0, e, bits[o] & IntervalDown(e))
  {
    hide *;
    var m := IntervalDown(e);
    forall k | 0 <= k < 64 ensures Bit(m, k) <==> 0 <= k <= e {
      IntervalDownIs(e, k);
    }
    MaskedBy(bits, o, 0, e, m);
  }

  lemma MaskedWhole(bits: seq<Word>, o: nat)
    requires o < |bits|
    ensures Masked(bits, o, 0, 63, bits[o])
  {
    hide Bit;
  }

  /** A masked word is 0 exactly when its positions are clear. */
  lemma MaskedClear(bits: seq<Word>, o: nat, s: nat, e: nat, v: Word)
    requires Masked(bits, o, s, e, v)
    ensures v == 0 <==> Clear(bits, 64 * o + s, 64 * o + e + 1)
  {
    hide Bit;
    IsZero(v);
    if v == 0 {
      forall pos | 64 * o + s <= pos < 64 * o + e + 1 ensures !On(bits, pos) {
        Split(o, pos - 64 * o);
        assert !Bit(v, pos - 64 * o);
      }
    } else {
      var k :| 0 <= k < 64 && Bit(v, k);
      Split(o, k);
      assert On(bits, 64 * o + k);
    }
  }

  /** The lowest set bit of a masked word is the first set position of its range. */
  lemma MaskedFirst(bits: seq<Word>, o: nat, s: nat, e: nat, v: Word)
    requires Masked(bits, o, s, e, v) && v != 0
    ensures IsFirst(bits, 64 * o + s, 64 * o + e, 64 * o + LeastSignificantBitPosition(v))
  {
    hide Bit, LeastSignificantBitPosition;
    LeastIs(v);
    var i := LeastSignificantBitPosition(v);
    Split(o, i);
    forall pos | 64 * o + s <= pos < 64 * o + i ensures !On(bits, pos) {
      Split(o, pos - 64 * o);
      assert !Bit(v, pos - 64 * o);
    }
  }

  lemma MaskedLast(bits: seq<Word>, o: nat, s: nat, e: nat, v: Word)
    requires Masked(bits, o, s, e, v) && v != 0
    ensures IsLast(bits, 64 * o + s, 64 * o + e, 64 * o + MostSignificantBitPosition(v))
  {
    hide Bit, MostSignificantBitPosition;
    MostIs(v);
    var i := MostSignificantBitPosition(v);
    Split(o, i);
    forall pos | 64 * o + i + 1 <= pos < 64 * o + e + 1 ensures !On(bits, pos) {
      Split(o, pos - 64 * o);
      assert !Bit(v, pos - 64 * o);
    }
  }

  /** The parallel count of a masked word is the count of its positions. */
  lemma MaskedCount(bits: seq<Word>, o: nat, s: nat, e: nat, v: Word)
    requires Masked(bits, o, s, e, v)
    ensures Position(BitCount(v)) == CountIn(bits, 64 * o + s, 64 * o + e + 1)
  {
    hide Bit, BitCount, Position;
    BitCountIs(v);
    OnesBelow(bits, o, s, e, v, 64);
  }

  lemma {:induction false} OnesBelow(bits: seq<Word>, o: nat, s: nat, e: nat, v: Word, k: nat)
    requires Masked(bits, o, s, e, v) && k <= 64
    ensures Ones(v, k) == if e < k then CountIn(bits, 64 * o + s, 64 * o + e + 1)
                          else if s < k then CountIn(bits, 64 * o + s, 64 * o + k) else 0
  {
    hide Bit;
    if k > 0 {
      OnesBelow(bits, o, s, e, v, k - 1);
      Split(o, k - 1);
    }
  }

  lemma {:induction false} CountJoins(bits: seq<Word>, a: nat, b: nat, c: nat)
    requires a <= b <= c <= 64 * |bits|
    ensures CountIn(bits, a, c) == CountIn(bits, a, b) + CountIn(bits, b, c)
    decreases c
  {
    hide On;
    if b < c {
      CountJoins(bits, a, b, c - 1);
    }
  }

  // ---------- Ranges ----------

  const SMALL_COUNT := 8

  /** The number of set bits between two positions, both included. */
  method BitCountRange(bits: seq<Word>, start: nat, end: nat) returns (n: nat)
    requires start <= end < 64 * |bits|
    ensures n == CountIn(bits, start, end + 1)
  {
    hide On, Masked, Bit, Test, BitCount, Position, OneRange, IntervalUp, IntervalDown, IsBitSet;
    if end - start > SMALL_COUNT {
      var first, s, last, e := start / 64, start % 64, end / 64, end % 64;
      if first == last {
        MaskedRange(bits, first, s, e);
        MaskedCount(bits, first, s, e, bits[first] & OneRange(s, e));
        return Position(BitCount(bits[first] & OneRange(s, e)));
      }
      MaskedUp(bits, first, s);
      MaskedCount(bits, first, s, 63, bits[first] & IntervalUp(s));
      n := Position(BitCount(bits[first] & IntervalUp(s)));
      var o := first + 1;
      while o < last
        invariant first < o <= last && n == CountIn(bits, start, 64 * o)
      {
        MaskedWhole(bits, o);
        MaskedCount(bits, o, 0, 63, bits[o]);
        CountJoins(bits, start, 64 * o, 64 * o + 64);
        n := n + Position(BitCount(bits[o]));
        o := o + 1;
      }
      MaskedDown(bits, last, e);
      MaskedCount(bits, last, 0, e, bits[last] & IntervalDown(e));
      CountJoins(bits, start, 64 * last, end + 1);
      n := n + Position(BitCount(bits[last] & IntervalDown(e)));
    } else {
      n := 0;
      var i := start;
      while i <= end
        invariant start <= i <= end + 1 && n == CountIn(bits, start, i)
      {
        IsBitSetIs(bits, i);
        n := n + if IsBitSet(bits, i) then 1 else 0;
        i := i + 1;
      }
    }
  }

  /** Whether no bit between two positions is set. */
  method IsEmptyRange(bits: seq<Word>, start: nat, end: nat) returns (empty: bool)
    requires start <= end < 64 * |bits|
    ensures empty <==> Clear(bits, start, end + 1)
  {
    hide On, Masked, Bit, Test, OneRange, IntervalUp, IntervalDown;
    var first, s, last, e := start / 64, start % 64, end / 64, end % 64;
    if first == last {
      MaskedRange(bits, first, s, e);
      MaskedClear(bits, first, s, e, bits[first] & OneRange(s, e));
      return bits[first] & OneRange(s, e) == 0;
    }
    MaskedUp(bits, first, s);
    MaskedClear(bits, first, s, 63, bits[first] & IntervalUp(s));
    if bits[first] & IntervalUp(s) != 0 {
      return false;
    }
    var o := first + 1;
    while o < last
      invariant first < o <= last && Clear(bits, start, 64 * o)
    {
      MaskedWhole(bits, o);
      MaskedClear(bits, o, 0, 63, bits[o]);
      if bits[o] != 0 {
        return false;
      }
      o := o + 1;
    }
    MaskedDown(bits, last, e);
    MaskedClear(bits, last, 0, e, bits[last] & IntervalDown(e));
    return bits[last] & IntervalDown(e) == 0;
  }

  /** The first set bit between two positions, -1 if there is none. */
  method LeastSignificantBitPositionRange(bits: seq<Word>, start: nat, end: nat) returns (r: int)
    requires start <= end < 64 * |bits|
    ensures IsFirst(bits, start, end, r)
  {
    hide On, Masked, Bit, Test, OneRange, IntervalUp, IntervalDown, IsBitSet, LeastSignificantBitPosition;
    IsBitSetIs(bits, start);
    if IsBitSet(bits, start) {
      return start;
    }
    var first, s, last, e := start / 64, start % 64, end / 64, end % 64;
    if first == last {
      MaskedRange(bits, first, s, e);
      var v := bits[first] & OneRange(s, e);
      MaskedClear(bits, first, s, e, v);
      if v != 0 {
        MaskedFirst(bits, first, s, e, v);
        return 64 * first + LeastSignificantBitPosition(v);
      }
      return -1;
    }
    MaskedUp(bits, first, s);
    var v := bits[first] & IntervalUp(s);
    MaskedClear(bits, first, s, 63, v);
    if v != 0 {
      MaskedFirst(bits, first, s, 63, v);
      return 64 * first + LeastSignificantBitPosition(v);
    }
    var o := first + 1;
    while o < last
      invariant first < o <= last && Clear(bits, start, 64 * o)
    {
      MaskedWhole(bits, o);
      MaskedClear(bits, o, 0, 63, bits[o]);
      if bits[o] != 0 {
        MaskedFirst(bits, o, 0, 63, bits[o]);
        return 64 * o + LeastSignificantBitPosition(bits[o]);
      }
      o := o + 1;
    }
    MaskedDown(bits, last, e);
    v := bits[last] & IntervalDown(e);
    MaskedClear(bits, last, 0, e, v);
    if v != 0 {
      MaskedFirst(bits, last, 0, e, v);
      return 64 * last + LeastSignificantBitPosition(v);
    }
    return -1;
  }

  /** The last set bit between two positions, -1 if there is none. */
  method MostSignificantBitPositionRange(bits: seq<Word>, start: nat, end: nat) returns (r: int)
    requires start <= end < 64 * |bits|
    ensures IsLast(bits, start, end, r)
  {
    hide On, Masked, Bit, Test, OneRange, IntervalUp, IntervalDown, IsBitSet, MostSignificantBitPosition;
    IsBitSetIs(bits, end);
    if IsBitSet(bits, end) {
      return end;
    }
    var first, s, last, e := start / 64, start % 64, end / 64, end % 64;
    if first == last {
      MaskedRange(bits, first, s, e);
      var v := bits[first] & OneRange(s, e);
      MaskedClear(bits, first, s, e, v);
      if v != 0 {
        MaskedLast(bits, first, s, e, v);
        return 64 * last + MostSignificantBitPosition(v);
      }
      return -1;
    }
    MaskedDown(bits, last, e);
    var v := bits[last] & IntervalDown(e);
    MaskedClear(bits, last, 0, e, v);
    if v != 0 {
      MaskedLast(bits, last, 0, e, v);
      return 64 * last + MostSignificantBitPosition(v);
    }
    var o := last - 1;
    while o > first
      invariant first <= o < last && Clear(bits, 64 * o + 64, end + 1)
    {
      MaskedWhole(bits, o);
      MaskedClear(bits, o, 0, 63, bits[o]);
      if bits[o] != 0 {
        MaskedLast(bits, o, 0, 63, bits[o]);
        return 64 * o + MostSignificantBitPosition(bits[o]);
      }
      o := o - 1;
    }
    MaskedUp(bits, first, s);
    v := bits[first] & IntervalUp(s);
    MaskedClear(bits, first, s, 63, v);
    if v != 0 {
      MaskedLast(bits, first, s, 63, v);
      return 64 * first + MostSignificantBitPosition(v);
    }
    return -1;
  }

  /** The first set bit when the last position is known to be set: the last word is not masked. */
  method UnsafeLeastSignificantBitPosition(bits: seq<Word>, start: nat, end: nat) returns (r: int)
    requires start <= end < 64 * |bits| && IsBitSet(bits, end)
    ensures r != -1 && IsFirst(bits, start, end, r)
  {
    hide On, Masked, Bit, Test, IntervalUp, IsBitSet, LeastSignificantBitPosition;
    IsBitSetIs(bits, start);
    IsBitSetIs(bits, end);
    if IsBitSet(bits, start) {
      return start;
    }
    var first, s, last := start / 64, start % 64, end / 64;
    MaskedUp(bits, first, s);
    var v := bits[first] & IntervalUp(s);
    MaskedClear(bits, first, s, 63, v);
    if v != 0 {
      MaskedFirst(bits, first, s, 63, v);
      return 64 * first + LeastSignificantBitPosition(v);
    }
    var o := first + 1;
    while o <= last
      invariant first < o <= last + 1 && Clear(bits, start, 64 * o)
    {
      MaskedWhole(bits, o);
      MaskedClear(bits, o, 0, 63, bits[o]);
      if bits[o] != 0 {
        MaskedFirst(bits, o, 0, 63, bits[o]);
        return 64 * o + LeastSignificantBitPosition(bits[o]);
      }
      o := o + 1;
    }
    return -1;
  }

  /** The last set bit when the first position is known to be set: the first word is not masked. */
  method UnsafeMostSignificantBitPosition(bits: seq<Word>, start: nat, end: nat) returns (r: int)
    requires start <= end < 64 * |bits| && IsBitSet(bits, start)
    ensures r != -1 && IsLast(bits, start, end, r)
  {
    hide On, Masked, Bit, Test, IntervalDown, IsBitSet, MostSignificantBitPosition;
    IsBitSetIs(bits, start);
    IsBitSetIs(bits, end);
    if IsBitSet(bits, end) {
      return end;
    }
    var first, last, e := start / 64, end / 64, end % 64;
    MaskedDown(bits, last, e);
    var v := bits[last] & IntervalDown(e);
    MaskedClear(bits, last, 0, e, v);
    if v != 0 {
      MaskedLast(bits, last, 0, e, v);
      return 64 * last + MostSignificantBitPosition(v);
    }
    var o := last - 1;
    while o >= first
      invariant first - 1 <= o < last && Clear(bits, 64 * o + 64, end + 1)
    {
      MaskedWhole(bits, o);
      MaskedClear(bits, o, 0, 63, bits[o]);
      if bits[o] != 0 {
        MaskedLast(bits, o, 0, 63, bits[o]);
        return 64 * o + MostSignificantBitPosition(bits[o]);
      }
      o := o - 1;
    }
    return -1;
  }

  // ---------- Walking the set positions ----------

  /** The set positions of a row in increasing order, -1 at the end; reads one word at a time. */
  class Iterator {
    const bitset: seq<Word>
    var index: int
    var base: nat
    var current: Word

    /** What is left of the current word are its set bits behind the current position. */
    ghost predicate Valid()
      reads this
    {
      index == -1 ||
        (0 <= index < 64 * |bitset| && base == 64 * (index / 64) && Behind(bitset, base / 64, current, index + 1))
    }

    constructor (bitset: seq<Word>)
      ensures Valid() && this.bitset == bitset
      ensures IsNext(bitset, 0, index)
    {
      this.bitset := bitset;
      index, base, current := 0, 0, 0;
      new;
      if |bitset| == 0 {
        index := -1;
      } else {
        current := bitset[0];
        WholeBehind(bitset, 0);
        Advance(0);
      }
    }

    /** Moves to the next set position. */
    method Next()
      requires Valid() && index != -1
      modifies this`index, this`base, this`current
      ensures Valid() && IsNext(bitset, old(index) + 1, index)
    {
      Advance(index + 1);
    }

    method Advance(ghost from: nat)
      requires base % 64 == 0 && base / 64 < |bitset| && base <= from <= base + 64
      requires Behind(bitset, base / 64, current, from)
      modifies this`index, this`base, this`current
      ensures Valid() && IsNext(bitset, from, index)
    {
      hide Behind, On, LeastSignificantBitPosition;
      ghost var at := from;
      if current == 0 {
        NothingBehind(bitset, base / 64, from);
        var bucket := base / 64 + 1;
        while bucket < |bitset| && bitset[bucket] == 0
          invariant base / 64 < bucket <= |bitset| && Clear(bitset, from, 64 * bucket)
        {
          WholeBehind(bitset, bucket);
          NothingBehind(bitset, bucket, 64 * bucket);
          bucket := bucket + 1;
        }
        if bucket == |bitset| {
          index := -1;
          return;
        }
        WholeBehind(bitset, bucket);
        current := bitset[bucket];
        base := 64 * bucket;
        at := base;
      }
      LeastBehind(bitset, base / 64, current, at);
      index := base + LeastSignificantBitPosition(current);
      current := WithoutLeast(current);
    }
  }

  /** The first set position from a on, or -1. */
  ghost predicate IsNext(bits: seq<Word>, a: nat, r: int) {
    if r == -1 then Clear(bits, a, 64 * |bits|) else a <= r < 64 * |bits| && On(bits, r) && Clear(bits, a, r)
  }

  /** The set bits of v are those of word o from position a on. */
  ghost predicate Behind(bits: seq<Word>, o: nat, v: Word, a: nat) {
    o < |bits| && forall k :: 0 <= k < 64 ==> (Bit(v, k) <==> Bit(bits[o], k) && a <= 64 * o + k)
  }

  lemma WholeBehind(bits: seq<Word>, o: nat)
    requires o < |bits|
    ensures Behind(bits, o, bits[o], 64 * o)
  {
    hide Bit;
  }

  lemma NothingBehind(bits: seq<Word>, o: nat, a: nat)
    requires Behind(bits, o, 0, a)
    ensures Clear(bits, a, 64 * o + 64) || a < 64 * o
  {
    hide Bit;
    IsZero(0);
    if 64 * o <= a {
      forall pos | a <= pos < 64 * o + 64 ensures !On(bits, pos) {
        Split(o, pos - 64 * o);
        assert !Bit(0, pos - 64 * o);
      }
    }
  }

  /** The lowest bit left is the next set position; without it what is left lies behind that. */
  lemma LeastBehind(bits: seq<Word>, o: nat, v: Word, a: nat)
    requires Behind(bits, o, v, a) && v != 0 && 64 * o <= a
    ensures var r := 64 * o + LeastSignificantBitPosition(v);
            LeastSignificantBitPosition(v) < 64 && a <= r && On(bits, r) && Clear(bits, a, r) &&
              Behind(bits, o, WithoutLeast(v), r + 1)
  {
    hide Bit, LeastSignificantBitPosition, WithoutLeast;
    LeastIs(v);
    var i := LeastSignificantBitPosition(v);
    Split(o, i);
    forall pos | a <= pos < 64 * o + i ensures !On(bits, pos) {
      Split(o, pos - 64 * o);
      assert !Bit(v, pos - 64 * o);
    }
    forall k | 0 <= k < 64 ensures Bit(WithoutLeast(v), k) <==> Bit(bits[o], k) && 64 * o + i + 1 <= 64 * o + k {
      DropsLeast(v, k);
    }
  }

  /** A range-based loop over a bitset meets exactly the set positions, in increasing order. */
  method Positions(bits: seq<Word>) returns (out: seq<nat>)
    ensures forall i, j :: 0 <= i < j < |out| ==> out[i] < out[j]
    ensures forall pos: nat :: pos in out <==> pos < 64 * |bits| && On(bits, pos)
  {
    hide On;
    var it := new Iterator(bits);
    out := [];
    ghost var from := 0;
    while it.index != -1
      invariant it.Valid() && it.bitset == bits && IsNext(bits, from, it.index)
      invariant from <= 64 * |bits| && forall i :: 0 <= i < |out| ==> out[i] < from
      invariant forall i, j :: 0 <= i < j < |out| ==> out[i] < out[j]
      invariant forall pos: nat :: pos in out <==> pos < from && On(bits, pos)
      decreases 64 * |bits| - from
    {
      out := out + [it.index];
      from := it.index + 1;
      it.Next();
    }
  }

  // ---------- A queue that gives the highest set position ----------

  class BitQueue {
    var size: nat
    var top: int
    var data: seq<Word>

    /** top is the highest set position. */
    ghost predicate Valid()
      reads this
    {
      |data| == (size + 63) / 64 && IsTop(data, top)
    }

    constructor (size: nat)
      ensures Valid() && this.size == size && top == -1
    {
      this.size, top := size, -1;
      data := seq((size + 63) / 64, i => 0);
      new;
      AllZero(data);
    }

    method Set(i: nat)
      requires Valid() && i < size
      modifies this`top, this`data
      ensures Valid() && |data| == |old(data)|
      ensures forall pos: nat :: pos < 64 * |data| ==> (On(data, pos) <==> On(old(data), pos) || pos == i)
    {
      hide On, SetBit;
      SetOn(data, i);
      top := if top < i then i else top;
      data := data[i / 64 := SetBit(data[i / 64], i % 64)];
    }

    /** Clears the highest set position and finds the next one. */
    method ClearTop()
      requires Valid() && top != -1
      modifies this`top, this`data
      ensures Valid() && |data| == |old(data)| && top < old(top)
      ensures forall pos: nat :: pos < 64 * |data| ==> (On(data, pos) <==> On(old(data), pos) && pos != old(top))
    {
      hide On, ClearBit, MostSignificantBitPosition;
      ClearOn(data, top);
      var bucketIndex := top / 64;
      data := data[bucketIndex := ClearBit(data[bucketIndex], top % 64)];
      var bucket := data[bucketIndex];
      ghost var cleared := data;
      while bucket == 0
        invariant data == cleared && top == old(top) && 0 <= bucketIndex < |data| && bucket == data[bucketIndex]
        invariant Clear(data, 64 * bucketIndex + 64, 64 * |data|)
        decreases bucketIndex
      {
        MaskedWhole(data, bucketIndex);
        MaskedClear(data, bucketIndex, 0, 63, bucket);
        if bucketIndex == 0 {
          top := -1;
          return;
        }
        bucketIndex := bucketIndex - 1;
        bucket := data[bucketIndex];
      }
      MaskedWhole(data, bucketIndex);
      MaskedLast(data, bucketIndex, 0, 63, bucket);
      top := 64 * bucketIndex + MostSignificantBitPosition(bucket);
    }
  }

  /** t is the highest set position, or -1. */
  ghost predicate IsTop(bits: seq<Word>, t: int) {
    if t == -1 then Clear(bits, 0, 64 * |bits|)
    else 0 <= t < 64 * |bits| && On(bits, t) && Clear(bits, t + 1, 64 * |bits|)
  }

  lemma AllZero(bits: seq<Word>)
    requires forall o :: 0 <= o < |bits| ==> bits[o] == 0
    ensures Clear(bits, 0, 64 * |bits|)
  {
    hide Bit;
    IsZero(0);
  }

  lemma SetOn(bits: seq<Word>, i: nat)
    requires i < 64 * |bits|
    ensures var b := bits[i / 64 := SetBit(bits[i / 64], i % 64)];
            forall pos: nat :: pos < 64 * |b| ==> (On(b, pos) <==> On(bits, pos) || pos == i)
  {
    hide Bit, SetBit;
    var b := bits[i / 64 := SetBit(bits[i / 64], i % 64)];
    forall pos: nat | pos < 64 * |b| ensures On(b, pos) <==> On(bits, pos) || pos == i {
      SetBitIs(bits[i / 64], i % 64, pos % 64);
    }
  }

  lemma ClearOn(bits: seq<Word>, i: nat)
    requires i < 64 * |bits|
    ensures var b := bits[i / 64 := ClearBit(bits[i / 64], i % 64)];
            forall pos: nat :: pos < 64 * |b| ==> (On(b, pos) <==> On(bits, pos) && pos != i)
  {
    hide Bit, ClearBit;
    var b := bits[i / 64 := ClearBit(bits[i / 64], i % 64)];
    forall pos: nat | pos < 64 * |b| ensures On(b, pos) <==> On(bits, pos) && pos != i {
      ClearBitIs(bits[i / 64], i % 64, pos % 64);
    }
  }
}
