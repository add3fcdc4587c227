/**
 * A 64-bit word as a row of bits: masks, population count, lowest and highest set bit
 * (include/cosy/Bitset.h).  Positions are numbers below 64; the facts about single bits are stated
 * for shift distances first and then for positions.
 */
module Words {
  type Word = bv64

  const ALL_BITS: Word := 0xFFFF_FFFF_FFFF_FFFF

  // ---------- Positions ----------

  /** The number a word stands for. */
  function Position(p: Word): nat
    decreases p
  {
    if p == 0 then 0 else Position(p - 1) + 1
  }

  lemma PositionStep(p: Word)
    requires p != 0
    ensures Position(p) == Position(p - 1) + 1
  {
  }

  lemma {:induction false} PositionsOrdered(p: Word, q: Word)
    requires p < q <= 128
    ensures Position(p) < Position(q)
    decreases q
  {
    hide Position;
    PositionStep(q);
    if p < q - 1 {
      PositionsOrdered(p, q - 1);
    } else {
      assert p == q - 1;
    }
  }

  function Plus(x: Word, y: Word): Word { x + y }

  lemma {:induction false} PositionsAdd(p: Word, q: Word)
    requires p <= 64 && q <= 64
    ensures Position(Plus(p, q)) == Position(p) + Position(q)
    decreases q
  {
    hide *;
    if q == 0 {
      PlusZero(p);
    } else {
      OneLess(p, q);
      PositionStep(q);
      PositionStep(Plus(p, q));
      PositionsAdd(p, q - 1);
    }
  }

  lemma PlusZero(p: Word)
    ensures Plus(p, 0) == p && Position(0) == 0
  {
  }

  lemma OneLess(p: Word, q: Word)
    requires p <= 64 && 0 < q <= 64
    ensures Plus(p, q) - 1 == Plus(p, q - 1) && Plus(p, q) != 0
  {
  }

  lemma EightSteps(p: Word)
    requires p <= 56
    ensures Position(p + 8) == Position(p) + 8
  {
    hide Position;
    PositionStep(p + 1);
    PositionStep(p + 2);
    PositionStep(p + 3);
    PositionStep(p + 4);
    PositionStep(p + 5);
    PositionStep(p + 6);
    PositionStep(p + 7);
    PositionStep(p + 8);
  }

  lemma LastPosition()
    ensures Position(64) == 64
  {
    assert Position(0) == 0;
    hide Position;
    EightSteps(0);
    EightSteps(8);
    EightSteps(16);
    EightSteps(24);
    EightSteps(32);
    EightSteps(40);
    EightSteps(48);
    EightSteps(56);
  }

  lemma NextPosition(p: Word)
    requires p < 64 && Position(p) < 63
    ensures p + 1 < 64 && Position(p + 1) == Position(p) + 1
  {
    hide Position;
    LastPosition();
    assert p + 1 - 1 == p && p + 1 != 0;
    PositionStep(p + 1);
    assert p + 1 == 64 ==> Position(p + 1) == 64;
  }

  /** Position i as a shift distance. */
  function Slot(i: nat): (p: Word)
    requires i < 64
    ensures p < 64 && Position(p) == i
  {
    if i == 0 then 0 else
      var p := Slot(i - 1);
      NextPosition(p);
      p + 1
  }

  lemma SlotsOrdered(i: nat, j: nat)
    requires i < 64 && j < 64
    ensures Slot(i) <= Slot(j) <==> i <= j
    ensures Slot(i) == Slot(j) <==> i == j
  {
    hide *;
    var p, q := Slot(i), Slot(j);
    if p < q {
      PositionsOrdered(p, q);
    } else if q < p {
      PositionsOrdered(q, p);
    }
  }

  lemma SlotOf(p: Word)
    requires p < 64
    ensures Position(p) < 64 && Slot(Position(p)) == p
  {
    hide Slot, Position;
    LastPosition();
    PositionsOrdered(p, 64);
    var q := Slot(Position(p));
    if p < q {
      PositionsOrdered(p, q);
    } else if q < p {
      PositionsOrdered(q, p);
    }
  }

  predicate At(w: Word, p: Word)
    requires p < 64
  {
    (w >> p) & 1 == 1
  }

  /** The bit of w at position i. */
  predicate Bit(w: Word, i: nat)
    requires i < 64
  {
    At(w, Slot(i))
  }

  // ---------- Masks ----------

  function Single(p: Word): Word
    requires p < 64
  {
    (1 as Word) << p
  }

  function From(p: Word): Word
    requires p < 64
  {
    ALL_BITS << p
  }

  function After(p: Word): Word
    requires p < 64
  {
    (ALL_BITS - 1) << p
  }

  function UpTo(p: Word): Word
    requires p < 64
  {
    ALL_BITS >> (63 - p)
  }

  function OneBit(i: nat): Word
    requires i < 64
  {
    Single(Slot(i))
  }

  /** The word without the bits below s. */
  function IntervalUp(s: nat): Word
    requires s < 64
  {
    From(Slot(s))
  }

  /** The word without the bits above s. */
  function IntervalDown(s: nat): Word
    requires s < 64
  {
    UpTo(Slot(s))
  }

  /** The word with the bits from s to e. */
  function OneRange(s: nat, e: nat): Word
    requires s <= e < 64
  {
    From(Slot(s)) ^ After(Slot(e))
  }

  lemma OneBitIs(i: nat, k: nat)
    requires i < 64 && k < 64
    ensures Bit(OneBit(i), k) <==> k == i
  {
    hide At, Single, Slot;
    SlotsOrdered(k, i);
    SingleAt(Slot(i), Slot(k));
  }

  lemma IntervalUpIs(s: nat, k: nat)
    requires s < 64 && k < 64
    ensures Bit(IntervalUp(s), k) <==> s <= k
  {
    hide At, From, Slot;
    SlotsOrdered(s, k);
    FromAt(Slot(s), Slot(k));
  }

  lemma IntervalDownIs(s: nat, k: nat)
    requires s < 64 && k < 64
    ensures Bit(IntervalDown(s), k) <==> k <= s
  {
    hide At, UpTo, Slot;
    SlotsOrdered(k, s);
    UpToAt(Slot(s), Slot(k));
  }

  lemma OneRangeIs(s: nat, e: nat, k: nat)
    requires s <= e < 64 && k < 64
    ensures Bit(OneRange(s, e), k) <==> s <= k <= e
  {
    hide At, From, After, Slot, Position;
    SlotsOrdered(s, k);
    SlotsOrdered(k, e);
    RangeAt(Slot(s), Slot(e), Slot(k));
  }

  lemma RangeAt(s: Word, e: Word, p: Word)
    requires s < 64 && e < 64 && p < 64
    ensures At(From(s) ^ After(e), p) <==> (s <= p) != (e < p)
  {
    hide *;
    FromAt(s, p);
    AfterAt(e, p);
    XorAt(From(s), After(e), p);
  }

  lemma SingleAt(s: Word, p: Word)
    requires s < 64 && p < 64
    ensures At(Single(s), p) <==> s == p
  {
  }

  lemma FromAt(s: Word, p: Word)
    requires s < 64 && p < 64
    ensures At(From(s), p) <==> s <= p
  {
  }

  lemma AfterAt(e: Word, p: Word)
    requires e < 64 && p < 64
    ensures At(After(e), p) <==> e < p
  {
  }

  lemma UpToAt(s: Word, p: Word)
    requires s < 64 && p < 64
    ensures At(UpTo(s), p) <==> p <= s
  {
  }

  lemma XorAt(v: Word, w: Word, p: Word)
    requires p < 64
    ensures At(v ^ w, p) <==> At(v, p) != At(w, p)
  {
  }

  lemma AndBit(v: Word, w: Word, i: nat)
    requires i < 64
    ensures Bit(v & w, i) <==> Bit(v, i) && Bit(w, i)
  {
    hide Slot;
    AndAt(v, w, Slot(i));
  }

  lemma AndAt(v: Word, w: Word, p: Word)
    requires p < 64
    ensures At(v & w, p) <==> At(v, p) && At(w, p)
  {
  }

  lemma OrBit(v: Word, w: Word, i: nat)
    requires i < 64
    ensures Bit(v | w, i) <==> Bit(v, i) || Bit(w, i)
  {
    hide Slot;
    OrAt(v, w, Slot(i));
  }

  lemma OrAt(v: Word, w: Word, p: Word)
    requires p < 64
    ensures At(v | w, p) <==> At(v, p) || At(w, p)
  {
  }

  /** w with bit i set. */
  function SetBit(w: Word, i: nat): Word
    requires i < 64
  {
    w | OneBit(i)
  }

  /** w with bit i cleared. */
  function ClearBit(w: Word, i: nat): Word
    requires i < 64
  {
    w & !Single(Slot(i))
  }

  lemma SetBitIs(w: Word, i: nat, k: nat)
    requires i < 64 && k < 64
    ensures Bit(SetBit(w, i), k) <==> Bit(w, k) || k == i
  {
    hide Bit, OneBit;
    OrBit(w, OneBit(i), k);
    OneBitIs(i, k);
  }

  lemma ClearBitIs(w: Word, i: nat, k: nat)
    requires i < 64 && k < 64
    ensures Bit(ClearBit(w, i), k) <==> Bit(w, k) && k != i
  {
    hide At, Single, Slot, Position;
    SlotsOrdered(k, i);
    ClearAt(w, Slot(k), Slot(i));
  }

  // ---------- Lowest and highest set bit ----------

  /** The lowest set bit of n is at p. */
  predicate IsLowest(n: Word, p: Word)
    requires p < 64
  {
    n & (!n + 1) == Single(p)
  }

  /** The highest set bit of n is at p. */
  predicate IsHighest(n: Word, p: Word)
    requires p < 64
  {
    n >> p == 1
  }

  /** Binary search for the lowest set bit; 0 for the word 0. */
  function LeastSlot(n: Word): (p: Word)
    ensures p < 64
    ensures n != 0 ==> IsLowest(n, p)
  {
    if n == 0 then 0 else
      var a := if n & 0xFFFF_FFFF != 0 then n else n >> 32;
      var pa: Word := if n & 0xFFFF_FFFF != 0 then 31 else 63;
      var b := if a & 0xFFFF != 0 then a else a >> 16;
      var pb := if a & 0xFFFF != 0 then pa - 16 else pa;
      var c := if b & 0xFF != 0 then b else b >> 8;
      var pc := if b & 0xFF != 0 then pb - 8 else pb;
      var d := if c & 0xF != 0 then c else c >> 4;
      var pd := if c & 0xF != 0 then pc - 4 else pc;
      var e := if d & 0x3 != 0 then d else d >> 2;
      var pe := if d & 0x3 != 0 then pd - 2 else pd;
      if e & 0x1 != 0 then pe - 1 else pe
  }

  /** Binary search for the highest set bit; 0 for the word 0. */
  function MostSlot(n: Word): (p: Word)
    ensures p < 64
    ensures n != 0 ==> IsHighest(n, p)
  {
    var a := if n & (ALL_BITS << 32) != 0 then n >> 32 else n;
    var pa: Word := if n & (ALL_BITS << 32) != 0 then 32 else 0;
    var b := if a & (ALL_BITS << 16) != 0 then a >> 16 else a;
    var pb := if a & (ALL_BITS << 16) != 0 then pa | 16 else pa;
    var c := if b & (ALL_BITS << 8) != 0 then b >> 8 else b;
    var pc := if b & (ALL_BITS << 8) != 0 then pb | 8 else pb;
    var d := if c & (ALL_BITS << 4) != 0 then c >> 4 else c;
    var pd := if c & (ALL_BITS << 4) != 0 then pc | 4 else pc;
    var e := if d & (ALL_BITS << 2) != 0 then d >> 2 else d;
    var pe := if d & (ALL_BITS << 2) != 0 then pd | 2 else pd;
    if e & (ALL_BITS << 1) != 0 then pe | 1 else pe
  }

  lemma NoneBelowAt(n: Word, p: Word, q: Word)
    requires p < 64 && q < p && IsLowest(n, p)
    ensures !At(n, q)
  {
  }

  lemma NoneAboveAt(n: Word, p: Word, q: Word)
    requires q < 64 && p < q && IsHighest(n, p)
    ensures !At(n, q)
  {
  }

  lemma TopAt(n: Word, p: Word)
    requires p < 64 && IsHighest(n, p)
    ensures At(n, p)
  {
  }

  function LeastSignificantBitPosition(n: Word): nat {
    Position(LeastSlot(n))
  }

  function MostSignificantBitPosition(n: Word): nat {
    Position(MostSlot(n))
  }

  lemma LeastIs(n: Word)
    ensures LeastSignificantBitPosition(n) < 64
    ensures n != 0 ==>
        Bit(n, LeastSignificantBitPosition(n)) && forall k :: 0 <= k < LeastSignificantBitPosition(n) ==> !Bit(n, k)
  {
    hide At, LeastSlot, Position, Slot, IsLowest;
    var p := LeastSlot(n);
    SlotOf(p);
    if n != 0 {
      LowestAt(n, p);
      forall k | 0 <= k < Position(p) ensures !Bit(n, k) {
        SlotsOrdered(Position(p), k);
        NoneBelowAt(n, p, Slot(k));
      }
    }
  }

  lemma LowestAt(n: Word, p: Word)
    requires p < 64 && IsLowest(n, p)
    ensures At(n, p)
  {
  }

  lemma MostIs(n: Word)
    ensures MostSignificantBitPosition(n) < 64
    ensures n != 0 ==> Bit(n, MostSignificantBitPosition(n)) && forall k :: MostSignificantBitPosition(n) < k < 64 ==>
        !Bit(n, k)
  {
    hide At, MostSlot, Position, Slot, IsHighest;
    var p := MostSlot(n);
    SlotOf(p);
    if n != 0 {
      TopAt(n, p);
      forall k | Position(p) < k < 64 ensures !Bit(n, k) {
        SlotsOrdered(k, Position(p));
        NoneAboveAt(n, p, Slot(k));
      }
    }
  }

  /** A word is 0 exactly when no bit is set. */
  lemma IsZero(w: Word)
    ensures w == 0 <==> forall i :: 0 <= i < 64 ==> !Bit(w, i)
  {
    hide LeastSignificantBitPosition, Slot;
    LeastIs(w);
  }

  function WithoutLeast(w: Word): Word {
    w & (w - 1)
  }

  /** Subtracting 1 and masking removes the lowest set bit and no other. */
  lemma DropsLeast(w: Word, i: nat)
    requires w != 0 && i < 64
    ensures Bit(WithoutLeast(w), i) <==> Bit(w, i) && i != LeastSignificantBitPosition(w)
  {
    hide At, LeastSlot, IsLowest, Position, Slot, WithoutLeast;
    var p := LeastSlot(w);
    SlotOf(p);
    SlotsOrdered(i, Position(p));
    DropsLeastAt(w, Slot(i), p);
  }

  lemma DropsLeastAt(w: Word, q: Word, p: Word)
    requires p < 64 && q < 64 && IsLowest(w, p)
    ensures At(WithoutLeast(w), q) <==> At(w, q) && q != p
  {
    hide *;
    LessOneAt(w, p);
    ClearAt(w, q, p);
  }

  lemma LessOneAt(w: Word, p: Word)
    requires p < 64 && IsLowest(w, p)
    ensures WithoutLeast(w) == w & !Single(p)
  {
  }

  lemma ClearAt(w: Word, q: Word, p: Word)
    requires p < 64 && q < 64
    ensures At(w & !Single(p), q) <==> At(w, q) && q != p
  {
  }

  // ---------- Population count ----------

  /** The number of set bits below position k. */
  function Ones(w: Word, k: nat): (n: nat)
    requires k <= 64
    ensures n <= k
  {
    if k == 0 then 0 else Ones(w, k - 1) + if Bit(w, k - 1) then 1 else 0
  }

  function Pairs(n: Word): Word {
    n - ((n >> 1) & 0x5555_5555_5555_5555)
  }

  function Nibbles(n: Word): Word {
    (n & 0x3333_3333_3333_3333) + ((n >> 2) & 0x3333_3333_3333_3333)
  }

  function Bytes(n: Word): Word {
    (n + (n >> 4)) & 0x0F0F_0F0F_0F0F_0F0F
  }

  function Collect(n: Word): Word {
    (n * 0x0101_0101_0101_0101) >> 56
  }

  /** Counts bits in parallel: in pairs, in half bytes, in bytes, and over all bytes. */
  function BitCount(n: Word): Word {
    Collect(Bytes(Nibbles(Pairs(n))))
  }

  function Byte(x: Word, s: Word): Word
    requires s <= 56
  {
    (x >> s) & 0xFF
  }

  function Nth(n: Word, p: Word): Word
    requires p < 64
  {
    (n >> p) & 1
  }

  /** The number of set bits among the lowest four, the next four and the lowest eight. */
  function LowFour(n: Word): Word {
    Plus(Plus(Nth(n, 0), Nth(n, 1)), Plus(Nth(n, 2), Nth(n, 3)))
  }

  function HighFour(n: Word): Word {
    Plus(Plus(Nth(n, 4), Nth(n, 5)), Plus(Nth(n, 6), Nth(n, 7)))
  }

  function Eight(n: Word): Word {
    Plus(LowFour(n), HighFour(n))
  }

  lemma PairsNoBorrow(n: Word)
    ensures Pairs(n) == AddedPairs(n)
  {
  }

  function AddedPairs(n: Word): Word {
    (n & 0x5555_5555_5555_5555) + ((n >> 1) & 0x5555_5555_5555_5555)
  }

  lemma AddedPairsByte(n: Word)
    ensures Byte(AddedPairs(n), 0) == Byte(AddedPairs(Byte(n, 0)), 0)
    ensures Byte(AddedPairs(n), 8) == Byte(AddedPairs(Byte(n, 8)), 0)
    ensures Byte(AddedPairs(n), 16) == Byte(AddedPairs(Byte(n, 16)), 0)
    ensures Byte(AddedPairs(n), 24) == Byte(AddedPairs(Byte(n, 24)), 0)
    ensures Byte(AddedPairs(n), 32) == Byte(AddedPairs(Byte(n, 32)), 0)
    ensures Byte(AddedPairs(n), 40) == Byte(AddedPairs(Byte(n, 40)), 0)
    ensures Byte(AddedPairs(n), 48) == Byte(AddedPairs(Byte(n, 48)), 0)
    ensures Byte(AddedPairs(n), 56) == Byte(AddedPairs(Byte(n, 56)), 0)
  {
  }

  lemma PairsByte(n: Word)
    ensures Byte(Pairs(n), 0) == Byte(Pairs(Byte(n, 0)), 0)
    ensures Byte(Pairs(n), 8) == Byte(Pairs(Byte(n, 8)), 0)
    ensures Byte(Pairs(n), 16) == Byte(Pairs(Byte(n, 16)), 0)
    ensures Byte(Pairs(n), 24) == Byte(Pairs(Byte(n, 24)), 0)
    ensures Byte(Pairs(n), 32) == Byte(Pairs(Byte(n, 32)), 0)
    ensures Byte(Pairs(n), 40) == Byte(Pairs(Byte(n, 40)), 0)
    ensures Byte(Pairs(n), 48) == Byte(Pairs(Byte(n, 48)), 0)
    ensures Byte(Pairs(n), 56) == Byte(Pairs(Byte(n, 56)), 0)
  {
    hide Pairs, AddedPairs, Byte;
    PairsNoBorrow(n);
    PairsNoBorrow(Byte(n, 0));
    PairsNoBorrow(Byte(n, 8));
    PairsNoBorrow(Byte(n, 16));
    PairsNoBorrow(Byte(n, 24));
    PairsNoBorrow(Byte(n, 32));
    PairsNoBorrow(Byte(n, 40));
    PairsNoBorrow(Byte(n, 48));
    PairsNoBorrow(Byte(n, 56));
    AddedPairsByte(n);
  }

  lemma NibblesByte(n: Word)
    ensures Byte(Nibbles(n), 0) == Byte(Nibbles(Byte(n, 0)), 0)
    ensures Byte(Nibbles(n), 8) == Byte(Nibbles(Byte(n, 8)), 0)
    ensures Byte(Nibbles(n), 16) == Byte(Nibbles(Byte(n, 16)), 0)
    ensures Byte(Nibbles(n), 24) == Byte(Nibbles(Byte(n, 24)), 0)
    ensures Byte(Nibbles(n), 32) == Byte(Nibbles(Byte(n, 32)), 0)
    ensures Byte(Nibbles(n), 40) == Byte(Nibbles(Byte(n, 40)), 0)
    ensures Byte(Nibbles(n), 48) == Byte(Nibbles(Byte(n, 48)), 0)
    ensures Byte(Nibbles(n), 56) == Byte(Nibbles(Byte(n, 56)), 0)
  {
  }

  lemma NibblesSmall(n: Word)
    ensures Nibbles(Pairs(n)) & 0x8888_8888_8888_8888 == 0
  {
    PairsNoBorrow(n);
  }

  lemma BytesByte(n: Word)
    requires n & 0x8888_8888_8888_8888 == 0
    ensures Byte(Bytes(n), 0) == Byte(Bytes(Byte(n, 0)), 0)
    ensures Byte(Bytes(n), 8) == Byte(Bytes(Byte(n, 8)), 0)
    ensures Byte(Bytes(n), 16) == Byte(Bytes(Byte(n, 16)), 0)
    ensures Byte(Bytes(n), 24) == Byte(Bytes(Byte(n, 24)), 0)
    ensures Byte(Bytes(n), 32) == Byte(Bytes(Byte(n, 32)), 0)
    ensures Byte(Bytes(n), 40) == Byte(Bytes(Byte(n, 40)), 0)
    ensures Byte(Bytes(n), 48) == Byte(Bytes(Byte(n, 48)), 0)
    ensures Byte(Bytes(n), 56) == Byte(Bytes(Byte(n, 56)), 0)
  {
  }

  lemma OneByteCount(n: Word, s: Word)
    requires s <= 56
    ensures var b := Byte(n, s); Byte(Bytes(Byte(Nibbles(Byte(Pairs(b), 0)), 0)), 0) == Eight(b)
  {
    hide Bytes, Nibbles, Pairs, Byte, Eight;
    ByteRange(n, s);
    CountsByte(Byte(n, s));
  }

  lemma CountsByte(n: Word)
    requires n <= 0xFF
    ensures Byte(Bytes(Byte(Nibbles(Byte(Pairs(n), 0)), 0)), 0) == Eight(n)
  {
    hide *;
    CountsNibbles(n);
    AddsNibbles(Byte(Nibbles(Byte(Pairs(n), 0)), 0), LowFour(n), HighFour(n));
    SumsFour(n);
  }

  lemma CountsNibbles(n: Word)
    requires n <= 0xFF
    ensures LowFour(n) <= 4 && HighFour(n) <= 4
    ensures Byte(Nibbles(Byte(Pairs(n), 0)), 0) == LowFour(n) | (HighFour(n) << 4)
  {
    hide *;
    var x := Byte(Nibbles(Byte(Pairs(n), 0)), 0);
    CountsLow(n);
    CountsHigh(n);
    ByteRange(Nibbles(Byte(Pairs(n), 0)), 0);
    JoinNibbles(x);
  }

  lemma CountsLow(n: Word)
    requires n <= 0xFF
    ensures LowFour(n) <= 4 && Byte(Nibbles(Byte(Pairs(n), 0)), 0) & 0xF == LowFour(n)
  {
  }

  lemma CountsHigh(n: Word)
    requires n <= 0xFF
    ensures HighFour(n) <= 4 && Byte(Nibbles(Byte(Pairs(n), 0)), 0) >> 4 == HighFour(n)
  {
  }

  lemma JoinNibbles(x: Word)
    ensures x == (x & 0xF) | ((x >> 4) << 4)
  {
  }

  lemma SumsFour(n: Word)
    ensures Eight(n) == Plus(LowFour(n), HighFour(n))
  {
  }

  lemma AddsNibbles(x: Word, low: Word, high: Word)
    requires low <= 4 && high <= 4 && x == low | (high << 4)
    ensures Byte(Bytes(x), 0) == Plus(low, high)
  {
  }

  lemma ByteRange(x: Word, s: Word)
    requires s <= 56
    ensures Byte(x, s) <= 0xFF
  {
  }

  /** After three steps every byte holds the number of set bits of its byte. */
  lemma BytesCount(n: Word)
    ensures Byte(Bytes(Nibbles(Pairs(n))), 0) == Eight(Byte(n, 0))
    ensures Byte(Bytes(Nibbles(Pairs(n))), 8) == Eight(Byte(n, 8))
    ensures Byte(Bytes(Nibbles(Pairs(n))), 16) == Eight(Byte(n, 16))
    ensures Byte(Bytes(Nibbles(Pairs(n))), 24) == Eight(Byte(n, 24))
    ensures Byte(Bytes(Nibbles(Pairs(n))), 32) == Eight(Byte(n, 32))
    ensures Byte(Bytes(Nibbles(Pairs(n))), 40) == Eight(Byte(n, 40))
    ensures Byte(Bytes(Nibbles(Pairs(n))), 48) == Eight(Byte(n, 48))
    ensures Byte(Bytes(Nibbles(Pairs(n))), 56) == Eight(Byte(n, 56))
  {
    hide Bytes, Nibbles, Pairs, Byte, Eight;
    PairsByte(n);
    NibblesByte(Pairs(n));
    NibblesSmall(n);
    BytesByte(Nibbles(Pairs(n)));
    OneByteCount(n, 0);
    OneByteCount(n, 8);
    OneByteCount(n, 16);
    OneByteCount(n, 24);
    OneByteCount(n, 32);
    OneByteCount(n, 40);
    OneByteCount(n, 48);
    OneByteCount(n, 56);
  }

  // No byte of x reaches 16, 64 or 128.
  predicate Below16(x: Word) { x & 0xF0F0_F0F0_F0F0_F0F0 == 0 }
  predicate Below64(x: Word) { x & 0xC0C0_C0C0_C0C0_C0C0 == 0 }
  predicate Below128(x: Word) { x & 0x8080_8080_8080_8080 == 0 }

  predicate AddsByte(x: Word, y: Word) { y == x + (x << 8) }
  predicate AddsHalf(x: Word, y: Word) { y == x + (x << 16) }
  predicate AddsWord(x: Word, y: Word) { y == x + (x << 32) }

  lemma TimesByte(x: Word)
    ensures AddsByte(x, x * 0x0101)
  {
  }

  lemma TimesHalf(x: Word)
    ensures AddsHalf(x * 0x0101, x * 0x0101_0101)
  {
  }

  lemma TimesWord(x: Word)
    ensures AddsWord(x * 0x0101_0101, x * 0x0101_0101_0101_0101)
  {
  }

  lemma CollectTop(x: Word)
    ensures Collect(x) == Byte(x * 0x0101_0101_0101_0101, 56)
  {
    TopByte(x * 0x0101_0101_0101_0101);
    hide Byte;
  }

  lemma TopByte(x: Word)
    ensures Byte(x, 56) == x >> 56
  {
  }

  /** The multiplication adds the eight bytes up in the highest one. */
  lemma CollectAdds(x: Word)
    requires Below16(x)
    ensures Collect(x) == Plus(Plus(Plus(Byte(x, 56), Byte(x, 48)), Plus(Byte(x, 40), Byte(x, 32))),
                               Plus(Plus(Byte(x, 24), Byte(x, 16)), Plus(Byte(x, 8), Byte(x, 0))))
  {
    hide *;
    CollectTop(x);
    TimesByte(x);
    TimesHalf(x);
    TimesWord(x);
    AddBytes(x, x * 0x0101);
    AddHalves(x * 0x0101, x * 0x0101_0101);
    AddWords(x * 0x0101_0101, x * 0x0101_0101_0101_0101);
  }

  lemma AddBytes(x: Word, y: Word)
    requires Below16(x) && AddsByte(x, y)
    ensures Byte(y, 56) == Plus(Byte(x, 56), Byte(x, 48))
    ensures Byte(y, 40) == Plus(Byte(x, 40), Byte(x, 32))
    ensures Byte(y, 24) == Plus(Byte(x, 24), Byte(x, 16))
    ensures Byte(y, 8) == Plus(Byte(x, 8), Byte(x, 0))
    ensures Below64(y)
  {
  }

  lemma AddHalves(x: Word, y: Word)
    requires Below64(x) && AddsHalf(x, y)
    ensures Byte(y, 56) == Plus(Byte(x, 56), Byte(x, 40))
    ensures Byte(y, 24) == Plus(Byte(x, 24), Byte(x, 8))
    ensures Below128(y)
  {
  }

  lemma AddWords(x: Word, y: Word)
    requires Below128(x) && AddsWord(x, y)
    ensures Byte(y, 56) == Plus(Byte(x, 56), Byte(x, 24))
  {
  }

  // ---------- The parallel count is the number of set bits ----------

  lemma NthIs(n: Word, p: Word)
    requires p < 64
    ensures Nth(n, p) <= 1 && Position(Nth(n, p)) == if At(n, p) then 1 else 0
  {
    assert Nth(n, p) == if At(n, p) then 1 else 0;
    PositionStep(1);
  }

  lemma NthOfByte(n: Word, s: Word, i: Word)
    requires s <= 56 && i < 8
    ensures Plus(s, i) < 64 && Nth(Byte(n, s), i) == Nth(n, Plus(s, i))
  {
  }

  /** 1 for a set bit, 0 for another. */
  function Counted(n: Word, i: nat): nat
    requires i < 64
  {
    if Bit(n, i) then 1 else 0
  }

  lemma SlotPlus(s: nat, i: nat, w: Word)
    requires s + i < 64 && w < 64 && Position(w) == i
    ensures Plus(Slot(s), w) < 64 && Slot(s + i) == Plus(Slot(s), w)
  {
    hide *;
    var p := Plus(Slot(s), w);
    PositionsAdd(Slot(s), w);
    PlusSmall(Slot(s), w);
    LastPosition();
    if 64 < p {
      PositionsOrdered(64, p);
    }
    SlotOf(p);
  }

  lemma PlusSmall(p: Word, q: Word)
    requires p < 64 && q < 64
    ensures Plus(p, q) <= 128
  {
  }

  lemma EightPositions()
    ensures Position(0) == 0 && Position(1) == 1 && Position(2) == 2 && Position(3) == 3
    ensures Position(4) == 4 && Position(5) == 5 && Position(6) == 6 && Position(7) == 7
  {
    assert Position(0) == 0;
    hide Position;
    PositionStep(1);
    PositionStep(2);
    PositionStep(3);
    PositionStep(4);
    PositionStep(5);
    PositionStep(6);
    PositionStep(7);
  }

  function Bound(level: nat): Word {
    if level == 0 then 1 else if level == 1 then 2 else if level == 2 then 4 else
    if level == 3 then 8 else if level == 4 then 16 else if level == 5 then 32 else 64
  }

  /** p stands for k, and is no more than 2 to the level. */
  predicate Counts(p: Word, level: nat, k: int) {
    p <= Bound(level) && Position(p) == k
  }

  lemma NthCounted(n: Word, s: nat, i: nat, w: Word)
    requires s <= 56 && i < 8 && w < 8 && Slot(s) <= 56 && Position(w) == i
    ensures Counts(Nth(Byte(n, Slot(s)), w), 0, Counted(n, s + i))
  {
    hide At, Slot, Position, Nth, Byte, Plus;
    SlotPlus(s, i, w);
    NthOfByte(n, Slot(s), w);
    NthIs(n, Slot(s + i));
  }

  lemma SumCounted(p: Word, q: Word, level: nat, j: int, k: int)
    requires level < 6 && Counts(p, level, j) && Counts(q, level, k)
    ensures Counts(Plus(p, q), level + 1, j + k)
  {
    PositionsAdd(p, q);
    hide Position;
  }

  lemma LowCounted(n: Word, s: nat)
    requires s <= 56 && Slot(s) <= 56
    ensures Counts(LowFour(Byte(n, Slot(s))), 2,
                   Counted(n, s) + Counted(n, s + 1) + (Counted(n, s + 2) + Counted(n, s + 3)))
  {
    hide *;
    EightPositions();
    var b := Byte(n, Slot(s));
    NthCounted(n, s, 0, 0);
    NthCounted(n, s, 1, 1);
    NthCounted(n, s, 2, 2);
    NthCounted(n, s, 3, 3);
    SumCounted(Nth(b, 0), Nth(b, 1), 0, Counted(n, s), Counted(n, s + 1));
    SumCounted(Nth(b, 2), Nth(b, 3), 0, Counted(n, s + 2), Counted(n, s + 3));
    SumCounted(Plus(Nth(b, 0), Nth(b, 1)), Plus(Nth(b, 2), Nth(b, 3)), 1,
               Counted(n, s) + Counted(n, s + 1), Counted(n, s + 2) + Counted(n, s + 3));
    SumsEight(b);
  }

  lemma HighCounted(n: Word, s: nat)
    requires s <= 56 && Slot(s) <= 56
    ensures Counts(HighFour(Byte(n, Slot(s))), 2,
                   Counted(n, s + 4) + Counted(n, s + 5) + (Counted(n, s + 6) + Counted(n, s + 7)))
  {
    hide *;
    EightPositions();
    var b := Byte(n, Slot(s));
    NthCounted(n, s, 4, 4);
    NthCounted(n, s, 5, 5);
    NthCounted(n, s, 6, 6);
    NthCounted(n, s, 7, 7);
    SumCounted(Nth(b, 4), Nth(b, 5), 0, Counted(n, s + 4), Counted(n, s + 5));
    SumCounted(Nth(b, 6), Nth(b, 7), 0, Counted(n, s + 6), Counted(n, s + 7));
    SumCounted(Plus(Nth(b, 4), Nth(b, 5)), Plus(Nth(b, 6), Nth(b, 7)), 1,
               Counted(n, s + 4) + Counted(n, s + 5), Counted(n, s + 6) + Counted(n, s + 7));
    SumsEight(b);
  }

  /** The bits of one byte. */
  lemma EightCounted(n: Word, s: nat, w: Word)
    requires s <= 56 && Slot(s) == w <= 56
    ensures Counts(Eight(Byte(n, w)), 3, Ones(n, s + 8) - Ones(n, s))
  {
    hide *;
    var b := Byte(n, w);
    LowCounted(n, s);
    HighCounted(n, s);
    SumCounted(LowFour(b), HighFour(b), 2,
               Counted(n, s) + Counted(n, s + 1) + (Counted(n, s + 2) + Counted(n, s + 3)),
               Counted(n, s + 4) + Counted(n, s + 5) + (Counted(n, s + 6) + Counted(n, s + 7)));
    SumsEight(b);
    OnesEight(n, s);
  }

  lemma SumsEight(b: Word)
    ensures LowFour(b) == Plus(Plus(Nth(b, 0), Nth(b, 1)), Plus(Nth(b, 2), Nth(b, 3)))
    ensures HighFour(b) == Plus(Plus(Nth(b, 4), Nth(b, 5)), Plus(Nth(b, 6), Nth(b, 7)))
    ensures Eight(b) == Plus(LowFour(b), HighFour(b))
  {
    hide Nth, Plus;
  }

  lemma OnesStep(n: Word, i: nat)
    requires i < 64
    ensures Ones(n, i + 1) == Ones(n, i) + Counted(n, i)
  {
    hide At, Slot;
  }

  lemma OnesEight(n: Word, s: nat)
    requires s <= 56
    ensures Ones(n, s + 8) == Ones(n, s) + Counted(n, s) + Counted(n, s + 1) + Counted(n, s + 2) + Counted(n, s + 3) +
                              Counted(n, s + 4) + Counted(n, s + 5) + Counted(n, s + 6) + Counted(n, s + 7)
  {
    hide *;
    OnesStep(n, s);
    OnesStep(n, s + 1);
    OnesStep(n, s + 2);
    OnesStep(n, s + 3);
    OnesStep(n, s + 4);
    OnesStep(n, s + 5);
    OnesStep(n, s + 6);
    OnesStep(n, s + 7);
  }

  /** Two bytes of the parallel count. */
  lemma TwoBytes(n: Word, s: nat, v: Word, w: Word)
    requires s <= 48 && Slot(s) == v <= 56 && Slot(s + 8) == w <= 56
    requires Byte(Bytes(Nibbles(Pairs(n))), v) == Eight(Byte(n, v))
    requires Byte(Bytes(Nibbles(Pairs(n))), w) == Eight(Byte(n, w))
    ensures Counts(Plus(Byte(Bytes(Nibbles(Pairs(n))), w), Byte(Bytes(Nibbles(Pairs(n))), v)), 4,
                   Ones(n, s + 16) - Ones(n, s))
  {
    hide *;
    EightCounted(n, s, v);
    EightCounted(n, s + 8, w);
    SumCounted(Eight(Byte(n, w)), Eight(Byte(n, v)), 3, Ones(n, s + 16) - Ones(n, s + 8), Ones(n, s + 8) - Ones(n, s));
  }

  /** Counting in parallel gives the number of set bits. */
  lemma BitCountIs(n: Word)
    ensures Position(BitCount(n)) == Ones(n, 64)
  {
    hide *;
    var x := Bytes(Nibbles(Pairs(n)));
    BitCountBytes(n);
    BytesCount(n);
    ByteSlots();
    TwoBytes(n, 0, 0, 8);
    TwoBytes(n, 16, 16, 24);
    TwoBytes(n, 32, 32, 40);
    TwoBytes(n, 48, 48, 56);
    SumCounted(Plus(Byte(x, 56), Byte(x, 48)), Plus(Byte(x, 40), Byte(x, 32)), 4,
               Ones(n, 64) - Ones(n, 48), Ones(n, 48) - Ones(n, 32));
    SumCounted(Plus(Byte(x, 24), Byte(x, 16)), Plus(Byte(x, 8), Byte(x, 0)), 4,
               Ones(n, 32) - Ones(n, 16), Ones(n, 16) - Ones(n, 0));
    SumCounted(Plus(Plus(Byte(x, 56), Byte(x, 48)), Plus(Byte(x, 40), Byte(x, 32))),
               Plus(Plus(Byte(x, 24), Byte(x, 16)), Plus(Byte(x, 8), Byte(x, 0))), 5,
               Ones(n, 64) - Ones(n, 32), Ones(n, 32) - Ones(n, 0));
    NoOnes(n);
    CountedIs(BitCount(n), 6, Ones(n, 64));
  }

  lemma CountedIs(p: Word, level: nat, k: int)
    requires Counts(p, level, k)
    ensures Position(p) == k
  {
    hide Position;
  }

  lemma NoOnes(n: Word)
    ensures Ones(n, 0) == 0
  {
  }

  lemma ByteSlots()
    ensures Slot(0) == 0 && Slot(8) == 8 && Slot(16) == 16 && Slot(24) == 24
    ensures Slot(32) == 32 && Slot(40) == 40 && Slot(48) == 48 && Slot(56) == 56
  {
    hide *;
    EightPositions();
    EightSteps(0);
    EightSteps(8);
    EightSteps(16);
    EightSteps(24);
    EightSteps(32);
    EightSteps(40);
    EightSteps(48);
    SlotOf(0);
    SlotOf(8);
    SlotOf(16);
    SlotOf(24);
    SlotOf(32);
    SlotOf(40);
    SlotOf(48);
    SlotOf(56);
  }

  lemma BitCountBytes(n: Word)
    ensures var x := Bytes(Nibbles(Pairs(n)));
            BitCount(n) == Plus(Plus(Plus(Byte(x, 56), Byte(x, 48)), Plus(Byte(x, 40), Byte(x, 32))),
                                Plus(Plus(Byte(x, 24), Byte(x, 16)), Plus(Byte(x, 8), Byte(x, 0))))
  {
    hide Bytes, Nibbles, Pairs, Byte, Plus, Collect, Below16;
    BytesBelow16(Nibbles(Pairs(n)));
    CollectAdds(Bytes(Nibbles(Pairs(n))));
  }

  lemma BytesBelow16(n: Word)
    ensures Below16(Bytes(n))
  {
  }
}
