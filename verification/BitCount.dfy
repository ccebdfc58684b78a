/** The 32-bit population count `ge` by which the hash trie turns a bitmap and a slot number into
    a position in a bitmap node's child list, and the bit operations around it. */
module BitCount {

  /** JavaScript's `>>` on a 32-bit integer: the sign bit is copied into the vacated places. */
  function Sar1(t: bv32): bv32 { (t >> 1) | (t & 0x8000_0000) }

  function Sar2(t: bv32): bv32 { Sar1(Sar1(t)) }

  function Sar4(t: bv32): bv32 { Sar2(Sar2(t)) }

  function Sar8(t: bv32): bv32 { Sar4(Sar4(t)) }

  function Sar16(t: bv32): bv32 { Sar8(Sar8(t)) }

  // `ge`, stage by stage. After the first three stages each byte holds the number of its own bits.

  function Pairs(t: bv32): bv32 { t - (Sar1(t) & 0x5555_5555) }

  function Nibbles(t: bv32): bv32 { (t & 0x3333_3333) + (Sar2(t) & 0x3333_3333) }

  function Bytes(t: bv32): bv32 { (t + Sar4(t)) & 0x0f0f_0f0f }

  function Sum(a: bv32, b: bv32): bv32 { a + b }

  function Sum127(a: bv32, b: bv32): bv32 { 127 & (a + b) }

  function SumBytes(t: bv32): bv32 {
    var u := Sum(t, Sar8(t));
    Sum127(u, Sar16(u))
  }

  function Ge(t: bv32): bv32 { SumBytes(Bytes(Nibbles(Pairs(t)))) }

  // The true count.

  function Half(t: bv32): bv32 { t >> 1 }

  predicate Odd(t: bv32) { t & 1 == 1 }

  /** Whether bit `i` is set, for any `i`. */
  predicate Bit(t: bv32, i: nat) {
    if i == 0 then Odd(t) else Bit(Half(t), i - 1)
  }

  /** How many of the bits `0 .. n` are set. */
  function Count(t: bv32, n: nat): nat {
    if n == 0 then 0 else Count(t, n - 1) + (if Bit(t, n - 1) then 1 else 0)
  }

  // Each stage adds fields that cannot overflow into their neighbours.

  function PairSums(t: bv32): bv32 { (t & 0x5555_5555) + ((t >> 1) & 0x5555_5555) }

  function NibbleSums(t: bv32): bv32 { (t & 0x3333_3333) + ((t >> 2) & 0x3333_3333) }

  function ByteSums(t: bv32): bv32 { (t & 0x0f0f_0f0f) + ((t >> 4) & 0x0f0f_0f0f) }

  function ByteCounts(t: bv32): bv32 { ByteSums(NibbleSums(PairSums(t))) }

  function Low(t: bv32): bv32 { t & 255 }

  function High(t: bv32): bv32 { t >> 8 }

  lemma PairsIsSum(t: bv32)
    ensures Pairs(t) == PairSums(t)
  {
  }

  lemma NibblesIsSum(t: bv32)
    ensures Nibbles(t) == NibbleSums(t)
  {
  }

  lemma NibblesSmall(t: bv32)
    ensures NibbleSums(t) & 0x8888_8888 == 0
  {
  }

  lemma BytesIsSum(t: bv32)
    requires t & 0x8888_8888 == 0
    ensures Bytes(t) == ByteSums(t)
  {
  }

  lemma GeIsSumOfByteCounts(t: bv32)
    ensures Ge(t) == SumBytes(ByteCounts(t))
  {
    hide Bytes, Nibbles, Pairs, ByteSums, NibbleSums, PairSums, SumBytes;
    PairsIsSum(t);
    NibblesIsSum(PairSums(t));
    NibblesSmall(PairSums(t));
    BytesIsSum(NibbleSums(PairSums(t)));
  }

  lemma AddSplits(a: bv32, b: bv32)
    requires a & 0x8080_8080 == 0 && b & 0x8080_8080 == 0
    ensures (a + b) >> 8 == (a >> 8) + (b >> 8)
    ensures (a + b) & 255 == (a & 255) + (b & 255)
  {
  }

  // Hence a stage works on each byte by itself.

  lemma PairSumsHigh(t: bv32)
    ensures PairSums(t) >> 8 == PairSums(t >> 8)
  {
    AddSplits(t & 0x5555_5555, (t >> 1) & 0x5555_5555);
    assert (t & 0x5555_5555) >> 8 == (t >> 8) & 0x5555_5555;
    assert ((t >> 1) & 0x5555_5555) >> 8 == ((t >> 8) >> 1) & 0x5555_5555;
  }

  lemma PairSumsLow(t: bv32)
    ensures PairSums(t) & 255 == PairSums(t & 255)
  {
    AddSplits(t & 0x5555_5555, (t >> 1) & 0x5555_5555);
  }

  lemma PairSumsSplit(t: bv32)
    ensures High(PairSums(t)) == PairSums(High(t))
    ensures Low(PairSums(t)) == PairSums(Low(t))
  {
    hide PairSums;
    PairSumsHigh(t);
    PairSumsLow(t);
  }

  lemma NibbleSumsHigh(t: bv32)
    ensures NibbleSums(t) >> 8 == NibbleSums(t >> 8)
  {
    AddSplits(t & 0x3333_3333, (t >> 2) & 0x3333_3333);
    assert (t & 0x3333_3333) >> 8 == (t >> 8) & 0x3333_3333;
    assert ((t >> 2) & 0x3333_3333) >> 8 == ((t >> 8) >> 2) & 0x3333_3333;
  }

  lemma NibbleSumsLow(t: bv32)
    ensures NibbleSums(t) & 255 == NibbleSums(t & 255)
  {
    AddSplits(t & 0x3333_3333, (t >> 2) & 0x3333_3333);
  }

  lemma NibbleSumsSplit(t: bv32)
    ensures High(NibbleSums(t)) == NibbleSums(High(t))
    ensures Low(NibbleSums(t)) == NibbleSums(Low(t))
  {
    hide NibbleSums;
    NibbleSumsHigh(t);
    NibbleSumsLow(t);
  }

  lemma ByteSumsHigh(t: bv32)
    ensures ByteSums(t) >> 8 == ByteSums(t >> 8)
  {
    AddSplits(t & 0x0f0f_0f0f, (t >> 4) & 0x0f0f_0f0f);
    assert (t & 0x0f0f_0f0f) >> 8 == (t >> 8) & 0x0f0f_0f0f;
    assert ((t >> 4) & 0x0f0f_0f0f) >> 8 == ((t >> 8) >> 4) & 0x0f0f_0f0f;
  }

  lemma ByteSumsLow(t: bv32)
    ensures ByteSums(t) & 255 == ByteSums(t & 255)
  {
    AddSplits(t & 0x0f0f_0f0f, (t >> 4) & 0x0f0f_0f0f);
  }

  lemma ByteSumsSplit(t: bv32)
    ensures High(ByteSums(t)) == ByteSums(High(t))
    ensures Low(ByteSums(t)) == ByteSums(Low(t))
  {
    hide ByteSums;
    ByteSumsHigh(t);
    ByteSumsLow(t);
  }

  lemma ByteCountsSplit(t: bv32)
    ensures High(ByteCounts(t)) == ByteCounts(High(t))
    ensures Low(ByteCounts(t)) == ByteCounts(Low(t))
  {
    hide ByteSums, NibbleSums, PairSums, High, Low;
    PairSumsSplit(t);
    NibbleSumsSplit(PairSums(t));
    ByteSumsSplit(NibbleSums(PairSums(t)));
  }

  lemma SarIsShift(t: bv32)
    requires t & 0x8000_0000 == 0
    ensures Sar8(t) == t >> 8 && Sar16(t) == t >> 16
  {
  }

  lemma NoCarryIntoSign(t: bv32)
    requires t & 0xf0f0_f0f0 == 0
    ensures t & 0x8000_0000 == 0 && Sum(t, t >> 8) & 0x8000_0000 == 0
  {
  }

  lemma SumBytesIsSum(t: bv32)
    requires t & 0xf0f0_f0f0 == 0
    ensures SumBytes(t) == Sum127(Sum(t, t >> 8), Sum(t, t >> 8) >> 16)
  {
    hide Sar8, Sar16, Sum, Sum127;
    NoCarryIntoSign(t);
    SarIsShift(t);
    SarIsShift(Sum(t, t >> 8));
  }

  lemma Halves(t: bv32, u: bv32)
    requires t & 0xf0f0_f0f0 == 0 && u == t + (t >> 8)
    ensures u & 255 == (t & 255) + ((t >> 8) & 255)
    ensures (u >> 16) & 255 == ((t >> 16) & 255) + (t >> 24)
  {
    AddSplits(t, t >> 8);
    AddSplits(t >> 8, t >> 16);
    AddSplits(t >> 16, t >> 24);
  }

  lemma Sum127OfLows(a: bv32, b: bv32)
    requires a & 255 <= 16 && b & 255 <= 16
    ensures Sum127(a, b) == (a & 255) + (b & 255)
    ensures Sum127(a, b) <= 32
  {
  }

  /** Adding a few small counts is the same in 32-bit and in unbounded arithmetic. */
  lemma AddSmall(x: bv32, y: bv32)
    requires x <= 16 && y <= 16
    ensures (x + y) as nat == x as nat + y as nat
  {
  }

  lemma AddBit(x: bv32, y: bv32)
    requires x <= 8 && y <= 1
    ensures (x + y) as nat == x as nat + (if y == 1 then 1 else 0)
  {
  }

  // From bits to counts.

  function Shr(t: bv32, k: nat): bv32 {
    if k == 0 then t else Shr(Half(t), k - 1)
  }

  lemma {:induction false} BitShr(t: bv32, k: nat, i: nat)
    ensures Bit(t, k + i) == Bit(Shr(t, k), i)
    decreases k
  {
    hide Half, Odd;
    if k > 0 {
      BitShr(Half(t), k - 1, i);
    }
  }

  lemma {:induction false} CountShr(t: bv32, k: nat, n: nat)
    ensures Count(t, k + n) == Count(t, k) + Count(Shr(t, k), n)
  {
    hide Half, Odd;
    if n > 0 {
      CountShr(t, k, n - 1);
      BitShr(t, k, n - 1);
    }
  }

  lemma {:induction false} CountSame(a: bv32, b: bv32, n: nat)
    requires forall i :: 0 <= i < n ==> Bit(a, i) == Bit(b, i)
    ensures Count(a, n) == Count(b, n)
  {
    hide Half, Odd;
    if n > 0 {
      CountSame(a, b, n - 1);
    }
  }

  lemma HalvesOfByte(t: bv32)
    ensures Half(t) == t >> 1 && Half(t >> 1) == t >> 2 && Half(t >> 2) == t >> 3 && Half(t >> 3) == t >> 4
    ensures Half(t >> 4) == t >> 5 && Half(t >> 5) == t >> 6 && Half(t >> 6) == t >> 7 && Half(t >> 7) == t >> 8
  {
  }

  lemma ShrByte(t: bv32)
    ensures Shr(t, 8) == High(t)
  {
    hide Half;
    HalvesOfByte(t);
    assert Shr(t, 8) == Shr(t >> 1, 7) == Shr(t >> 2, 6) == Shr(t >> 3, 5) == Shr(t >> 4, 4);
    assert Shr(t >> 4, 4) == Shr(t >> 5, 3) == Shr(t >> 6, 2) == Shr(t >> 7, 1) == t >> 8;
  }

  lemma CountFirst(t: bv32, n: nat)
    ensures Count(t, n + 1) == (if Odd(t) then 1 else 0) + Count(Half(t), n)
  {
    hide Half, Odd;
    CountShr(t, 1, n);
    assert Shr(t, 1) == Half(t);
    assert Count(t, 1) == if Odd(t) then 1 else 0;
  }

  lemma ByteCountsStep(t: bv32)
    requires t <= 255
    ensures ByteCounts(t) == ByteCounts(Half(t)) + (t & 1)
    ensures Half(t) <= 255 && ByteCounts(Half(t)) <= 8
    ensures ByteCounts(0) == 0
  {
  }

  lemma ByteCountsSmall(t: bv32)
    requires t <= 255
    ensures ByteCounts(t) <= 8
  {
  }

  lemma {:induction false} ByteCountsIsCount(t: bv32, n: nat)
    requires t <= 255 && Shr(t, n) == 0
    ensures ByteCounts(t) as nat == Count(t, n)
    decreases n
  {
    hide Half, ByteCounts;
    ByteCountsStep(t);
    if n > 0 {
      CountFirst(t, n - 1);
      ByteCountsIsCount(Half(t), n - 1);
      AddBit(ByteCounts(Half(t)), t & 1);
    }
  }

  // Single bits and masks.

  function Double(t: bv32): bv32 { t << 1 }

  function Minus1(t: bv32): bv32 { t - 1 }

  /** `1 << i` */
  function ShiftOne(i: nat): bv32 {
    if i == 0 then 1 else Double(ShiftOne(i - 1))
  }

  predicate TopClear(t: bv32) { t & 0x8000_0000 == 0 }

  /** The top `n` bits are clear. */
  predicate Room(t: bv32, n: nat)
    decreases n
  {
    n == 0 || (TopClear(t) && Room(Double(t), n - 1))
  }

  lemma RoomOfByte(t: bv32, n: nat)
    requires t <= 0x007f_ffff && Room(t << 8, n)
    ensures Room(t, n + 8)
  {
    DoublesOfByte(t);
    hide Double, TopClear;
    assert Room(t << 7, n + 1) && Room(t << 6, n + 2) && Room(t << 5, n + 3) && Room(t << 4, n + 4);
    assert Room(t << 3, n + 5) && Room(t << 2, n + 6) && Room(t << 1, n + 7);
  }

  lemma DoublesOfByte(t: bv32)
    requires t <= 0x007f_ffff
    ensures Double(t) == t << 1 && Double(t << 1) == t << 2 && Double(t << 2) == t << 3
    ensures Double(t << 3) == t << 4 && Double(t << 4) == t << 5 && Double(t << 5) == t << 6
    ensures Double(t << 6) == t << 7 && Double(t << 7) == t << 8
    ensures TopClear(t) && TopClear(t << 1) && TopClear(t << 2) && TopClear(t << 3)
    ensures TopClear(t << 4) && TopClear(t << 5) && TopClear(t << 6) && TopClear(t << 7)
  {
  }

  lemma RoomOfOne()
    ensures Room(1, 31)
  {
    assert Room(0x2000_0000, 2);
    assert Room(0x0800_0000, 4);
    assert Room(0x0200_0000, 6);
    assert Room(0x0100_0000, 7);
    RoomOfByte(0x1_0000, 7);
    RoomOfByte(0x100, 15);
    RoomOfByte(1, 23);
  }

  lemma {:induction false} ShiftOneRoom(i: nat)
    requires i <= 31
    ensures Room(ShiftOne(i), 31 - i)
  {
    hide Double, TopClear;
    if i == 0 {
      RoomOfOne();
    } else {
      ShiftOneRoom(i - 1);
    }
  }

  lemma DoubleFacts(t: bv32)
    requires TopClear(t)
    ensures Half(Double(t)) == t && !Odd(Double(t))
    ensures t != 0 ==> Double(t) != 0 && Half(Minus1(Double(t))) == Minus1(t) && Odd(Minus1(Double(t)))
  {
  }

  lemma {:induction false} BitOfZero(j: nat)
    ensures !Bit(0, j)
  {
    if j > 0 {
      assert Half(0) == 0;
      BitOfZero(j - 1);
    }
  }

  lemma {:induction false} BitOfShiftOne(i: nat, j: nat)
    requires i < 32
    ensures Bit(ShiftOne(i), j) == (i == j)
    ensures ShiftOne(i) != 0
  {
    if i == 0 {
      if j > 0 {
        assert Half(1) == 0;
        BitOfZero(j - 1);
      }
    } else {
      hide Half, Double, Odd, TopClear, Minus1;
      ShiftOneRoom(i - 1);
      DoubleFacts(ShiftOne(i - 1));
      BitOfShiftOne(i - 1, if j > 0 then j - 1 else 0);
    }
  }

  lemma {:induction false} BitOfMask(i: nat, j: nat)
    requires i < 32
    ensures Bit(Minus1(ShiftOne(i)), j) == (j < i)
  {
    if i == 0 {
      BitOfZero(j);
    } else {
      hide Half, Double, Odd, TopClear, Minus1;
      ShiftOneRoom(i - 1);
      BitOfShiftOne(i - 1, 0);
      DoubleFacts(ShiftOne(i - 1));
      BitOfMask(i - 1, if j > 0 then j - 1 else 0);
    }
  }

  function And(a: bv32, b: bv32): bv32 { a & b }

  function Or(a: bv32, b: bv32): bv32 { a | b }

  function Xor(a: bv32, b: bv32): bv32 { a ^ b }

  lemma AndStep(a: bv32, b: bv32)
    ensures Odd(And(a, b)) == (Odd(a) && Odd(b)) && Half(And(a, b)) == And(Half(a), Half(b))
  {
  }

  lemma OrStep(a: bv32, b: bv32)
    ensures Odd(Or(a, b)) == (Odd(a) || Odd(b)) && Half(Or(a, b)) == Or(Half(a), Half(b))
  {
  }

  lemma XorStep(a: bv32, b: bv32)
    ensures Odd(Xor(a, b)) == (Odd(a) != Odd(b)) && Half(Xor(a, b)) == Xor(Half(a), Half(b))
  {
  }

  lemma {:induction false} BitOfBitwise(a: bv32, b: bv32, i: nat)
    ensures Bit(And(a, b), i) == (Bit(a, i) && Bit(b, i))
    ensures Bit(Or(a, b), i) == (Bit(a, i) || Bit(b, i))
    ensures Bit(Xor(a, b), i) == (Bit(a, i) != Bit(b, i))
    decreases i
  {
    hide And, Or, Xor, Half, Odd;
    AndStep(a, b);
    OrStep(a, b);
    XorStep(a, b);
    if i > 0 {
      BitOfBitwise(Half(a), Half(b), i - 1);
    }
  }

  // Main results.

  lemma LowIsMask(t: bv32)
    ensures Low(t) == And(t, Minus1(ShiftOne(8)))
  {
    assert ShiftOne(2) == 4;
    assert ShiftOne(4) == 16;
    assert ShiftOne(6) == 64;
    assert ShiftOne(8) == 256;
  }

  lemma LowIsByte(t: bv32)
    ensures Low(t) <= 255 && Shr(Low(t), 8) == 0
  {
    ShrByte(Low(t));
  }

  lemma LowCount(t: bv32)
    ensures ByteCounts(Low(t)) as nat == Count(t, 8) && ByteCounts(Low(t)) <= 8
  {
    hide Half, Odd, And, Minus1, ShiftOne, Low, High, ByteCounts;
    forall i | 0 <= i < 8
      ensures Bit(Low(t), i) == Bit(t, i)
    {
      LowIsMask(t);
      BitOfMask(8, i);
      BitOfBitwise(t, Minus1(ShiftOne(8)), i);
    }
    CountSame(t, Low(t), 8);
    LowIsByte(t);
    ByteCountsSmall(Low(t));
    ByteCountsIsCount(Low(t), 8);
  }

  lemma CountInBytes(t: bv32)
    ensures Count(t, 32) == Count(t, 8) + Count(High(t), 8) + Count(High(High(t)), 8) + Count(High(High(High(t))), 8)
  {
    hide High, Shr, Count, Bit;
    CountShr(t, 8, 24);
    ShrByte(t);
    CountShr(High(t), 8, 16);
    ShrByte(High(t));
    CountShr(High(High(t)), 8, 8);
    ShrByte(High(High(t)));
  }

  lemma ByteCountsInBytes(t: bv32)
    ensures Low(ByteCounts(t)) == ByteCounts(Low(t))
    ensures Low(High(ByteCounts(t))) == ByteCounts(Low(High(t)))
    ensures Low(High(High(ByteCounts(t)))) == ByteCounts(Low(High(High(t))))
    ensures Low(High(High(High(ByteCounts(t))))) == ByteCounts(Low(High(High(High(t)))))
  {
    hide High, Low, ByteCounts;
    ByteCountsSplit(t);
    ByteCountsSplit(High(t));
    ByteCountsSplit(High(High(t)));
    ByteCountsSplit(High(High(High(t))));
  }

  /** The bytes of a word, from the lowest. */
  function Byte0(t: bv32): bv32 { t & 255 }

  function Byte1(t: bv32): bv32 { (t >> 8) & 255 }

  function Byte2(t: bv32): bv32 { (t >> 16) & 255 }

  function Byte3(t: bv32): bv32 { t >> 24 }

  lemma BytesOf(t: bv32)
    ensures Byte0(t) == Low(t) && Byte1(t) == Low(High(t))
    ensures Byte2(t) == Low(High(High(t))) && Byte3(t) == Low(High(High(High(t))))
  {
  }

  lemma SmallBytes(t: bv32)
    requires Byte0(t) <= 8 && Byte1(t) <= 8 && Byte2(t) <= 8 && Byte3(t) <= 8
    ensures t & 0xf0f0_f0f0 == 0
  {
  }

  lemma SmallSum(a: bv32, b: bv32)
    requires a <= 8 && b <= 8
    ensures Sum(a, b) <= 16
  {
  }

  lemma HalvesOfSum(t: bv32)
    requires t & 0xf0f0_f0f0 == 0
    ensures Byte0(Sum(t, t >> 8)) == Sum(Byte0(t), Byte1(t))
    ensures Byte2(Sum(t, t >> 8)) == Sum(Byte2(t), Byte3(t))
  {
    Halves(t, t + (t >> 8));
  }

  lemma Sum127OfBytes(u: bv32)
    requires Byte0(u) <= 16 && Byte2(u) <= 16
    ensures Sum127(u, u >> 16) == Sum(Byte0(u), Byte2(u))
  {
    Sum127OfLows(u, u >> 16);
  }

  lemma SumBytesOfSmall(t: bv32)
    requires Byte0(t) <= 8 && Byte1(t) <= 8 && Byte2(t) <= 8 && Byte3(t) <= 8
    ensures SumBytes(t) == Sum(Sum(Byte0(t), Byte1(t)), Sum(Byte2(t), Byte3(t)))
  {
    hide SumBytes, Sum, Sum127, Byte0, Byte1, Byte2, Byte3;
    SmallBytes(t);
    SumBytesIsSum(t);
    HalvesOfSum(t);
    SmallSum(Byte0(t), Byte1(t));
    SmallSum(Byte2(t), Byte3(t));
    Sum127OfBytes(Sum(t, t >> 8));
  }

  lemma AddFour(a: bv32, b: bv32, c: bv32, d: bv32)
    requires a <= 8 && b <= 8 && c <= 8 && d <= 8
    ensures Sum(Sum(a, b), Sum(c, d)) as nat == a as nat + b as nat + c as nat + d as nat
  {
    AddSmall(a, b);
    AddSmall(c, d);
    AddSmall(a + b, c + d);
  }

  /** `ge` is the number of set bits. */
  lemma GeIsCount(t: bv32)
    ensures Ge(t) as nat == Count(t, 32)
  {
    hide Ge, High, Low, ByteCounts, SumBytes, Count, Sum, Byte0, Byte1, Byte2, Byte3;
    LowCount(t);
    LowCount(High(t));
    LowCount(High(High(t)));
    LowCount(High(High(High(t))));
    CountInBytes(t);
    ByteCountsInBytes(t);
    GeIsSumOfByteCounts(t);
    var b := ByteCounts(t);
    BytesOf(b);
    SumBytesOfSmall(b);
    AddFour(Byte0(b), Byte1(b), Byte2(b), Byte3(b));
  }

  // What the trie does with a bitmap.

  /** `0 != (c & 1 << slot)` */
  predicate Has(bitmap: bv32, slot: nat) { And(bitmap, ShiftOne(slot)) != 0 }

  /** `ge(c & (1 << slot) - 1)` */
  function Position(bitmap: bv32, slot: nat): nat { Ge(And(bitmap, Minus1(ShiftOne(slot)))) as nat }

  /** `c | 1 << slot` */
  function With(bitmap: bv32, slot: nat): bv32 { Or(bitmap, ShiftOne(slot)) }

  /** `c ^ 1 << slot` */
  function Without(bitmap: bv32, slot: nat): bv32 { Xor(bitmap, ShiftOne(slot)) }

  lemma {:induction false} SomeBit(t: bv32, n: nat) returns (i: nat)
    requires t != 0 && Shr(t, n) == 0
    ensures i < n && Bit(t, i)
    decreases n
  {
    if Odd(t) {
      assert n > 0;
      i := 0;
    } else {
      assert Half(t) != 0;
      i := SomeBit(Half(t), n - 1);
      i := i + 1;
    }
  }

  lemma ShrAll(t: bv32)
    ensures Shr(t, 32) == 0
  {
    ShrByte(t);
    ShrByte(High(t));
    ShrByte(High(High(t)));
    ShrByte(High(High(High(t))));
    ShrShr(t, 8, 24);
    ShrShr(High(t), 8, 16);
    ShrShr(High(High(t)), 8, 8);
  }

  lemma {:induction false} ShrShr(t: bv32, a: nat, b: nat)
    ensures Shr(t, a + b) == Shr(Shr(t, a), b)
    decreases a
  {
    hide Half;
    if a > 0 {
      ShrShr(Half(t), a - 1, b);
    }
  }

  /** The mask test finds exactly the set bits. */
  lemma HasIsBit(bitmap: bv32, slot: nat)
    requires slot < 32
    ensures Has(bitmap, slot) == Bit(bitmap, slot)
  {
    hide And, ShiftOne;
    var m := And(bitmap, ShiftOne(slot));
    BitOfBitwise(bitmap, ShiftOne(slot), slot);
    BitOfShiftOne(slot, slot);
    BitOfZero(slot);
    if m != 0 {
      ShrAll(m);
      var i := SomeBit(m, 32);
      BitOfBitwise(bitmap, ShiftOne(slot), i);
      BitOfShiftOne(slot, i);
    }
  }

  /** A slot's position is the number of occupied slots below it. */
  lemma PositionIsCount(bitmap: bv32, slot: nat)
    requires slot < 32
    ensures Position(bitmap, slot) == Count(bitmap, slot)
  {
    hide And, Minus1, ShiftOne, Ge;
    var m := And(bitmap, Minus1(ShiftOne(slot)));
    GeIsCount(m);
    forall i: nat
      ensures Bit(m, i) == (Bit(bitmap, i) && i < slot)
    {
      BitOfBitwise(bitmap, Minus1(ShiftOne(slot)), i);
      BitOfMask(slot, i);
    }
    CountSame(m, bitmap, slot);
    CountAboveIsNone(m, slot, 32);
  }

  lemma {:induction false} CountAboveIsNone(t: bv32, lo: nat, hi: nat)
    requires lo <= hi && forall i :: lo <= i < hi ==> !Bit(t, i)
    ensures Count(t, hi) == Count(t, lo)
    decreases hi
  {
    if lo < hi {
      CountAboveIsNone(t, lo, hi - 1);
    }
  }

  lemma BitOfWith(bitmap: bv32, slot: nat, i: nat)
    requires slot < 32
    ensures Bit(With(bitmap, slot), i) == (Bit(bitmap, i) || i == slot)
  {
    hide Or, ShiftOne;
    BitOfBitwise(bitmap, ShiftOne(slot), i);
    BitOfShiftOne(slot, i);
  }

  lemma BitOfWithout(bitmap: bv32, slot: nat, i: nat)
    requires slot < 32 && Bit(bitmap, slot)
    ensures Bit(Without(bitmap, slot), i) == (Bit(bitmap, i) && i != slot)
  {
    hide Xor, ShiftOne;
    BitOfBitwise(bitmap, ShiftOne(slot), i);
    BitOfShiftOne(slot, i);
  }

  lemma {:induction false} CountMonotone(t: bv32, i: nat, j: nat)
    requires i <= j
    ensures Count(t, i) <= Count(t, j) <= Count(t, i) + (j - i)
    ensures i < j && Bit(t, i) ==> Count(t, i) < Count(t, j)
    decreases j
  {
    hide Bit;
    if i < j {
      CountMonotone(t, i, j - 1);
    }
  }

  lemma {:induction false} CountOfWith(bitmap: bv32, slot: nat, n: nat)
    requires slot < 32 && !Bit(bitmap, slot)
    ensures Count(With(bitmap, slot), n) == Count(bitmap, n) + (if slot < n then 1 else 0)
  {
    hide Bit, With;
    if n > 0 {
      CountOfWith(bitmap, slot, n - 1);
      BitOfWith(bitmap, slot, n - 1);
    }
  }

  lemma {:induction false} CountOfWithout(bitmap: bv32, slot: nat, n: nat)
    requires slot < 32 && Bit(bitmap, slot)
    ensures Count(Without(bitmap, slot), n) == Count(bitmap, n) - (if slot < n then 1 else 0)
  {
    hide Bit, Without;
    if n > 0 {
      CountOfWithout(bitmap, slot, n - 1);
      BitOfWithout(bitmap, slot, n - 1);
    }
  }
}
