/** Base64 bit for bit: which six bits each character stands for (section 4 of RFC 4648). */
module Base64Bits {
  import opened Bytes
  import opened Base64

  const LETTERS_AND_DIGITS := "ABCDEFGHIJKLMNOPQRSTUVWXYZ" + "abcdefghijklmnopqrstuvwxyz" + "0123456789"

  /** Table 1 of RFC 4648. */
  const ALPHABET := LETTERS_AND_DIGITS + "+/"

  /** Table 2 of RFC 4648. */
  const URL_ALPHABET := LETTERS_AND_DIGITS + "-_"

  /** The place of a character in an alphabet; the alphabet's length if it is not there. */
  function PlaceIn(a: string, c: Unit): nat {
    if a == "" || a[0] as int == c then 0 else 1 + PlaceIn(a[1..], c)
  }

  lemma {:induction false} PlaceIsFirst(a: string, c: Unit)
    ensures PlaceIn(a, c) <= |a| && (PlaceIn(a, c) < |a| ==> a[PlaceIn(a, c)] as int == c)
    ensures forall k :: 0 <= k < PlaceIn(a, c) ==> a[k] as int != c
    decreases |a|
  {
    if a != "" && a[0] as int != c {
      PlaceIsFirst(a[1..], c);
    }
  }

  /** Bit `p` of a byte, where bit 7 tells odd from even and bit 0 is the most significant. */
  function BitOf(x: nat, p: nat): (d: nat)
    ensures d < 2
    decreases 7 - p
  {
    if p >= 7 then x % 2 else BitOf(x / 2, p + 1)
  }

  /** Bit `i` of a sequence of bytes; behind the end all bits are zero. */
  function BitAt(b: seq<Byte>, i: nat): (d: nat)
    ensures d < 2
  {
    if i / 8 < |b| then BitOf(b[i / 8], i % 8) else 0
  }

  /** The six bits from bit `i` on, as a number. */
  function SixBits(b: seq<Byte>, i: nat): (v: nat)
    ensures v < 64
  {
    32 * BitAt(b, i) + 16 * BitAt(b, i + 1) + 8 * BitAt(b, i + 2) + 4 * BitAt(b, i + 3) + 2 * BitAt(b, i + 4)
    + BitAt(b, i + 5)
  }

  lemma SymbolIsInAlphabet(i: nat)
    requires i < 64
    ensures |ALPHABET| == 64 && Symbol(i) == ALPHABET[i] as int
  {
  }

  lemma PlaceOfSymbol(i: nat)
    requires i < 64
    ensures PlaceIn(ALPHABET, Symbol(i)) == i
  {
    hide Symbol, PlaceIn;
    var k := PlaceIn(ALPHABET, Symbol(i));
    PlaceIsFirst(ALPHABET, Symbol(i));
    SymbolIsInAlphabet(i);
    if k < 64 {
      SymbolIsInAlphabet(k);
      ValueOfSymbol(i);
      ValueOfSymbol(k);
    }
  }

  lemma Half(x: nat, d: nat)
    requires d > 0
    ensures x / d == 2 * (x / (2 * d)) + x / d % 2
  {
    var q, r := x / d, x % d;
    assert x == q * d + r;
    assert q * d == q / 2 * (2 * d) + q % 2 * d;
    assert q % 2 * d <= d;
    RemainderUnique(x, q / 2, q % 2 * d + r, 2 * d);
  }

  lemma Halves(x: Byte)
    ensures x / 64 == 2 * (x / 128) + x / 64 % 2 && x / 32 == 2 * (x / 64) + x / 32 % 2
    ensures x / 16 == 2 * (x / 32) + x / 16 % 2 && x / 8 == 2 * (x / 16) + x / 8 % 2
    ensures x / 4 == 2 * (x / 8) + x / 4 % 2 && x / 2 == 2 * (x / 4) + x / 2 % 2
  {
    Half(x, 64);
    Half(x, 32);
    Half(x, 16);
    Half(x, 8);
    Half(x, 4);
    Half(x, 2);
  }

  function Weight(p: nat): (w: nat)
    ensures w > 0
    decreases 7 - p
  {
    if p >= 7 then 1 else 2 * Weight(p + 1)
  }

  lemma QuotientOfHalf(x: nat, w: nat)
    requires w > 0
    ensures x / 2 / w == x / (2 * w)
  {
    var h, d := x / 2, x % 2;
    var q, r := h / w, h % w;
    assert h == q * w + r;
    assert q * (2 * w) == 2 * (q * w);
    RemainderUnique(x, q, 2 * r + d, 2 * w);
  }

  lemma {:induction false} BitIsQuotient(x: nat, p: nat)
    ensures BitOf(x, p) == x / Weight(p) % 2
    decreases 7 - p
  {
    if p < 7 {
      BitIsQuotient(x / 2, p + 1);
      QuotientOfHalf(x, Weight(p + 1));
    }
  }

  lemma BitsAre(x: nat)
    ensures BitOf(x, 0) == x / 128 % 2 && BitOf(x, 1) == x / 64 % 2
    ensures BitOf(x, 2) == x / 32 % 2 && BitOf(x, 3) == x / 16 % 2
    ensures BitOf(x, 4) == x / 8 % 2 && BitOf(x, 5) == x / 4 % 2
    ensures BitOf(x, 6) == x / 2 % 2 && BitOf(x, 7) == x % 2
  {
    hide BitOf;
    BitIsQuotient(x, 0);
    BitIsQuotient(x, 1);
    BitIsQuotient(x, 2);
    BitIsQuotient(x, 3);
    BitIsQuotient(x, 4);
    BitIsQuotient(x, 5);
    BitIsQuotient(x, 6);
    BitIsQuotient(x, 7);
  }

  lemma BitsOfByte(x: Byte)
    ensures var (a, b, c, d) := (BitOf(x, 0), BitOf(x, 1), BitOf(x, 2), BitOf(x, 3));
            var (e, f, g, h) := (BitOf(x, 4), BitOf(x, 5), BitOf(x, 6), BitOf(x, 7));
            && x / 64 == 2 * a + b && x / 16 == 8 * a + 4 * b + 2 * c + d
            && x / 4 == 32 * a + 16 * b + 8 * c + 4 * d + 2 * e + f
            && x % 4 == 2 * g + h && x % 16 == 8 * e + 4 * f + 2 * g + h
            && x % 64 == 32 * c + 16 * d + 8 * e + 4 * f + 2 * g + h
  {
    hide BitOf;
    BitsAre(x);
    Halves(x);
  }

  function ByteOr0(b: seq<Byte>, k: nat): Byte { if k < |b| then b[k] else 0 }

  lemma FirstTwelve(b: seq<Byte>)
    ensures SixBits(b, 0) == ByteOr0(b, 0) / 4 && SixBits(b, 6) == ByteOr0(b, 0) % 4 * 16 + ByteOr0(b, 1) / 16
  {
    hide BitOf;
    BitsOfByte(ByteOr0(b, 0));
    BitsOfByte(ByteOr0(b, 1));
    forall p ensures BitOf(0, p) == 0 {
      BitOfZero(p);
    }
  }

  lemma NextTwelve(b: seq<Byte>)
    ensures SixBits(b, 12) == ByteOr0(b, 1) % 16 * 4 + ByteOr0(b, 2) / 64 && SixBits(b, 18) == ByteOr0(b, 2) % 64
  {
    hide BitOf;
    BitsOfByte(ByteOr0(b, 1));
    BitsOfByte(ByteOr0(b, 2));
    forall p ensures BitOf(0, p) == 0 {
      BitOfZero(p);
    }
  }

  lemma {:induction false} BitOfZero(p: nat)
    ensures BitOf(0, p) == 0
    decreases 7 - p
  {
    if p < 7 {
      BitOfZero(p + 1);
    }
  }

  lemma LaterBits(b: seq<Byte>, i: nat)
    requires |b| >= 3
    ensures SixBits(b, 24 + i) == SixBits(b[3..], i)
  {
    hide BitOf;
    forall j: nat ensures BitAt(b, 24 + j) == BitAt(b[3..], j) {
      assert (24 + j) / 8 == 3 + j / 8 && (24 + j) % 8 == j % 8;
    }
  }

  lemma GroupFields(x: nat, y: nat, z: nat)
    requires x < 256 && y < 256 && z < 256
    ensures var v := Join(Join(x, y), z);
            && v < 0x100_0000 && v / 0x4_0000 == x / 4 && v / 0x1000 % 64 == x % 4 * 16 + y / 16
            && v / 64 % 64 == y % 16 * 4 + z / 64 && v % 64 == z % 64
  {
    var v := Join(Join(x, y), z);
    assert v == 0x1_0000 * x + 0x100 * y + z;
    RemainderUnique(v, x / 4, x % 4 * 0x1_0000 + 0x100 * y + z, 0x4_0000);
    RemainderUnique(v, 16 * x + y / 16, y % 16 * 0x100 + z, 0x1000);
    RemainderUnique(16 * x + y / 16, x / 4, x % 4 * 16 + y / 16, 64);
    RemainderUnique(v, 0x400 * x + 4 * y + z / 64, z % 64, 64);
    RemainderUnique(0x400 * x + 4 * y + z / 64, 16 * x + y / 16, y % 16 * 4 + z / 64, 64);
  }

  lemma GroupIsBits(b: seq<Byte>, j: nat)
    requires |b| >= 3 && j < 4
    ensures EncodeGroup(b[0], b[1], b[2])[j] == Symbol(SixBits(b, 6 * j))
  {
    hide SixBits, Join, Symbol;
    GroupFields(b[0], b[1], b[2]);
    FirstTwelve(b);
    NextTwelve(b);
  }

  lemma TailIsBits(b: seq<Byte>, j: nat)
    requires |b| < 3 && j < |TailSymbols(b)|
    ensures TailSymbols(b)[j] == Symbol(SixBits(b, 6 * j))
  {
    hide SixBits, Join, Symbol;
    FirstTwelve(b);
    NextTwelve(b);
    if |b| == 2 {
      TwoByteFields(b[0], b[1]);
    }
  }

  lemma TwoByteFields(x: nat, y: nat)
    requires x < 256 && y < 256
    ensures var e := Join(x, y); e / 0x400 == x / 4 && e / 16 % 64 == x % 4 * 16 + y / 16 && e % 16 == y % 16
  {
    var e := Join(x, y);
    RemainderUnique(e, x / 4, x % 4 * 0x100 + y, 0x400);
    RemainderUnique(e, 16 * x + y / 16, y % 16, 16);
    RemainderUnique(16 * x + y / 16, x / 4, x % 4 * 16 + y / 16, 64);
  }

  lemma {:induction false} UnpaddedIsBits(b: seq<Byte>, j: nat)
    requires j < |Unpadded(b)|
    ensures Unpadded(b)[j] == Symbol(SixBits(b, 6 * j))
    decreases |b|
  {
    hide SixBits, Symbol, EncodeGroup, TailSymbols;
    if |b| < 3 {
      TailIsBits(b, j);
    } else if j < 4 {
      GroupIsBits(b, j);
    } else {
      UnpaddedIsBits(b[3..], j - 4);
      LaterBits(b, 6 * (j - 4));
    }
  }

  /** The characters of `o` stand for the bits of `b`, six by six, and one or two signs `=` fill up the last four. */
  ghost predicate IsEncoding(b: seq<Byte>, o: seq<Unit>) {
    var n := (|b| * 4 + 2) / 3;
    && n <= |o| && |o| == n + (if |b| % 3 == 1 then 2 else if |b| % 3 == 2 then 1 else 0)
    && (forall j :: 0 <= j < n ==> PlaceIn(ALPHABET, o[j]) == SixBits(b, 6 * j))
    && forall j :: n <= j < |o| ==> o[j] == 61
  }

  lemma EncodingIsBits(b: seq<Byte>)
    ensures IsEncoding(b, Encode(b))
  {
    hide SixBits, Symbol, Unpadded, PlaceIn;
    UnpaddedShape(b);
    forall j | 0 <= j < |Unpadded(b)| ensures PlaceIn(ALPHABET, Unpadded(b)[j]) == SixBits(b, 6 * j) {
      UnpaddedIsBits(b, j);
      PlaceOfSymbol(SixBits(b, 6 * j));
    }
  }

  // Decoding, also of text that no encoder writes.

  /** What a character stands for: its place in the alphabet, where `-` and `_` are `+` and `/`; any other is zero. */
  lemma ValueIsPlace(c: Unit)
    ensures PlaceIn(ALPHABET, c) < 64 ==> Value(c) == PlaceIn(ALPHABET, c)
    ensures PlaceIn(ALPHABET, c) >= 64 ==> Value(c) == if c == 45 then 62 else if c == 95 then 63 else 0
  {
    hide PlaceIn;
    var k := PlaceIn(ALPHABET, c);
    PlaceIsFirst(ALPHABET, c);
    if k < 64 {
      SymbolIsInAlphabet(k);
      ValueOfSymbol(k);
    } else if c != 45 && c != 95 && Value(c) != 0 {
      assert Symbol(Value(c)) == c;
      PlaceOfSymbol(Value(c));
    }
  }

  lemma DecodeFields(v: nat, w: nat, x: nat, y: nat)
    requires v < 64 && w < 64 && x < 64 && y < 64
    ensures var e := v * 0x4_0000 + w * 0x1000 + x * 64 + y;
            && e / 0x1_0000 == v * 4 + w / 16 && e / 0x100 % 256 == w % 16 * 16 + x / 4 && e % 256 == x % 4 * 64 + y
  {
    var e := v * 0x4_0000 + w * 0x1000 + x * 64 + y;
    var f := 0x400 * v + 16 * w + x / 4;
    RemainderUnique(e, v * 4 + w / 16, w % 16 * 0x1000 + x * 64 + y, 0x1_0000);
    RemainderUnique(e, f, x % 4 * 64 + y, 0x100);
    RemainderUnique(f, v * 4 + w / 16, w % 16 * 16 + x / 4, 0x100);
  }

  /** Bit `i` of what the characters stand for, six bits each; behind the end all bits are zero. */
  function SymbolBitAt(t: seq<Unit>, i: nat): (d: nat)
    ensures d < 2
  {
    if i / 6 < |t| then BitOf(Value(t[i / 6]), i % 6 + 2) else 0
  }

  /** The eight bits from bit `i` on, as a byte. */
  function EightBits(t: seq<Unit>, i: nat): Byte {
    128 * SymbolBitAt(t, i) + 64 * SymbolBitAt(t, i + 1) + 32 * SymbolBitAt(t, i + 2) + 16 * SymbolBitAt(t, i + 3)
    + 8 * SymbolBitAt(t, i + 4) + 4 * SymbolBitAt(t, i + 5) + 2 * SymbolBitAt(t, i + 6) + SymbolBitAt(t, i + 7)
  }

  function ValueOr0(t: seq<Unit>, k: nat): (v: nat)
    ensures v < 64
  {
    if k < |t| then Value(t[k]) else 0
  }

  lemma BitsOfValue(x: nat)
    requires x < 64
    ensures var (c, d, e, f, g, h) := (BitOf(x, 2), BitOf(x, 3), BitOf(x, 4), BitOf(x, 5), BitOf(x, 6), BitOf(x, 7));
            && x == 32 * c + 16 * d + 8 * e + 4 * f + 2 * g + h
            && x / 16 == 2 * c + d && x % 16 == 8 * e + 4 * f + 2 * g + h
            && x / 4 == 8 * c + 4 * d + 2 * e + f && x % 4 == 2 * g + h
  {
    hide BitOf;
    BitsOfByte(x);
  }

  lemma FirstBytes(t: seq<Unit>)
    ensures EightBits(t, 0) == ValueOr0(t, 0) * 4 + ValueOr0(t, 1) / 16
    ensures EightBits(t, 8) == ValueOr0(t, 1) % 16 * 16 + ValueOr0(t, 2) / 4
    ensures EightBits(t, 16) == ValueOr0(t, 2) % 4 * 64 + ValueOr0(t, 3)
  {
    hide BitOf, Value;
    BitsOfValue(ValueOr0(t, 0));
    BitsOfValue(ValueOr0(t, 1));
    BitsOfValue(ValueOr0(t, 2));
    BitsOfValue(ValueOr0(t, 3));
    forall p ensures BitOf(0, p) == 0 {
      BitOfZero(p);
    }
  }

  lemma LaterBytes(t: seq<Unit>, i: nat)
    requires |t| >= 4
    ensures EightBits(t, 24 + i) == EightBits(t[4..], i)
  {
    hide BitOf, Value;
    forall j: nat ensures SymbolBitAt(t, 24 + j) == SymbolBitAt(t[4..], j) {
      assert (24 + j) / 6 == 4 + j / 6 && (24 + j) % 6 == j % 6;
    }
  }

  lemma GroupIsBytes(t: seq<Unit>, k: nat)
    requires |t| >= 4 && k < 3
    ensures DecodeGroup(t[0], t[1], t[2], t[3])[k] == EightBits(t, 8 * k)
  {
    hide EightBits, Value;
    FirstBytes(t);
    DecodeFields(Value(t[0]), Value(t[1]), Value(t[2]), Value(t[3]));
  }

  lemma TailIsBytes(t: seq<Unit>, k: nat)
    requires |t| < 4 && k < |DecodeTail(t)|
    ensures DecodeTail(t)[k] == EightBits(t, 8 * k)
  {
    hide EightBits, Value;
    FirstBytes(t);
    if |t| == 3 {
      DecodeFields(Value(t[0]), Value(t[1]), Value(t[2]), 0);
    }
  }

  /** Decoded characters: byte for byte the bits that they stand for, and no byte that the bits do not fill. */
  lemma {:induction false} DecodedIsBits(t: seq<Unit>)
    ensures |DecodeSymbolsOf(t)| == |t| * 6 / 8
    ensures forall k :: 0 <= k < |DecodeSymbolsOf(t)| ==> DecodeSymbolsOf(t)[k] == EightBits(t, 8 * k)
    decreases |t|
  {
    hide EightBits, DecodeGroup, DecodeTail;
    if |t| >= 4 {
      DecodedIsBits(t[4..]);
    }
    forall k | 0 <= k < |DecodeSymbolsOf(t)| ensures DecodeSymbolsOf(t)[k] == EightBits(t, 8 * k) {
      if |t| < 4 {
        TailIsBytes(t, k);
      } else if k < 3 {
        GroupIsBytes(t, k);
      } else {
        LaterBytes(t, 8 * (k - 3));
      }
    }
    LengthOfTail(t);
  }

  lemma LengthOfTail(t: seq<Unit>)
    ensures |t| < 4 ==> |DecodeTail(t)| == |t| * 6 / 8
    ensures |t| >= 4 ==> |t| * 6 / 8 == 3 + |t[4..]| * 6 / 8
  {
  }

  /** What decoding text gives, `s` being the place of its first sign `=`, or its length: the bits in front of `s`. If
      that place is a multiple of four, the last four characters before it become two bytes of zero. */
  ghost predicate IsDecoding(t: seq<Unit>, s: nat, d: Decoded)
    requires s <= |t|
  {
    if |t| % 4 != 0 then d == BadLength
    else if s == 0 < |t| then d == BadArraySize
    else
      var m := if s < |t| && s % 4 == 0 then s - 4 else s;
      && d.Ok? && |d.bytes| == m * 6 / 8 + (s - m) / 2
      && forall k :: 0 <= k < |d.bytes| ==> d.bytes[k] == if k < m * 6 / 8 then EightBits(t[..m], 8 * k) else 0
  }

  lemma DecodingIsBits(t: seq<Unit>, s: nat)
    requires s <= |t| && (forall j :: 0 <= j < s ==> t[j] != 61) && (s < |t| ==> t[s] == 61)
    ensures IsDecoding(t, s, ToByteArray(t))
  {
    hide EightBits, DecodeSymbolsOf;
    assert IndexOfPad(t) == s;
    if |t| % 4 == 0 && !(s == 0 < |t|) {
      DecodedIsBits(t[..if s < |t| && s % 4 == 0 then s - 4 else s]);
    }
  }
}
