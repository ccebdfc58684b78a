/** Base64 (section 4 of RFC 4648): what the encoder and the decoder compute, and that decoding an encoding returns
    the bytes. Text is a sequence of UTF-16 units. */
module Base64 {
  import opened Bytes

  const PAD: Unit := 61

  /** The entry of the lookup table `r`: upper case, lower case, digits, `+` and `/`. */
  function Symbol(i: nat): Unit
    requires i < 64
  {
    if i < 26 then i + 65 else if i < 52 then i + 71 else if i < 62 then i - 4 else if i == 62 then 43 else 47
  }

  /** The entry of the reverse table `n`; `-` and `_` stand for `+` and `/`, other characters read as zero. */
  function Value(c: Unit): (v: nat)
    ensures v < 64
  {
    if 65 <= c <= 90 then c - 65
    else if 97 <= c <= 122 then c - 71
    else if 48 <= c <= 57 then c + 4
    else if c == 43 || c == 45 then 62
    else if c == 47 || c == 95 then 63
    else 0
  }

  // Encoding.

  function Join(a: nat, b: nat): nat { a * 0x100 + b }

  /** A 24-bit number as four characters. */
  function Symbols(v: nat): (s: seq<Unit>)
    requires v < 0x100_0000
    ensures |s| == 4
  {
    [Symbol(v / 0x4_0000), Symbol(v / 0x1000 % 64), Symbol(v / 64 % 64), Symbol(v % 64)]
  }

  /** Three bytes as four characters. */
  function EncodeGroup(a: Byte, b: Byte, c: Byte): (s: seq<Unit>)
    ensures |s| == 4
  {
    Symbols(Join(Join(a, b), c))
  }

  /** One or two bytes left at the end, without padding. */
  function TailSymbols(t: seq<Byte>): (s: seq<Unit>)
    requires |t| < 3
    ensures |s| == if t == [] then 0 else |t| + 1
  {
    if |t| == 0 then []
    else if |t| == 1 then [Symbol(t[0] / 4), Symbol(t[0] % 4 * 16)]
    else
      var e := Join(t[0], t[1]);
      [Symbol(e / 0x400), Symbol(e / 16 % 64), Symbol(e % 16 * 4)]
  }

  /** The encoding without padding. */
  function Unpadded(b: seq<Byte>): seq<Unit> {
    if |b| < 3 then TailSymbols(b) else EncodeGroup(b[0], b[1], b[2]) + Unpadded(b[3..])
  }

  function Padding(n: nat): seq<Unit> {
    if n % 3 == 1 then [PAD, PAD] else if n % 3 == 2 then [PAD] else []
  }

  function Encode(b: seq<Byte>): seq<Unit> { Unpadded(b) + Padding(|b|) }

  lemma {:induction false} UnpaddedSplit(a: seq<Byte>, b: seq<Byte>)
    requires |a| % 3 == 0
    ensures Unpadded(a + b) == Unpadded(a) + Unpadded(b)
    decreases |a|
  {
    hide EncodeGroup, TailSymbols;
    if a == [] {
      assert a + b == b;
    } else {
      UnpaddedSplit(a[3..], b);
      assert (a + b)[3..] == a[3..] + b;
    }
  }

  /** A piece whose length is a multiple of three can be encoded by itself. */
  lemma EncodeSplit(a: seq<Byte>, b: seq<Byte>)
    requires |a| % 3 == 0
    ensures Encode(a + b) == Encode(a) + Encode(b)
  {
    hide Unpadded, Padding;
    UnpaddedSplit(a, b);
    PaddingOfSum(|a|, |b|);
    assert |a + b| == |a| + |b|;
    assert (Unpadded(a) + Unpadded(b)) + Padding(|b|) == Unpadded(a) + (Unpadded(b) + Padding(|b|));
  }

  lemma PaddingOfSum(m: nat, n: nat)
    requires m % 3 == 0
    ensures Padding(m) == [] && Padding(m + n) == Padding(n)
  {
  }

  // Decoding.

  function DecodeGroup(a: Unit, b: Unit, c: Unit, d: Unit): (s: seq<Byte>)
    ensures |s| == 3
  {
    var e := Value(a) * 0x4_0000 + Value(b) * 0x1000 + Value(c) * 64 + Value(d);
    [e / 0x1_0000, e / 0x100 % 256, e % 256]
  }

  lemma ValueOfSymbol(i: nat)
    requires i < 64
    ensures Value(Symbol(i)) == i && Symbol(i) != PAD
  {
  }

  lemma SixBitFields(v: nat)
    requires v < 0x100_0000
    ensures v == v / 0x4_0000 * 0x4_0000 + v / 0x1000 % 64 * 0x1000 + v / 64 % 64 * 64 + v % 64
    ensures v / 0x4_0000 < 64
  {
    var m := v / 64;
    assert v / 0x1000 == m / 64 && v / 0x4_0000 == m / 0x1000;
  }

  lemma DecodeSymbols(v: nat)
    requires v < 0x100_0000
    ensures var s := Symbols(v); DecodeGroup(s[0], s[1], s[2], s[3]) == [v / 0x1_0000, v / 0x100 % 256, v % 256]
  {
    hide Symbol, Value;
    SixBitFields(v);
    ValueOfSymbol(v / 0x4_0000);
    ValueOfSymbol(v / 0x1000 % 64);
    ValueOfSymbol(v / 64 % 64);
    ValueOfSymbol(v % 64);
  }

  lemma ThreeByteFields(a: nat, b: nat, c: nat)
    requires a < 256 && b < 256 && c < 256
    ensures var v := Join(Join(a, b), c);
            v < 0x100_0000 && v / 0x1_0000 == a && v / 0x100 % 256 == b && v % 256 == c
  {
    assert Join(Join(a, b), c) / 0x100 == Join(a, b);
  }

  lemma GroupRoundTrip(a: Byte, b: Byte, c: Byte)
    ensures var s := EncodeGroup(a, b, c); DecodeGroup(s[0], s[1], s[2], s[3]) == [a, b, c]
  {
    hide Symbols, DecodeGroup;
    ThreeByteFields(a, b, c);
    DecodeSymbols(Join(Join(a, b), c));
  }

  /** What follows the whole groups: one byte from two characters, two bytes from three. */
  function DecodeTail(t: seq<Unit>): seq<Byte> {
    if |t| == 2 then [(Value(t[0]) * 4 + Value(t[1]) / 16) % 256]
    else if |t| == 3 then
      var e := Value(t[0]) * 0x400 + Value(t[1]) * 16 + Value(t[2]) / 4;
      [e / 256 % 256, e % 256]
    else []
  }

  /** Characters without padding: groups of four and a tail. */
  function DecodeSymbolsOf(t: seq<Unit>): seq<Byte> {
    if |t| < 4 then DecodeTail(t) else DecodeGroup(t[0], t[1], t[2], t[3]) + DecodeSymbolsOf(t[4..])
  }

  lemma OneByteTail(a: nat)
    requires a < 256
    ensures a / 4 < 64 && a % 4 * 16 < 64 && (a / 4 * 4 + a % 4 * 16 / 16) % 256 == a
  {
  }

  lemma TwoByteTail(a: nat, b: nat)
    requires a < 256 && b < 256
    ensures var e := Join(a, b);
            && e / 0x400 < 64 && e % 16 * 4 < 64
            && e / 0x400 * 0x400 + e / 16 % 64 * 16 + e % 16 * 4 / 4 == e
            && e / 256 % 256 == a && e % 256 == b
  {
    var e := Join(a, b);
    SixteenBitFields(e);
    assert e % 256 == b && e / 256 == a;
  }

  lemma SixteenBitFields(e: nat)
    requires e < 0x1_0000
    ensures e / 0x400 < 64 && e / 0x400 * 0x400 + e / 16 % 64 * 16 + e % 16 * 4 / 4 == e
  {
    var m := e / 16;
    assert e / 0x400 == m / 64;
  }

  lemma OneByteRoundTrip(t: seq<Byte>)
    requires |t| == 1
    ensures DecodeTail(TailSymbols(t)) == t
  {
    hide Symbol, Value;
    OneByteTail(t[0]);
    ValueOfSymbol(t[0] / 4);
    ValueOfSymbol(t[0] % 4 * 16);
  }

  lemma DecodeOfTwo(e: nat)
    requires e < 0x1_0000
    ensures e / 0x400 < 64 && e % 16 * 4 < 64
    ensures DecodeTail([Symbol(e / 0x400), Symbol(e / 16 % 64), Symbol(e % 16 * 4)]) == [e / 256 % 256, e % 256]
  {
    hide Symbol, Value;
    SixteenBitFields(e);
    ValueOfSymbol(e / 0x400);
    ValueOfSymbol(e / 16 % 64);
    ValueOfSymbol(e % 16 * 4);
  }

  lemma TwoByteRoundTrip(t: seq<Byte>)
    requires |t| == 2
    ensures DecodeTail(TailSymbols(t)) == t
  {
    hide Symbol, DecodeTail, Join;
    var e := Join(t[0], t[1]);
    TwoByteTail(t[0], t[1]);
    DecodeOfTwo(e);
  }

  lemma TailRoundTrip(t: seq<Byte>)
    requires |t| < 3
    ensures DecodeTail(TailSymbols(t)) == t
  {
    if |t| == 1 {
      OneByteRoundTrip(t);
    } else if |t| == 2 {
      TwoByteRoundTrip(t);
    }
  }

  lemma {:induction false} UnpaddedRoundTrip(b: seq<Byte>)
    ensures DecodeSymbolsOf(Unpadded(b)) == b
    decreases |b|
  {
    if |b| < 3 {
      TailRoundTrip(b);
    } else {
      GroupRoundTrip(b[0], b[1], b[2]);
      UnpaddedRoundTrip(b[3..]);
      hide EncodeGroup, DecodeGroup, TailSymbols, DecodeTail;
      assert Unpadded(b)[4..] == Unpadded(b[3..]);
    }
  }

  /** A character that the encoder may write. */
  predicate IsSymbol(c: Unit) { 65 <= c <= 90 || 97 <= c <= 122 || 48 <= c <= 57 || c == 43 || c == 47 }

  lemma SymbolsAreSymbols(i: nat)
    requires i < 64
    ensures IsSymbol(Symbol(i))
  {
  }

  lemma GroupShape(a: Byte, b: Byte, c: Byte)
    ensures forall j :: 0 <= j < 4 ==> IsSymbol(EncodeGroup(a, b, c)[j])
  {
    hide Symbol, IsSymbol;
    var v := Join(Join(a, b), c);
    SymbolsAreSymbols(v / 0x4_0000);
    SymbolsAreSymbols(v / 0x1000 % 64);
    SymbolsAreSymbols(v / 64 % 64);
    SymbolsAreSymbols(v % 64);
  }

  lemma {:induction false} UnpaddedShape(b: seq<Byte>)
    ensures |Unpadded(b)| == (|b| * 4 + 2) / 3
    ensures forall j :: 0 <= j < |Unpadded(b)| ==> IsSymbol(Unpadded(b)[j])
    decreases |b|
  {
    if |b| >= 3 {
      GroupShape(b[0], b[1], b[2]);
      UnpaddedShape(b[3..]);
      hide EncodeGroup, IsSymbol;
    }
  }

  /** `t.indexOf("=")`, or the length. */
  function IndexOfPad(t: seq<Unit>): (k: nat)
    ensures k <= |t|
    ensures forall j :: 0 <= j < k ==> t[j] != PAD
    ensures k < |t| ==> t[k] == PAD
  {
    if t == [] || t[0] == PAD then 0 else 1 + IndexOfPad(t[1..])
  }

  datatype Decoded = Ok(bytes: seq<Byte>) | BadLength | BadArraySize

  /** `toByteArray`. A sign `=` in a place that is a multiple of four costs the four characters before it,
      of which two bytes of zero remain; at the front it asks for an array of negative size. */
  function ToByteArray(t: seq<Unit>): Decoded {
    if |t| % 4 != 0 then BadLength
    else
      var s := IndexOfPad(t);
      if s == |t| || s % 4 != 0 then Ok(DecodeSymbolsOf(t[..s]))
      else if s == 0 then BadArraySize
      else Ok(DecodeSymbolsOf(t[..s - 4]) + [0, 0])
  }

  lemma IndexAfterSymbols(t: seq<Unit>, p: seq<Unit>)
    requires forall j :: 0 <= j < |t| ==> t[j] != PAD
    requires p != [] ==> p[0] == PAD
    ensures IndexOfPad(t + p) == |t|
  {
    assert forall j :: 0 <= j < |t| ==> (t + p)[j] == t[j];
    assert p != [] ==> (t + p)[|t|] == PAD;
  }

  /** How many characters the bytes of `k` groups and a tail of `r` take. */
  lemma UnpaddedLength(k: nat, r: nat)
    requires r < 3
    ensures ((3 * k + r) * 4 + 2) / 3 == 4 * k + (if r == 0 then 0 else r + 1)
  {
    assert (3 * k + r) * 4 + 2 == 3 * (4 * k) + (4 * r + 2);
  }

  lemma Lengths(n: nat)
    ensures ((n * 4 + 2) / 3 + |Padding(n)|) % 4 == 0
    ensures Padding(n) != [] ==> (n * 4 + 2) / 3 % 4 != 0
  {
    var k, r := n / 3, n % 3;
    UnpaddedLength(k, r);
    assert n == 3 * k + r;
    var c: nat := if r == 0 then 0 else r + 1;
    assert (n * 4 + 2) / 3 == 4 * k + c;
    assert c + |Padding(n)| == if r == 0 then 0 else 4;
  }

  lemma CutAtPadding(t: seq<Unit>, k: nat)
    requires |t| % 4 == 0 && k == IndexOfPad(t)
    requires k < |t| ==> k % 4 != 0
    ensures ToByteArray(t) == Ok(DecodeSymbolsOf(t[..k]))
  {
    hide DecodeSymbolsOf, IndexOfPad;
  }

  /** Padded text decodes as the text without its padding. */
  lemma DecodePadded(t: seq<Unit>, p: seq<Unit>)
    requires forall j :: 0 <= j < |t| ==> t[j] != PAD
    requires p != [] ==> p[0] == PAD && |t| % 4 != 0
    requires (|t| + |p|) % 4 == 0
    ensures ToByteArray(t + p) == Ok(DecodeSymbolsOf(t))
  {
    hide DecodeSymbolsOf, IndexOfPad, ToByteArray;
    var u := t + p;
    IndexAfterSymbols(t, p);
    CutAtPadding(u, |t|);
    assert u[..|t|] == t;
  }

  /** Decoding an encoding returns the bytes. */
  lemma EncodeThenDecode(b: seq<Byte>)
    ensures ToByteArray(Encode(b)) == Ok(b)
  {
    hide Unpadded, DecodeSymbolsOf, ToByteArray;
    UnpaddedShape(b);
    UnpaddedRoundTrip(b);
    Lengths(|b|);
    DecodePadded(Unpadded(b), Padding(|b|));
  }
}
