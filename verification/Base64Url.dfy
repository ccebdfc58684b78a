/** The lenient cleaner in front of the base64 decoder, and the URL-safe form (section 5 of RFC 4648). */
module Base64Url {
  import opened Bytes
  import opened Base64
  import opened Base64Bits

  /** A character that the cleaner keeps. */
  predicate IsLenient(c: Unit) { IsSymbol(c) || c == 45 || c == 95 }

  function FilterOne(c: Unit): seq<Unit> { if IsLenient(c) then [c] else [] }

  /** The removal of every character that is not of the alphabet, white space included. */
  function Filter(t: seq<Unit>): seq<Unit> {
    if t == [] then [] else FilterOne(t[0]) + Filter(t[1..])
  }

  /** The padding characters that make a length a multiple of four. */
  function PadsFor(n: nat): (p: seq<Unit>)
    ensures (n + |p|) % 4 == 0
    ensures p != [] ==> p[0] == PAD && n % 4 != 0
  {
    seq((4 - n % 4) % 4, _ => PAD)
  }

  function PadTo4(t: seq<Unit>): seq<Unit> { t + PadsFor(|t|) }

  lemma PadStep(n: nat, k: nat)
    requires k <= |PadsFor(n)|
    ensures (n + k) % 4 == 0 <==> k == |PadsFor(n)|
    ensures k < |PadsFor(n)| ==> PadsFor(n)[k] == PAD
    ensures n % 4 == 0 ==> PadsFor(n) == []
  {
    var q, r := n / 4, n % 4;
    assert n + k == 4 * q + (r + k);
  }

  method PadLoop(t: seq<Unit>) returns (p: seq<Unit>)
    ensures p == PadTo4(t)
  {
    hide PadsFor;
    var k := 0;
    p := t;
    PadStep(|t|, 0);
    while |p| % 4 != 0
      invariant k <= |PadsFor(|t|)|
      invariant p == t + PadsFor(|t|)[..k]
      invariant |p| % 4 == 0 <==> k == |PadsFor(|t|)|
      decreases |PadsFor(|t|)| - k
    {
      PadStep(|t|, k);
      PadStep(|t|, k + 1);
      p := p + [PAD];
      k := k + 1;
    }
  }

  /** What the buffer module does to text before decoding it. */
  function Clean(t: seq<Unit>): seq<Unit> {
    var c := Filter(t[..IndexOfPad(t)]);
    if |c| < 2 then [] else PadTo4(c)
  }

  lemma {:induction false} FilterSplit(t: seq<Unit>, u: seq<Unit>)
    ensures Filter(t + u) == Filter(t) + Filter(u)
    decreases |t|
  {
    hide FilterOne;
    if t == [] {
      assert t + u == u;
    } else {
      FilterSplit(t[1..], u);
      assert (t + u)[1..] == t[1..] + u && (t + u)[0] == t[0];
    }
  }

  lemma FilterOfOne(c: Unit)
    ensures Filter([c]) == FilterOne(c)
  {
  }

  lemma FirstPad(t: seq<Unit>, k: nat)
    requires k <= |t| && (forall j :: 0 <= j < k ==> t[j] != PAD) && (k < |t| ==> t[k] == PAD)
    ensures IndexOfPad(t) == k
  {
  }

  lemma NotLenient(c: Unit)
    requires PlaceIn(ALPHABET, c) == |ALPHABET| && PlaceIn(URL_ALPHABET, c) == |URL_ALPHABET|
    ensures !IsLenient(c)
  {
    hide PlaceIn;
    PlaceIsFirst(URL_ALPHABET, c);
    assert URL_ALPHABET[62] == '-' && URL_ALPHABET[63] == '_';
    SymbolIsInAlphabet(0);
    if IsSymbol(c) {
      assert Symbol(Value(c)) == c;
      PlaceOfSymbol(Value(c));
    }
  }

  /** A character that is in neither alphabet, nor the sign `=`, may stand anywhere: the cleaner removes it. */
  lemma CleanIgnores(t: seq<Unit>, i: nat, c: Unit)
    requires i <= |t| && c != 61
    requires PlaceIn(ALPHABET, c) == |ALPHABET| && PlaceIn(URL_ALPHABET, c) == |URL_ALPHABET|
    ensures Clean(t[..i] + [c] + t[i..]) == Clean(t)
  {
    hide IsLenient, IndexOfPad, Filter, PadsFor, PlaceIn;
    var u, s := t[..i] + [c] + t[i..], IndexOfPad(t);
    if s < i {
      FirstPad(u, s);
      assert u[..s] == t[..s];
    } else {
      FirstPad(u, s + 1);
      NotLenient(c);
      FilterOfOne(c);
      assert u[..s + 1] == t[..i] + [c] + t[i..s] && t[..s] == t[..i] + t[i..s];
      FilterSplit(t[..i] + [c], t[i..s]);
      FilterSplit(t[..i], [c]);
      FilterSplit(t[..i], t[i..s]);
    }
  }

  /** What stands behind a sign `=` does not count. */
  lemma CleanStops(t: seq<Unit>, u: seq<Unit>)
    ensures Clean(t + [61] + u) == Clean(t)
  {
    hide Filter, IndexOfPad;
    var s := IndexOfPad(t);
    FirstPad(t + [61] + u, s);
    assert (t + [61] + u)[..s] == t[..s];
  }

  function UrlSafeUnit(c: Unit): Unit { if c == 43 then 45 else if c == 47 then 95 else c }

  function UrlSafeOne(c: Unit): seq<Unit> { if c == PAD then [] else [UrlSafeUnit(c)] }

  /** `Ue`: `-` for `+`, `_` for `/`, no padding. */
  function UrlSafe(t: seq<Unit>): seq<Unit> {
    if t == [] then [] else UrlSafeOne(t[0]) + UrlSafe(t[1..])
  }

  function MapUrlSafe(t: seq<Unit>): (m: seq<Unit>)
    ensures |m| == |t|
    ensures forall j :: 0 <= j < |t| ==> m[j] == UrlSafeUnit(t[j])
  {
    seq(|t|, j requires 0 <= j < |t| => UrlSafeUnit(t[j]))
  }

  lemma {:induction false} UrlSafeSplit(t: seq<Unit>, p: seq<Unit>)
    ensures UrlSafe(t + p) == UrlSafe(t) + UrlSafe(p)
    decreases |t|
  {
    hide UrlSafeOne;
    if t == [] {
      assert t + p == p;
    } else {
      UrlSafeSplit(t[1..], p);
      assert (t + p)[1..] == t[1..] + p && (t + p)[0] == t[0];
    }
  }

  lemma {:induction false} UrlSafeOfText(t: seq<Unit>)
    requires forall j :: 0 <= j < |t| ==> t[j] != PAD
    ensures UrlSafe(t) == MapUrlSafe(t)
    decreases |t|
  {
    hide UrlSafeUnit;
    if t != [] {
      UrlSafeOfText(t[1..]);
      assert MapUrlSafe(t) == [UrlSafeUnit(t[0])] + MapUrlSafe(t[1..]);
    }
  }

  lemma {:induction false} UrlSafeOfPads(p: seq<Unit>)
    requires forall j :: 0 <= j < |p| ==> p[j] == PAD
    ensures UrlSafe(p) == []
    decreases |p|
  {
    hide UrlSafeUnit;
    if p != [] {
      UrlSafeOfPads(p[1..]);
    }
  }

  lemma UrlSafeOfPadded(t: seq<Unit>, p: seq<Unit>)
    requires forall j :: 0 <= j < |t| ==> t[j] != PAD
    requires forall j :: 0 <= j < |p| ==> p[j] == PAD
    ensures UrlSafe(t + p) == MapUrlSafe(t)
  {
    hide UrlSafe, MapUrlSafe;
    UrlSafeSplit(t, p);
    UrlSafeOfText(t);
    UrlSafeOfPads(p);
  }

  lemma {:induction false} FilterKeeps(t: seq<Unit>)
    requires forall j :: 0 <= j < |t| ==> IsLenient(t[j])
    ensures Filter(t) == t
  {
    hide IsLenient;
    if t != [] {
      FilterKeeps(t[1..]);
    }
  }

  lemma {:induction false} DecodeOfUrlSafe(t: seq<Unit>)
    ensures DecodeSymbolsOf(MapUrlSafe(t)) == DecodeSymbolsOf(t)
    decreases |t|
  {
    hide Value, UrlSafeUnit;
    forall j | 0 <= j < |t|
      ensures Value(MapUrlSafe(t)[j]) == Value(t[j])
    {
      SameValue(t[j]);
    }
    if |t| >= 4 {
      DecodeOfUrlSafe(t[4..]);
      assert MapUrlSafe(t)[4..] == MapUrlSafe(t[4..]);
    }
  }

  lemma SameValue(c: Unit)
    ensures Value(UrlSafeUnit(c)) == Value(c)
    ensures IsSymbol(c) ==> IsLenient(UrlSafeUnit(c)) && UrlSafeUnit(c) != PAD
  {
  }

  lemma CleanIsPadded(t: seq<Unit>, p: seq<Unit>)
    requires forall j :: 0 <= j < |t| ==> IsLenient(t[j])
    requires |t| != 1
    requires p != [] ==> p[0] == PAD
    ensures Clean(t + p) == PadTo4(t)
  {
    hide IndexOfPad, Filter, PadsFor, IsLenient;
    NoPadAmong(t);
    IndexAfterSymbols(t, p);
    assert (t + p)[..|t|] == t;
    FilterKeeps(t);
    if t == [] {
      PadStep(0, 0);
    }
  }

  /** Text without padding, of a length that some bytes have, survives the cleaner. */
  lemma CleanUnpadded(t: seq<Unit>, p: seq<Unit>)
    requires forall j :: 0 <= j < |t| ==> IsLenient(t[j])
    requires |t| != 1
    requires p != [] ==> p[0] == PAD
    ensures ToByteArray(Clean(t + p)) == Ok(DecodeSymbolsOf(t))
  {
    hide DecodeSymbolsOf, ToByteArray, PadsFor, IsLenient, Clean;
    CleanIsPadded(t, p);
    NoPadAmong(t);
    DecodePadded(t, PadsFor(|t|));
  }

  lemma NoPadAmong(t: seq<Unit>)
    requires forall j :: 0 <= j < |t| ==> IsLenient(t[j])
    ensures forall j :: 0 <= j < |t| ==> t[j] != PAD
  {
  }

  /** The URL-safe, unpadded form of an encoding decodes back to the bytes, and so does the plain form. */
  lemma UrlSafeRoundTrip(b: seq<Byte>)
    ensures ToByteArray(Clean(UrlSafe(Encode(b)))) == Ok(b)
    ensures ToByteArray(Clean(Encode(b))) == Ok(b)
  {
    hide Unpadded, DecodeSymbolsOf, ToByteArray, Clean, UrlSafeUnit, UrlSafe;
    UnpaddedShape(b);
    UnpaddedRoundTrip(b);
    Lengths(|b|);
    var t := Unpadded(b);
    UrlSafeOfPadded(t, Padding(|b|));
    forall j | 0 <= j < |t|
      ensures IsLenient(MapUrlSafe(t)[j]) && IsLenient(t[j])
    {
      SameValue(t[j]);
    }
    DecodeOfUrlSafe(t);
    CleanUnpadded(MapUrlSafe(t), []);
    CleanUnpadded(t, Padding(|b|));
    assert MapUrlSafe(t) + [] == MapUrlSafe(t);
  }

  lemma UrlSafeSymbolIsInAlphabet(i: nat)
    requires i < 64
    ensures |URL_ALPHABET| == 64 && UrlSafeUnit(Symbol(i)) == URL_ALPHABET[i] as int
  {
    SymbolIsInAlphabet(i);
    if i < 62 {
      assert URL_ALPHABET[i] == LETTERS_AND_DIGITS[i] == ALPHABET[i];
    }
  }

  lemma PlaceOfUrlSafeSymbol(i: nat)
    requires i < 64
    ensures PlaceIn(URL_ALPHABET, UrlSafeUnit(Symbol(i))) == i
  {
    hide Symbol, UrlSafeUnit, PlaceIn, Value;
    var c := UrlSafeUnit(Symbol(i));
    var k := PlaceIn(URL_ALPHABET, c);
    PlaceIsFirst(URL_ALPHABET, c);
    UrlSafeSymbolIsInAlphabet(i);
    if k < 64 {
      UrlSafeSymbolIsInAlphabet(k);
      SameValue(Symbol(i));
      SameValue(Symbol(k));
      ValueOfSymbol(i);
      ValueOfSymbol(k);
    }
  }

  /** The URL-safe form bit for bit. */
  lemma UrlSafeIsBits(d: seq<Byte>)
    ensures |UrlSafe(Encode(d))| == (|d| * 4 + 2) / 3
    ensures forall j :: 0 <= j < |UrlSafe(Encode(d))| ==>
              PlaceIn(URL_ALPHABET, UrlSafe(Encode(d))[j]) == SixBits(d, 6 * j)
  {
    hide Unpadded, UrlSafe, UrlSafeUnit, Symbol, SixBits, PlaceIn;
    UnpaddedShape(d);
    UrlSafeOfPadded(Unpadded(d), Padding(|d|));
    forall j | 0 <= j < |Unpadded(d)|
      ensures PlaceIn(URL_ALPHABET, UrlSafe(Encode(d))[j]) == SixBits(d, 6 * j)
    {
      UnpaddedIsBits(d, j);
      PlaceOfUrlSafeSymbol(SixBits(d, 6 * j));
    }
  }

  predicate IsUrlSafe(c: Unit) { IsLenient(c) && c != 43 && c != 47 && c != PAD }

  /** The URL-safe form: six bits a character, all of them URL-safe, different for different bytes. A challenge made
      from a digest of 32 bytes has 43 characters. */
  lemma UrlSafeShape(d: seq<Byte>, e: seq<Byte>)
    ensures |UrlSafe(Encode(d))| == (|d| * 4 + 2) / 3
    ensures forall j :: 0 <= j < |UrlSafe(Encode(d))| ==> IsUrlSafe(UrlSafe(Encode(d))[j])
    ensures UrlSafe(Encode(d)) == UrlSafe(Encode(e)) ==> d == e
  {
    hide Unpadded, DecodeSymbolsOf, ToByteArray, Clean, UrlSafe;
    UrlSafeRoundTrip(d);
    UrlSafeRoundTrip(e);
    UnpaddedShape(d);
    UrlSafeOfPadded(Unpadded(d), Padding(|d|));
  }
}
