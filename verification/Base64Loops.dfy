/** The encoder that works in chunks, and the decoder that writes into an array, against `Base64`. */
module Base64Loops {
  import opened Bytes
  import opened Base64
  import opened Base64Bits

  /** `c`: the groups of `t[e..n]`. */
  method EncodeChunk(t: seq<Byte>, e: nat, n: nat) returns (s: seq<Unit>)
    requires e <= n <= |t| && (n - e) % 3 == 0
    ensures s == Unpadded(t[e..n])
  {
    hide EncodeGroup, TailSymbols, Unpadded;
    s := [];
    var u := e;
    while u < n
      invariant e <= u <= n && (n - u) % 3 == 0
      invariant s + Unpadded(t[u..n]) == Unpadded(t[e..n])
    {
      UnpaddedStep(t[u..n]);
      assert t[u..n][3..] == t[u + 3..n];
      s := s + EncodeGroup(t[u], t[u + 1], t[u + 2]);
      u := u + 3;
    }
    NothingToEncode(t[u..n]);
  }

  lemma UnpaddedStep(b: seq<Byte>)
    requires |b| >= 3
    ensures Unpadded(b) == EncodeGroup(b[0], b[1], b[2]) + Unpadded(b[3..])
  {
  }

  lemma NothingToEncode(b: seq<Byte>)
    requires b == []
    ensures Unpadded(b) == []
  {
  }

  /** `fromByteArray`: chunks of 16383 bytes, then the tail. */
  method FromByteArray(t: seq<Byte>) returns (o: seq<Unit>)
    ensures IsEncoding(t, o)
    ensures o == Encode(t)
  {
    hide Unpadded, TailSymbols, IsEncoding;
    EncodingIsBits(t);
    var n, s := |t|, 16383;
    var i := n % 3;
    var u, a := 0, n - i;
    o := [];
    NothingToEncode(t[..0]);
    while u < a
      invariant u % 3 == 0 && a % 3 == 0
      invariant o == Unpadded(t[..if u < a then u else a])
    {
      var end := if u + s > a then a else u + s;
      var c := EncodeChunk(t, u, end);
      UnpaddedSplit(t[..u], t[u..end]);
      assert t[..u] + t[u..end] == t[..end];
      o := o + c;
      u := u + s;
    }
    UnpaddedSplit(t[..a], t[a..]);
    assert t[..a] + t[a..] == t;
    UnpaddedOfTail(t[a..]);
    var tail := EncodeTail(t, i);
    o := o + tail;
    assert o == Encode(t);
  }

  lemma UnpaddedOfTail(t: seq<Byte>)
    requires |t| < 3
    ensures Unpadded(t) == TailSymbols(t)
  {
  }

  lemma JoinBound(a: nat, b: nat)
    requires a < 256 && b < 256
    ensures Join(a, b) < 0x1_0000
  {
  }

  /** What a mask of six bits leaves. */
  lemma LowBits(p: nat, m: nat)
    requires m < 64
    ensures (64 * p + m) % 64 == m
  {
  }

  /** The end of `fromByteArray`. */
  method EncodeTail(t: seq<Byte>, i: nat) returns (s: seq<Unit>)
    requires i < 3 && i == |t| % 3
    ensures s == TailSymbols(t[|t| - i..]) + Padding(|t|)
  {
    hide Symbol, Join;
    var n := |t|;
    s := [];
    if i == 1 {
      var e: nat := t[n - 1];
      LowBits(e / 4, e % 4 * 16);
      assert e * 16 == 64 * (e / 4) + e % 4 * 16;
      s := [Symbol(e / 4), Symbol(e * 16 % 64), PAD, PAD];
    } else if i == 2 {
      var e := Join(t[n - 2], t[n - 1]);
      LowBits(e / 16, e % 16 * 4);
      assert e * 4 == 64 * (e / 16) + e % 16 * 4;
      JoinBound(t[n - 2], t[n - 1]);
      s := [Symbol(e / 0x400), Symbol(e / 16 % 64), Symbol(e * 4 % 64), PAD];
    }
  }

  lemma DecodeStep(t: seq<Unit>)
    requires |t| >= 4
    ensures DecodeSymbolsOf(t) == DecodeGroup(t[0], t[1], t[2], t[3]) + DecodeSymbolsOf(t[4..])
  {
  }

  lemma DecodeStepAt(t: seq<Unit>, r: nat, k: nat)
    requires r + 4 <= k <= |t|
    ensures DecodeSymbolsOf(t[r..k])
         == DecodeGroup(t[r], t[r + 1], t[r + 2], t[r + 3]) + DecodeSymbolsOf(t[r + 4..k])
  {
    hide DecodeGroup, DecodeSymbolsOf;
    DecodeStep(t[r..k]);
    assert t[r..k][4..] == t[r + 4..k];
  }

  lemma DecodeLast(t: seq<Unit>)
    requires |t| < 4
    ensures DecodeSymbolsOf(t) == DecodeTail(t)
  {
  }

  /** One group of the main loop of `toByteArray`. */
  method DecodeGroupInto(t: seq<Unit>, r: nat, c: array<Byte>, f: nat)
    requires r + 4 <= |t| && f + 3 <= c.Length
    modifies c
    ensures c[..f + 3] == old(c[..f]) + DecodeGroup(t[r], t[r + 1], t[r + 2], t[r + 3])
    ensures c[f + 3..] == old(c[f + 3..])
  {
    hide Value;
    var e: nat := Value(t[r]) * 0x4_0000 + Value(t[r + 1]) * 0x1000 + Value(t[r + 2]) * 64 + Value(t[r + 3]);
    c[f], c[f + 1], c[f + 2] := e / 0x1_0000 % 256, e / 0x100 % 256, e % 256;
  }

  /** The main loop of `toByteArray`: the whole groups of `t[..k]`. */
  method DecodeLoop(t: seq<Unit>, l: int, c: array<Byte>, ghost k: nat) returns (r: nat, f: nat)
    requires k <= |t| && l == (if k % 4 == 0 then k else k - 4)
    requires c.Length >= k / 4 * 3
    modifies c
    ensures r == k / 4 * 4 && f == k / 4 * 3
    ensures c[..f] + DecodeSymbolsOf(t[r..k]) == DecodeSymbolsOf(t[..k])
    ensures c[f..] == old(c[f..])
  {
    hide DecodeGroup, DecodeSymbolsOf;
    ghost var q, groups := 0, k / 4;
    r, f := 0, 0;
    assert t[0..k] == t[..k];
    while r < l
      invariant r == 4 * q && f == 3 * q && q <= groups
      invariant c[..f] + DecodeSymbolsOf(t[r..k]) == DecodeSymbolsOf(t[..k])
      invariant c[f..] == old(c[f..])
    {
      assert q < groups;
      DecodeStepAt(t, r, k);
      ghost var rest := c[f..];
      DecodeGroupInto(t, r, c, f);
      assert c[f + 3..] == rest[3..];
      f := f + 3;
      r := r + 4;
      q := q + 1;
    }
    assert q == groups;
  }

  /** The end of `toByteArray`: `u` is the number of places that padding takes. */
  method DecodeTailInto(t: seq<Unit>, r: nat, u: nat, c: array<Byte>, f: nat, ghost k: nat)
    requires 1 <= u <= 3 && k == r + 4 - u <= |t| && c.Length == f + 3 - u
    modifies c
    ensures c[..] == old(c[..f]) + DecodeTail(t[r..k])
  {
    hide Value;
    if u == 2 {
      c[f] := (Value(t[r]) * 4 + Value(t[r + 1]) / 16) % 256;
    }
    if u == 1 {
      var e: nat := Value(t[r]) * 0x400 + Value(t[r + 1]) * 16 + Value(t[r + 2]) / 4;
      c[f], c[f + 1] := e / 256 % 256, e % 256;
    }
  }

  /** The length of the array, from the places of characters and of padding. */
  lemma ArraySize(s: nat, u: nat)
    requires u == 0 || u == 4 - s % 4
    requires u == 0 ==> s % 4 == 0
    ensures (s + u) % 4 == 0
    ensures 3 * (s + u) / 4 - u == if u == 4 then s / 4 * 3 - 1 else s / 4 * 3 + (if u == 0 then 0 else 3 - u)
  {
    var q, r := s / 4, s % 4;
    assert s == 4 * q + r;
    if u == 0 {
      ThreeQuarters(s, q);
    } else {
      ThreeQuarters(s + u, q + 1);
    }
  }

  lemma ThreeQuarters(n: nat, k: nat)
    requires n == 4 * k
    ensures n % 4 == 0 && 3 * n / 4 == 3 * k
  {
  }

  lemma ZerosLeft(start: seq<Byte>, f: nat)
    requires f <= |start| && forall j :: 0 <= j < |start| ==> start[j] == 0
    ensures |start| - f == 2 ==> start[f..] == [0, 0]
  {
  }

  /** `toByteArray` writes into an array whose length is computed beforehand. */
  method ToByteArrayLoop(t: seq<Unit>) returns (d: Decoded)
    ensures d == ToByteArray(t) && IsDecoding(t, IndexOfPad(t), d)
  {
    hide DecodeSymbolsOf, IndexOfPad, DecodeTail, IsDecoding;
    DecodingIsBits(t, IndexOfPad(t));
    if |t| % 4 > 0 {
      return BadLength;
    }
    var s := IndexOfPad(t);
    var u: nat := if s == |t| then 0 else 4 - s % 4;
    var size: int := 3 * (s + u) / 4;
    size := size - u;
    ArraySize(s, u);
    if size < 0 {
      return BadArraySize;
    }
    var c := new Byte[size](_ => 0);
    ghost var start := c[..];
    ghost var k := if u == 4 then s - 4 else s;
    var l: int := s;
    if u > 0 {
      l := l - 4;
    }
    var r, f := DecodeLoop(t, l, c, k);
    DecodeLast(t[r..k]);
    if 1 <= u <= 3 {
      DecodeTailInto(t, r, u, c, f, k);
    } else {
      NothingToDecode(t[r..k]);
      ZerosLeft(start, f);
      assert c[..] == c[..f] + c[f..];
    }
    d := Ok(c[..]);
  }

  lemma NothingToDecode(t: seq<Unit>)
    requires t == []
    ensures DecodeSymbolsOf(t) == []
  {
  }
}
