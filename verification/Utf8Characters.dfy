/** UTF-8 character by character: the bytes and units of a scalar value spelled out (section 3 of RFC 3629), and
    decoding as a search for such bytes. */
module Utf8Characters {
  import opened Bytes
  import opened Options
  import opened Utf8

  /** The table of section 3 of RFC 3629. */
  predicate IsUtf8(c: Scalar, s: seq<Byte>) {
    if c <= 0x7f then s == [c]
    else if c <= 0x7ff then
      && |s| == 2 && 0xc0 <= s[0] <= 0xdf && IsTail(s[1])
      && c == (s[0] as int - 0xc0) * 0x40 + (s[1] as int - 0x80)
    else if c <= 0xffff then
      && |s| == 3 && 0xe0 <= s[0] <= 0xef && IsTail(s[1]) && IsTail(s[2])
      && c == (s[0] as int - 0xe0) * 0x1000 + (s[1] as int - 0x80) * 0x40 + (s[2] as int - 0x80)
    else
      && |s| == 4 && 0xf0 <= s[0] <= 0xf7 && IsTail(s[1]) && IsTail(s[2]) && IsTail(s[3])
      && c == (s[0] as int - 0xf0) * 0x4_0000 + (s[1] as int - 0x80) * 0x1000 + (s[2] as int - 0x80) * 0x40
              + (s[3] as int - 0x80)
  }

  predicate IsTail(b: Byte) { 0x80 <= b <= 0xbf }

  /** One unit, or a pair of surrogates. */
  predicate IsUtf16(c: Scalar, u: seq<Unit>) {
    if c <= 0xffff then u == [c]
    else
      && |u| == 2 && 0xd800 <= u[0] <= 0xdbff && 0xdc00 <= u[1] <= 0xdfff
      && c == 0x1_0000 + (u[0] as int - 0xd800) * 0x400 + (u[1] as int - 0xdc00)
  }

  lemma UnitsAreUtf16(c: Scalar)
    ensures IsUtf16(c, UnitsOf(c))
  {
  }

  lemma TwoBytesBack(a: nat, b: nat)
    requires 0xc0 <= a <= 0xdf && 0x80 <= b <= 0xbf
    ensures var c := (a - 0xc0) * 0x40 + (b - 0x80); a == c / 0x40 + 0xc0 && b == c % 0x40 + 0x80
  {
  }

  lemma ThreeBytesBack(x: nat, y: nat, z: nat)
    requires 0xe0 <= x <= 0xef && 0x80 <= y <= 0xbf && 0x80 <= z <= 0xbf
    ensures var c := (x - 0xe0) * 0x1000 + (y - 0x80) * 0x40 + (z - 0x80);
            x == c / 0x1000 + 0xe0 && y == c / 0x40 % 0x40 + 0x80 && z == c % 0x40 + 0x80
  {
    var c := (x - 0xe0) * 0x1000 + (y - 0x80) * 0x40 + (z - 0x80);
    assert c / 0x40 == (x - 0xe0) * 0x40 + (y - 0x80);
  }

  lemma FourBytesBack(w: nat, x: nat, y: nat, z: nat)
    requires 0xf0 <= w <= 0xf7 && 0x80 <= x <= 0xbf && 0x80 <= y <= 0xbf && 0x80 <= z <= 0xbf
    ensures var c := (w - 0xf0) * 0x4_0000 + (x - 0x80) * 0x1000 + (y - 0x80) * 0x40 + (z - 0x80);
            && w == c / 0x4_0000 + 0xf0 && x == c / 0x1000 % 0x40 + 0x80
            && y == c / 0x40 % 0x40 + 0x80 && z == c % 0x40 + 0x80
  {
    var c := (w - 0xf0) * 0x4_0000 + (x - 0x80) * 0x1000 + (y - 0x80) * 0x40 + (z - 0x80);
    var m := c / 0x40;
    assert m == (w - 0xf0) * 0x1000 + (x - 0x80) * 0x40 + (y - 0x80);
    assert m / 0x40 == (w - 0xf0) * 0x40 + (x - 0x80);
    assert c / 0x1000 == m / 0x40 && c / 0x4_0000 == m / 0x1000;
  }

  lemma EncodingOfFour(c: Scalar, w: Byte, x: Byte, y: Byte, z: Byte)
    requires c >= 0x1_0000
    requires w == c / 0x4_0000 + 0xf0 && x == c / 0x1000 % 0x40 + 0x80 && y == c / 0x40 % 0x40 + 0x80
    requires z == c % 0x40 + 0x80
    ensures EncodeScalar(c) == [w, x, y, z]
  {
  }

  lemma EncodingOfThree(c: Scalar, x: Byte, y: Byte, z: Byte)
    requires 0x800 <= c < 0x1_0000
    requires x == c / 0x1000 + 0xe0 && y == c / 0x40 % 0x40 + 0x80 && z == c % 0x40 + 0x80
    ensures EncodeScalar(c) == [x, y, z]
  {
  }

  lemma EncodingOfTwo(c: Scalar, a: Byte, b: Byte)
    requires 0x80 <= c < 0x800
    requires a == c / 0x40 + 0xc0 && b == c % 0x40 + 0x80
    ensures EncodeScalar(c) == [a, b]
  {
  }

  lemma EncodingOfOne(c: Scalar)
    requires c < 0x80
    ensures EncodeScalar(c) == [c]
  {
  }

  /** Only the encoding of a scalar value is laid out as the table says. */
  lemma OnlyUtf8(c: Scalar, s: seq<Byte>)
    requires IsUtf8(c, s)
    ensures s == EncodeScalar(c)
  {
    hide EncodeScalar;
    if c < 0x80 {
      EncodingOfOne(c);
    } else if c < 0x800 {
      TwoBytesBack(s[0], s[1]);
      EncodingOfTwo(c, s[0], s[1]);
      assert s == [s[0], s[1]];
    } else if c < 0x1_0000 {
      ThreeBytesBack(s[0], s[1], s[2]);
      EncodingOfThree(c, s[0], s[1], s[2]);
      assert s == [s[0], s[1], s[2]];
    } else {
      FourBytesBack(s[0], s[1], s[2], s[3]);
      EncodingOfFour(c, s[0], s[1], s[2], s[3]);
      assert s == [s[0], s[1], s[2], s[3]];
    }
  }

  lemma EncodingIsUtf8Two(c: Scalar)
    requires 0x80 <= c < 0x800
    ensures IsUtf8(c, EncodeScalar(c))
  {
  }

  lemma EncodingIsUtf8Three(c: Scalar)
    requires 0x800 <= c < 0x1_0000
    ensures IsUtf8(c, EncodeScalar(c))
  {
    var m := c / 0x40;
    assert c / 0x1000 == m / 0x40 < 0x10;
  }

  lemma EncodingIsUtf8Four(c: Scalar)
    requires 0x1_0000 <= c
    ensures IsUtf8(c, EncodeScalar(c))
  {
    var m := c / 0x40;
    assert c / 0x1000 == m / 0x40 && c / 0x4_0000 == m / 0x1000;
    ThreeSixBitFields(m);
  }

  /** The encoding of a scalar value is what the table of RFC 3629 says, and nothing else is. */
  lemma EncodingIsUtf8(c: Scalar, s: seq<Byte>)
    ensures IsUtf8(c, s) <==> s == EncodeScalar(c)
  {
    hide EncodeScalar, IsUtf8;
    if IsUtf8(c, s) {
      OnlyUtf8(c, s);
    }
    if c < 0x80 {
      EncodingOfOne(c);
      TableOfOne(c);
    } else if c < 0x800 {
      EncodingIsUtf8Two(c);
    } else if c < 0x1_0000 {
      EncodingIsUtf8Three(c);
    } else {
      EncodingIsUtf8Four(c);
    }
  }

  lemma TableOfOne(c: Scalar)
    requires c < 0x80
    ensures IsUtf8(c, [c])
  {
  }

  // Decoding.

  lemma HeadIsUtf8(b: seq<Byte>)
    requires b != [] && DecodeHead(b).Some?
    ensures Announced(b[0]) <= |b| && IsUtf8(DecodeHead(b).value, b[..Announced(b[0])])
  {
  }

  lemma HeadIsCharacter(b: seq<Byte>, c: Scalar)
    requires b != []
    ensures DecodeHead(b) == Some(c) <==> EncodeScalar(c) <= b
    ensures EncodeScalar(c) <= b ==> Announced(b[0]) == |EncodeScalar(c)|
  {
    hide DecodeHead, EncodeScalar, Announced, IsUtf8;
    if EncodeScalar(c) <= b {
      var rest := b[|EncodeScalar(c)|..];
      assert EncodeScalar(c) + rest == b;
      HeadOfEncoding(c, rest);
    }
    if DecodeHead(b) == Some(c) {
      HeadIsUtf8(b);
      EncodingIsUtf8(c, b[..Announced(b[0])]);
    }
  }

  /** `N` takes a character exactly where its encoding stands, and a byte at which none stands for U+FFFD: overlong
      forms, surrogates and numbers above 10FFFF are read byte by byte. */
  lemma DecodeByCharacters(b: seq<Byte>)
    requires b != []
    ensures forall c: Scalar :: EncodeScalar(c) <= b ==> Decode(b) == UnitsOf(c) + Decode(b[|EncodeScalar(c)|..])
    ensures (forall c: Scalar :: !(EncodeScalar(c) <= b)) ==> Decode(b) == [0xfffd] + Decode(b[1..])
  {
    hide DecodeHead, EncodeScalar, UnitsOf;
    forall c: Scalar | EncodeScalar(c) <= b ensures Decode(b) == UnitsOf(c) + Decode(b[|EncodeScalar(c)|..]) {
      HeadIsCharacter(b, c);
    }
    if DecodeHead(b).Some? {
      HeadIsCharacter(b, DecodeHead(b).value);
    }
  }

  /** Encoding and decoding again, unit by unit: a surrogate without its partner becomes U+FFFD, and the last of two
      lead surrogates at the end is dropped. */
  lemma UnitsAfterRoundTrip(s: seq<Unit>)
    ensures var r, n := Decode(Encode(s, 0)), |s|;
            && |r| == (if n > 1 && 0xd800 <= s[n - 2] <= 0xdbff && 0xd800 <= s[n - 1] <= 0xdbff then n - 1 else n)
            && forall k :: 0 <= k < |r| ==>
                 r[k] == (if 0xd800 <= s[k] <= 0xdbff && !(k + 1 < n && 0xdc00 <= s[k + 1] <= 0xdfff) then 0xfffd
                          else if 0xdc00 <= s[k] <= 0xdfff && !(k > 0 && 0xd800 <= s[k - 1] <= 0xdbff) then 0xfffd
                          else s[k])
  {
    hide Encode, Decode;
    EncodeThenDecode(s);
  }

  /** An overlong form: the bytes C0 AF, which would mean a slash. */
  lemma OverlongIsNoCharacter()
    ensures Decode([0xc0, 0xaf]) == [0xfffd, 0xfffd]
  {
    var b: seq<Byte> := [0xc0, 0xaf];
    assert b[1..] == [0xaf] && b[1..][1..] == [];
    assert DecodeHead(b) == None && DecodeHead([0xaf]) == None;
  }
}
