/** The string decoder as the object that it is. Its methods are those functions of `DecoderSpec`. */
module StringDecoder {
  import opened Bytes
  import opened Chunks
  import opened Options
  import opened D = DecoderSpec
  import opened Utf8Stream
  import Base64Bits

  class StringDecoder {
    const encoding: Encoding
    var lastNeed: nat
    var lastTotal: nat
    const lastChar: array<Byte>

    /** The fields as a value. */
    function Now(): State
      reads this, lastChar
    {
      State(lastNeed, lastTotal, lastChar[..])
    }

    ghost predicate Valid()
      reads this, lastChar
    {
      Now().Valid() && Sized(encoding, Now())
    }

    constructor (encoding: Encoding)
      ensures Valid() && this.encoding == encoding && Now() == Start(encoding) && fresh(lastChar)
    {
      this.encoding := encoding;
      lastNeed, lastTotal := 0, 0;
      lastChar := new Byte[if encoding.BASE64? then 3 else 4](_ => 0);
    }

    /** `copy` into `lastChar`. */
    method CopyIn(at: nat, from: seq<Byte>)
      requires at + |from| <= lastChar.Length
      modifies lastChar
      ensures lastChar[..] == Copy(old(lastChar[..]), at, from)
    {
      var j := 0;
      while j < |from|
        invariant j <= |from|
        invariant lastChar[..] == Copy(old(lastChar[..]), at, from[..j])
      {
        lastChar[at + j] := from[j];
        j := j + 1;
      }
      assert from[..j] == from;
    }

    /** `text` */
    method Text(t: seq<Byte>, i: nat) returns (x: seq<Unit>)
      requires Valid() && lastNeed == 0 && i < |t|
      modifies this, lastChar
      ensures Valid() && (Now(), x) == D.Text(encoding, old(Now()), t, i)
    {
      hide Utf8.Decode, Utf16le, Base64.Encode, Copy, CheckIncomplete;
      match encoding
      case UTF8 =>
        var (total, need) := CheckIncomplete(t, i);
        lastNeed := need;
        if lastNeed == 0 {
          return Utf8.Decode(t[i..]);
        }
        lastTotal := total;
        var n := |t| - (total - lastNeed);
        CopyIn(0, t[n..]);
        x := Utf8.Decode(t[i..n]);
      case UTF16LE =>
        x := TextUtf16le(t, i);
      case BASE64 =>
        var r := (|t| - i) % 3;
        if r == 0 {
          return Base64.Encode(t[i..]);
        }
        lastNeed, lastTotal := 3 - r, 3;
        CopyIn(0, t[|t| - r..]);
        x := Base64.Encode(t[i..|t| - r]);
    }

    method TextUtf16le(t: seq<Byte>, i: nat) returns (x: seq<Unit>)
      requires Valid() && lastNeed == 0 && i < |t| && encoding == UTF16LE
      modifies this, lastChar
      ensures Valid() && (Now(), x) == D.Text(UTF16LE, old(Now()), t, i)
    {
      hide Utf16le, Copy;
      if (|t| - i) % 2 == 0 {
        x := Utf16le(t[i..]);
        if x != [] {
          var n := x[|x| - 1];
          if 55296 <= n <= 56319 {
            LeadTakesTwo(t[i..]);
            lastNeed, lastTotal := 2, 4;
            CopyIn(0, t[|t| - 2..]);
            x := x[..|x| - 1];
          }
        }
      } else {
        lastNeed, lastTotal := 1, 2;
        CopyIn(0, t[|t| - 1..]);
        x := Utf16le(t[i..|t| - 1]);
      }
    }

    /** `utf8CheckExtraBytes`: gives up the character held back at a byte that does not continue it. */
    method CheckExtraBytes(t: seq<Byte>) returns (x: Option<seq<Unit>>)
      requires Valid() && lastNeed > 0 && t != []
      modifies this`lastNeed
      ensures var c := D.CheckExtraBytes(old(lastNeed), t);
              && (c.Some? ==> lastNeed == c.value && x == Some([Utf8.REPLACEMENT]))
              && (c.None? ==> lastNeed == old(lastNeed) && x == None)
    {
      hide Utf8.IsContinuation;
      if !Utf8.IsContinuation(t[0]) {
        lastNeed := 0;
        return Some([Utf8.REPLACEMENT]);
      }
      if lastNeed > 1 && |t| > 1 {
        if !Utf8.IsContinuation(t[1]) {
          lastNeed := 1;
          return Some([Utf8.REPLACEMENT]);
        }
        if lastNeed > 2 && |t| > 2 && !Utf8.IsContinuation(t[2]) {
          lastNeed := 2;
          return Some([Utf8.REPLACEMENT]);
        }
      }
      x := None;
    }

    /** The copying that every `fillLast` does: complete the character held back, if `t` is long enough. */
    method TakeNext(t: seq<Byte>) returns (x: Option<seq<Unit>>)
      requires Valid() && lastNeed > 0
      modifies this, lastChar
      ensures Valid()
      ensures var (s, n) := (old(Now()), |t|);
              if s.need <= n then
                var last := Copy(s.last, s.total - s.need, t[..s.need]);
                Now() == s.(last := last) && x == Some(ToText(encoding, last[..s.total]))
              else
                Now() == State(s.need - n, s.total, Copy(s.last, s.total - s.need, t)) && x == None
    {
      hide ToText, Copy;
      if lastNeed <= |t| {
        CopyIn(lastTotal - lastNeed, t[..lastNeed]);
        assert lastChar[..lastTotal] == lastChar[..][..lastTotal];
        x := Some(ToText(encoding, lastChar[..lastTotal]));
      } else {
        CopyIn(lastTotal - lastNeed, t);
        lastNeed := lastNeed - |t|;
        x := None;
      }
    }

    /** `fillLast` */
    method FillLast(t: seq<Byte>) returns (x: Option<seq<Unit>>)
      requires Valid() && lastNeed > 0 && t != []
      modifies this, lastChar
      ensures Valid() && (Now(), x) == D.FillLast(encoding, old(Now()), t)
    {
      hide ToText, Copy, D.CheckExtraBytes, D.FillLast, Utf8.IsContinuation;
      ghost var s := Now();
      x := None;
      if encoding == UTF8 {
        x := CheckExtraBytes(t);
      }
      if x.Some? {
        FillBreaksOff(s, t, lastNeed);
        assert Now() == s.(need := lastNeed);
      } else {
        assert Now() == s;
        FillLastValue(encoding, s, t);
        x := TakeNext(t);
      }
    }

    method Write(t: seq<Byte>) returns (x: seq<Unit>)
      requires Valid()
      modifies this, lastChar
      ensures Valid() && (Now(), x) == D.Write(encoding, old(Now()), t)
    {
      hide ToText, D.Text, D.FillLast;
      if |t| == 0 {
        return [];
      }
      var e, r := [], 0;
      if lastNeed > 0 {
        var filled := FillLast(t);
        if filled.None? {
          return [];
        }
        e, r := filled.value, lastNeed;
        lastNeed := 0;
      }
      x := e;
      if r < |t| {
        var rest := Text(t, r);
        assert [] + rest == rest;
        x := if e != [] then e + rest else rest;
      }
    }

    method End(t: seq<Byte>) returns (x: seq<Unit>)
      requires Valid()
      modifies this, lastChar
      ensures Valid()
      ensures var (s, y) := D.Write(encoding, old(Now()), t);
              Now() == s && x == y + Finish(encoding, s)
    {
      x := [];
      if |t| > 0 {
        x := Write(t);
      }
      if lastNeed > 0 {
        if encoding == UTF8 {
          x := x + [Utf8.REPLACEMENT];
        } else {
          x := x + ToText(encoding, lastChar[..lastTotal - lastNeed]);
        }
      }
    }
  }

  /** A decoder fed chunk by chunk and then ended gives the text of the whole input: in UTF-8 for every cut of
      every input without a truncated character, in the other encodings for every cut of every input. */
  method DecodeChunks(encoding: Encoding, chunks: seq<seq<Byte>>) returns (x: seq<Unit>)
    ensures x == Streamed(encoding, chunks)
    ensures encoding == UTF8 ==> |x| <= |ToText(encoding, Flatten(chunks))|
    ensures (encoding == UTF8 ==> !Truncated(Flatten(chunks))) ==> x == ToText(encoding, Flatten(chunks))
    ensures encoding == BASE64 ==> Base64Bits.IsEncoding(Flatten(chunks), x)
    ensures encoding == UTF16LE ==> IsUtf16le(Flatten(chunks), x)
  {
    hide ToText, Flatten, Finish, D.Write, Truncated, Base64Bits.IsEncoding, IsUtf16le;
    var d := new StringDecoder(encoding);
    var i := 0;
    x := [];
    WriteAllOfNothing(encoding, Start(encoding));
    assert chunks[..0] == [];
    while i < |chunks|
      invariant i <= |chunks|
      invariant fresh(d) && fresh(d.lastChar) && d.Valid() && d.encoding == encoding
      invariant (d.Now(), x) == WriteAll(encoding, Start(encoding), chunks[..i])
    {
      var y := d.Write(chunks[i]);
      WriteAllNext(encoding, Start(encoding), chunks, i);
      x := x + y;
      i := i + 1;
    }
    assert chunks[..i] == chunks;
    var rest := d.End([]);
    WriteOfNothing(encoding, WriteAll(encoding, Start(encoding), chunks).0);
    assert [] + Finish(encoding, d.Now()) == Finish(encoding, d.Now());
    x := x + rest;
    if encoding == UTF8 {
      CutsNeverAdd(chunks);
      Utf8IsDecode(Flatten(chunks));
    } else {
      ChunksMeanWhole(encoding, chunks);
      WholeIsSpelledOut(encoding, Flatten(chunks));
    }
  }

  lemma WholeIsSpelledOut(e: Encoding, b: seq<Byte>)
    ensures e == BASE64 ==> Base64Bits.IsEncoding(b, ToText(e, b))
    ensures e == UTF16LE ==> IsUtf16le(b, ToText(e, b))
  {
    hide Base64Bits.IsEncoding, IsUtf16le, Base64.Encode;
    Base64Bits.EncodingIsBits(b);
    TextIsUtf16le(b);
  }

  lemma LeadTakesTwo(b: seq<Byte>)
    requires Utf16le(b) != []
    ensures |b| >= 2
  {
  }

  lemma Utf8IsDecode(b: seq<Byte>)
    ensures ToText(UTF8, b) == Utf8.Decode(b)
  {
  }

  lemma WriteOfNothing(e: Encoding, s: State)
    requires s.Valid() && Sized(e, s)
    ensures D.Write(e, s, []) == (s, [])
  {
  }

  lemma WriteAllOfNothing(e: Encoding, s: State)
    requires s.Valid() && Sized(e, s)
    ensures WriteAll(e, s, []) == (s, [])
  {
  }

  lemma {:induction false} WriteAllNext(e: Encoding, s: State, chunks: seq<seq<Byte>>, i: nat)
    requires s.Valid() && Sized(e, s) && i < |chunks|
    ensures var (mid, x) := WriteAll(e, s, chunks[..i]);
            var (end, y) := D.Write(e, mid, chunks[i]);
            WriteAll(e, s, chunks[..i + 1]) == (end, x + y)
    decreases i
  {
    hide D.Write;
    var (mid, x) := WriteAll(e, s, chunks[..i]);
    var (end, y) := D.Write(e, mid, chunks[i]);
    if i > 0 {
      var (s1, x1) := D.Write(e, s, chunks[0]);
      WriteAllNext(e, s1, chunks[1..], i - 1);
      assert chunks[..i][1..] == chunks[1..][..i - 1];
      assert chunks[..i + 1][1..] == chunks[1..][..i];
      var x2 := WriteAll(e, s1, chunks[1..][..i - 1]).1;
      assert x1 + (x2 + y) == (x1 + x2) + y;
    } else {
      assert chunks[..1][1..] == [];
      assert [] + y == y == y + [];
    }
  }
}
