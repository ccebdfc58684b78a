/** The string decoder as functions on its state, and what it means: chunks of bytes become strings, and the
    bytes of a character that a chunk leaves incomplete are held back. */
module DecoderSpec {
  import opened Bytes
  import opened Chunks
  import opened Options
  import Utf8
  import Base64

  datatype Encoding = UTF8 | UTF16LE | BASE64

  /** `lastNeed`, `lastTotal` and `lastChar`. */
  datatype State = State(need: nat, total: nat, last: seq<Byte>) {
    ghost predicate Valid() { need <= total <= |last| }

    /** The bytes held back. */
    function Held(): seq<Byte>
      requires need <= total <= |last|
    {
      if need == 0 then [] else last[..total - need]
    }
  }

  /** UTF-16LE: a byte without a partner is dropped. */
  function Utf16le(b: seq<Byte>): seq<Unit> {
    if |b| < 2 then [] else [Wide(b[0], b[1])] + Utf16le(b[2..])
  }

  function Wide(low: nat, high: nat): nat { low + 256 * high }

  /** `toString(encoding)` of a buffer. */
  function ToText(e: Encoding, b: seq<Byte>): seq<Unit> {
    match e
    case UTF8 => Utf8.Decode(b)
    case UTF16LE => Utf16le(b)
    case BASE64 => Base64.Encode(b)
  }

  /** `from.copy(to, at)` where all of `from` fits. */
  function Copy(to: seq<Byte>, at: nat, from: seq<Byte>): (r: seq<Byte>)
    requires at + |from| <= |to|
    ensures |r| == |to|
    ensures r[..at] == to[..at] && r[at..at + |from|] == from
  {
    to[..at] + from + to[at + |from|..]
  }

  // Holding back.

  /** What a byte can be in UTF-8: the length of the character it starts (0 for ASCII), -1 for a
      continuation byte, -2 for no byte at all. */
  function ByteKind(b: Byte): int {
    if b <= 127 then 0
    else if b / 32 == 6 then 2
    else if b / 16 == 14 then 3
    else if b / 8 == 30 then 4
    else if Utf8.IsContinuation(b) then -1
    else -2
  }

  /** `utf8CheckIncomplete`: the length of the character that `b[r..]` ends in, and how many of its bytes
      are missing. */
  function CheckIncomplete(b: seq<Byte>, r: nat): (c: (nat, nat))
    ensures c.1 > 0 ==> 1 <= c.0 - c.1 <= 3 && c.0 <= 4 && r + (c.0 - c.1) <= |b|
  {
    if |b| < r + 1 then (0, 0)
    else
      var i := ByteKind(b[|b| - 1]);
      if i >= 0 then (i, if i > 0 then i - 1 else 0)
      else if |b| < r + 2 || i == -2 then (0, 0)
      else
        var i := ByteKind(b[|b| - 2]);
        if i >= 0 then (i, if i > 0 then i - 2 else 0)
        else if |b| < r + 3 || i == -2 then (0, 0)
        else
          var i := ByteKind(b[|b| - 3]);
          if i == 3 || i == 4 then (i, i - 3) else (0, 0)
  }

  /** `text`: decode `t[i..]` up to what has to be held back. */
  function Text(e: Encoding, s: State, t: seq<Byte>, i: nat): (r: (State, seq<Unit>))
    requires s.Valid() && s.need == 0 && |s.last| == (if e.BASE64? then 3 else 4) && i < |t|
    ensures r.0.Valid() && |r.0.last| == |s.last|
  {
    match e
    case UTF8 =>
      var (total, need) := CheckIncomplete(t, i);
      if need == 0 then (s, Utf8.Decode(t[i..]))
      else
        var n := |t| - (total - need);
        (State(need, total, Copy(s.last, 0, t[n..])), Utf8.Decode(t[i..n]))
    case UTF16LE =>
      if (|t| - i) % 2 == 0 then
        var r := Utf16le(t[i..]);
        if r != [] && Utf8.IsLead(r[|r| - 1]) then
          (State(2, 4, Copy(s.last, 0, t[|t| - 2..])), r[..|r| - 1])
        else (s, r)
      else (State(1, 2, Copy(s.last, 0, t[|t| - 1..])), Utf16le(t[i..|t| - 1]))
    case BASE64 =>
      var r := (|t| - i) % 3;
      if r == 0 then (s, Base64.Encode(t[i..]))
      else (State(3 - r, 3, Copy(s.last, 0, t[|t| - r..])), Base64.Encode(t[i..|t| - r]))
  }

  /** `utf8CheckExtraBytes`: the place of a byte that does not continue the character held back. */
  function CheckExtraBytes(need: nat, t: seq<Byte>): (c: Option<nat>)
    requires t != []
    ensures c.Some? ==> c.value < |t| && (c.value < need || c.value == 0)
  {
    if !Utf8.IsContinuation(t[0]) then Some(0)
    else if need > 1 && |t| > 1 && !Utf8.IsContinuation(t[1]) then Some(1)
    else if need > 2 && |t| > 2 && !Utf8.IsContinuation(t[2]) then Some(2)
    else None
  }

  /** `fillLast`: complete the character held back, if `t` is long enough. */
  function FillLast(e: Encoding, s: State, t: seq<Byte>): (r: (State, Option<seq<Unit>>))
    requires s.Valid() && s.need > 0 && t != []
    ensures r.0.Valid() && |r.0.last| == |s.last|
    ensures r.1.Some? ==> r.0.need <= |t|
  {
    var extra := if e.UTF8? then CheckExtraBytes(s.need, t) else None;
    if extra.Some? then (s.(need := extra.value), Some([Utf8.REPLACEMENT]))
    else if s.need <= |t| then
      var last := Copy(s.last, s.total - s.need, t[..s.need]);
      (s.(last := last), Some(ToText(e, last[..s.total])))
    else (State(s.need - |t|, s.total, Copy(s.last, s.total - s.need, t)), None)
  }

  predicate Sized(e: Encoding, s: State) { |s.last| == if e.BASE64? then 3 else 4 }

  function Write(e: Encoding, s: State, t: seq<Byte>): (r: (State, seq<Unit>))
    requires s.Valid() && Sized(e, s)
    ensures r.0.Valid() && Sized(e, r.0)
  {
    if t == [] then (s, [])
    else if s.need == 0 then Text(e, s, t, 0)
    else
      var (filled, x) := FillLast(e, s, t);
      match x
      case None => (filled, [])
      case Some(first) =>
        var i := filled.need;
        if i < |t| then
          var (next, rest) := Text(e, filled.(need := 0), t, i);
          (next, first + rest)
        else (filled.(need := 0), first)
  }

  /** What `end` adds after its last write. */
  function Finish(e: Encoding, s: State): seq<Unit>
    requires s.Valid()
  {
    if s.need == 0 then []
    else
      match e
      case UTF8 => [Utf8.REPLACEMENT]
      case _ => ToText(e, s.Held())
  }

  function Start(e: Encoding): State { State(0, 0, Zeros(if e.BASE64? then 3 else 4)) }

  /** The results of `write` on one chunk after the other, put together. */
  function WriteAll(e: Encoding, s: State, chunks: seq<seq<Byte>>): (r: (State, seq<Unit>))
    requires s.Valid() && Sized(e, s)
    ensures r.0.Valid() && Sized(e, r.0)
    decreases |chunks|
  {
    if chunks == [] then (s, [])
    else
      var (mid, x) := Write(e, s, chunks[0]);
      var (end, y) := WriteAll(e, mid, chunks[1..]);
      (end, x + y)
  }

  /** What a new decoder gives for the chunks, the text that `end` adds included. */
  function Streamed(e: Encoding, chunks: seq<seq<Byte>>): seq<Unit> {
    var (s, x) := WriteAll(e, Start(e), chunks);
    x + Finish(e, s)
  }

  // Base64 and UTF-16LE: what is written and what is held back make up everything given.

  /** The shapes that a held-back rest can have. */
  ghost predicate Fits(e: Encoding, s: State)
    requires e != UTF8
    ensures Fits(e, s) ==> s.Valid() && Sized(e, s)
  {
    && s.Valid() && Sized(e, s)
    && (s.need > 0 ==>
          if e.BASE64? then s.total == 3 && s.need < 3
          else (s.total == 2 && s.need == 1) || (s.total == 4 && s.need <= 2))
  }

  /** A piece that is a whole number of units of the encoding. */
  predicate Whole(e: Encoding, b: seq<Byte>) { |b| % (if e.BASE64? then 3 else 2) == 0 }

  lemma WholeSum(e: Encoding, a: seq<Byte>, b: seq<Byte>)
    ensures Whole(e, [])
    ensures Whole(e, a) && Whole(e, b) ==> Whole(e, a + b)
  {
    assert |a + b| == |a| + |b|;
    SumsOfMultiples(|a|, |b|);
  }

  lemma SumsOfMultiples(m: nat, n: nat)
    ensures m % 2 == 0 && n % 2 == 0 ==> (m + n) % 2 == 0
    ensures m % 3 == 0 && n % 3 == 0 ==> (m + n) % 3 == 0
  {
    if m % 2 == 0 && n % 2 == 0 {
      RemainderUnique(m + n, m / 2 + n / 2, 0, 2);
    }
    if m % 3 == 0 && n % 3 == 0 {
      RemainderUnique(m + n, m / 3 + n / 3, 0, 3);
    }
  }

  lemma Utf16leStep(b: seq<Byte>)
    ensures Utf16le(b) == if |b| < 2 then [] else [Wide(b[0], b[1])] + Utf16le(b[2..])
  {
  }

  lemma {:induction false} Utf16leSplitAt(a: seq<Byte>, b: seq<Byte>, k: nat)
    requires |a| == 2 * k
    ensures Utf16le(a + b) == Utf16le(a) + Utf16le(b)
    decreases k
  {
    hide Wide, Utf16le;
    Utf16leStep(a);
    if k == 0 {
      assert a + b == b;
    } else {
      Utf16leStep(a + b);
      assert (a + b)[2..] == a[2..] + b;
      Utf16leSplitAt(a[2..], b, k - 1);
    }
  }

  lemma Utf16leSplit(a: seq<Byte>, b: seq<Byte>)
    requires |a| % 2 == 0
    ensures Utf16le(a + b) == Utf16le(a) + Utf16le(b)
  {
    hide Utf16le;
    Utf16leSplitAt(a, b, |a| / 2);
  }

  lemma ToTextSplit(e: Encoding, a: seq<Byte>, b: seq<Byte>)
    requires e != UTF8 && Whole(e, a)
    ensures ToText(e, a + b) == ToText(e, a) + ToText(e, b)
  {
    hide Base64.Encode, Utf16le;
    if e.BASE64? {
      Base64.EncodeSplit(a, b);
    } else {
      Utf16leSplit(a, b);
    }
  }

  lemma CopiedFront(last: seq<Byte>, from: seq<Byte>)
    requires |from| <= |last|
    ensures Copy(last, 0, from)[..|from|] == from
  {
  }

  lemma TextOfBase64(s: State, t: seq<Byte>, i: nat) returns (done: seq<Byte>)
    requires Fits(BASE64, s) && s.need == 0 && i < |t|
    ensures var (next, x) := Text(BASE64, s, t, i);
            Fits(BASE64, next) && Whole(BASE64, done) && t[i..] == done + next.Held() && x == ToText(BASE64, done)
  {
    hide Base64.Encode, Copy;
    var r := (|t| - i) % 3;
    var n := |t| - r;
    assert (n - i) % 3 == 0;
    done := t[i..n];
    CopiedFront(s.last, t[n..]);
    assert t[i..] == t[i..n] + t[n..];
    if r == 0 {
      assert t[i..] == done;
    }
  }

  lemma LastUnit(b: seq<Byte>)
    requires |b| % 2 == 0 && |b| >= 2
    ensures var r := Utf16le(b); r != [] && r[..|r| - 1] == Utf16le(b[..|b| - 2])
  {
    hide Wide;
    assert b[..|b| - 2] + b[|b| - 2..] == b;
    Utf16leSplit(b[..|b| - 2], b[|b| - 2..]);
    assert |Utf16le(b[|b| - 2..])| == 1;
  }

  /** How many bytes at the end of `t[i..]` are held back in UTF-16LE: a half unit, or a lead surrogate. */
  function HeldInUtf16le(t: seq<Byte>, i: nat): (k: nat)
    requires i < |t|
    ensures k <= 2
  {
    if (|t| - i) % 2 != 0 then 1
    else
      var r := Utf16le(t[i..]);
      if r != [] && Utf8.IsLead(r[|r| - 1]) then 2 else 0
  }

  lemma TextUtf16leValue(s: State, t: seq<Byte>, i: nat)
    requires Fits(UTF16LE, s) && s.need == 0 && i < |t|
    ensures var k := HeldInUtf16le(t, i);
            && i + k <= |t| && (|t| - i - k) % 2 == 0
            && Text(UTF16LE, s, t, i) ==
                 (if k == 0 then s else State(k, 2 * k, Copy(s.last, 0, t[|t| - k..])), Utf16le(t[i..|t| - k]))
  {
    hide Utf16le, Copy, Fits;
    var b := t[i..];
    if |b| % 2 == 0 {
      LastUnit(b);
      assert b[..|b| - 2] == t[i..|t| - 2];
      assert b == t[i..|t| - 0];
    }
  }

  lemma TextOfUtf16le(s: State, t: seq<Byte>, i: nat) returns (done: seq<Byte>)
    requires Fits(UTF16LE, s) && s.need == 0 && i < |t|
    ensures var (next, x) := Text(UTF16LE, s, t, i);
            Fits(UTF16LE, next) && Whole(UTF16LE, done) && t[i..] == done + next.Held() && x == ToText(UTF16LE, done)
  {
    hide Utf16le, Copy, Text, HeldInUtf16le;
    TextUtf16leValue(s, t, i);
    var n := |t| - HeldInUtf16le(t, i);
    done := t[i..n];
    CopiedFront(s.last, t[n..]);
    assert t[i..] == t[i..n] + t[n..];
  }

  /** `fillLast` where nothing is wrong with the next bytes. */
  lemma FillLastValue(e: Encoding, s: State, t: seq<Byte>)
    requires s.Valid() && s.need > 0 && t != [] && (e.UTF8? ==> CheckExtraBytes(s.need, t).None?)
    ensures s.need <= |t| ==>
              var last := Copy(s.last, s.total - s.need, t[..s.need]);
              FillLast(e, s, t) == (s.(last := last), Some(ToText(e, last[..s.total])))
    ensures s.need > |t| ==>
              FillLast(e, s, t) == (State(s.need - |t|, s.total, Copy(s.last, s.total - s.need, t)), None)
  {
    hide ToText, CheckExtraBytes;
  }

  /** The bytes held back and enough of the next ones. */
  lemma FillSplitsWhole(e: Encoding, s: State, t: seq<Byte>)
    requires e != UTF8 && Fits(e, s) && 0 < s.need <= |t|
    ensures var (filled, x) := FillLast(e, s, t);
            && filled.need == s.need && Fits(e, filled.(need := 0))
            && Whole(e, s.Held() + t[..s.need]) && x == Some(ToText(e, s.Held() + t[..s.need]))
  {
    hide ToText, Copy, Fits, Whole, FillLast;
    var a, last := s.total - s.need, Copy(s.last, s.total - s.need, t[..s.need]);
    FillLastValue(e, s, t);
    CopiedAfter(s.last, a, t[..s.need]);
    FitsFilled(e, s, last, s.Held() + t[..s.need]);
  }

  /** The bytes held back and too few more. */
  lemma FillSplitsPart(e: Encoding, s: State, t: seq<Byte>)
    requires e != UTF8 && Fits(e, s) && s.need > |t| > 0
    ensures var (filled, x) := FillLast(e, s, t); x == None && Fits(e, filled) && s.Held() + t == filled.Held()
  {
    hide ToText, Copy, Fits, Whole, FillLast;
    var a, last := s.total - s.need, Copy(s.last, s.total - s.need, t);
    FillLastValue(e, s, t);
    CopiedAfter(s.last, a, t);
    FitsMore(e, s, |t|, last);
  }

  lemma FillSplits(e: Encoding, s: State, t: seq<Byte>)
    requires e != UTF8 && Fits(e, s) && s.need > 0 && t != []
    ensures var (filled, x) := FillLast(e, s, t);
            && (x.None? ==> Fits(e, filled) && s.Held() + t == filled.Held())
            && (x.Some? ==>
                  && filled.need <= |t| && Fits(e, filled.(need := 0))
                  && Whole(e, s.Held() + t[..filled.need]) && x.value == ToText(e, s.Held() + t[..filled.need]))
  {
    hide ToText, Copy, Fits, Whole, FillLast;
    if s.need <= |t| {
      FillSplitsWhole(e, s, t);
    } else {
      FillSplitsPart(e, s, t);
    }
  }

  lemma FitsFilled(e: Encoding, s: State, last: seq<Byte>, b: seq<Byte>)
    requires e != UTF8 && Fits(e, s) && s.need > 0 && |last| == |s.last| && |b| == s.total
    ensures Fits(e, s.(need := 0, last := last)) && Whole(e, b)
  {
  }

  lemma FitsMore(e: Encoding, s: State, n: nat, last: seq<Byte>)
    requires e != UTF8 && Fits(e, s) && 0 < n < s.need && |last| == |s.last|
    ensures Fits(e, State(s.need - n, s.total, last))
  {
  }

  lemma CopiedAfter(last: seq<Byte>, at: nat, from: seq<Byte>)
    requires at + |from| <= |last|
    ensures Copy(last, at, from)[..at + |from|] == last[..at] + from
  {
  }

  lemma TextSplits(e: Encoding, s: State, t: seq<Byte>, i: nat) returns (done: seq<Byte>)
    requires e != UTF8 && Fits(e, s) && s.need == 0 && i < |t|
    ensures var (next, x) := Text(e, s, t, i);
            Fits(e, next) && Whole(e, done) && t[i..] == done + next.Held() && x == ToText(e, done)
  {
    hide ToText, Text;
    if e.BASE64? {
      done := TextOfBase64(s, t, i);
    } else {
      done := TextOfUtf16le(s, t, i);
    }
  }

  /** One `write`. */
  lemma WriteSplits(e: Encoding, s: State, t: seq<Byte>) returns (done: seq<Byte>)
    requires e != UTF8 && Fits(e, s)
    ensures var (next, x) := Write(e, s, t);
            Fits(e, next) && Whole(e, done) && s.Held() + t == done + next.Held() && x == ToText(e, done)
  {
    hide Text, ToText, FillLast, Whole;
    done := [];
    EmptyText(e);
    WholeSum(e, [], []);
    if t == [] {
      assert s.Held() + t == [] + s.Held();
    } else if s.need == 0 {
      done := TextSplits(e, s, t, 0);
      assert t[0..] == t == s.Held() + t;
    } else {
      FillSplits(e, s, t);
      var (filled, x) := FillLast(e, s, t);
      if x.None? {
        assert [] + filled.Held() == filled.Held();
      } else {
        done := AfterFill(e, s.Held(), filled, t);
      }
    }
  }

  lemma AfterFill(e: Encoding, held: seq<Byte>, filled: State, t: seq<Byte>) returns (done: seq<Byte>)
    requires e != UTF8 && filled.need <= |t| && Fits(e, filled.(need := 0))
    requires Whole(e, held + t[..filled.need])
    ensures var i, base := filled.need, filled.(need := 0);
            var (next, x) := if i < |t| then Text(e, base, t, i) else (base, []);
            && Fits(e, next) && Whole(e, done) && held + t == done + next.Held()
            && ToText(e, held + t[..i]) + x == ToText(e, done)
  {
    hide Text, ToText, Whole;
    var i, base := filled.need, filled.(need := 0);
    var front := held + t[..i];
    EmptyText(e);
    assert held + t == front + t[i..];
    if i < |t| {
      var next := Text(e, base, t, i).0;
      var rest := TextSplits(e, base, t, i);
      ToTextSplit(e, front, rest);
      WholeSum(e, front, rest);
      done := front + rest;
      assert front + (rest + next.Held()) == done + next.Held();
    } else {
      done := front;
      assert base.Held() == [] && t[i..] == [];
    }
  }

  lemma EmptyText(e: Encoding)
    ensures ToText(e, []) == []
  {
  }

  lemma Regroup<T>(h: seq<T>, c: seq<T>, f: seq<T>, first: seq<T>, mid: seq<T>, rest: seq<T>, end: seq<T>)
    requires h + c == first + mid && mid + f == rest + end
    ensures h + (c + f) == (first + rest) + end
  {
    assert h + (c + f) == (h + c) + f == first + (mid + f);
  }

  lemma {:induction false} WriteAllSplits(e: Encoding, s: State, chunks: seq<seq<Byte>>) returns (done: seq<Byte>)
    requires e != UTF8 && Fits(e, s)
    ensures var (next, x) := WriteAll(e, s, chunks);
            && Fits(e, next) && Whole(e, done)
            && s.Held() + Flatten(chunks) == done + next.Held() && x == ToText(e, done)
    decreases |chunks|
  {
    hide ToText, Write, Whole, Fits;
    EmptyText(e);
    WholeSum(e, [], []);
    if chunks == [] {
      done := [];
    } else {
      var first := WriteSplits(e, s, chunks[0]);
      var mid := Write(e, s, chunks[0]).0;
      var rest := WriteAllSplits(e, mid, chunks[1..]);
      done := first + rest;
      WholeSum(e, first, rest);
      ToTextSplit(e, first, rest);
      var end := WriteAll(e, mid, chunks[1..]).0;
      Regroup(s.Held(), chunks[0], Flatten(chunks[1..]), first, mid.Held(), rest, end.Held());
    }
  }

  /** Base64 and UTF-16LE: for every byte sequence, however it is cut, the results of `write` and `end`
      together are the text of the whole. */
  lemma ChunksMeanWhole(e: Encoding, chunks: seq<seq<Byte>>)
    requires e != UTF8
    ensures Streamed(e, chunks) == ToText(e, Flatten(chunks))
  {
    hide ToText, WriteAll;
    var done := WriteAllSplits(e, Start(e), chunks);
    var (s, x) := WriteAll(e, Start(e), chunks);
    ToTextSplit(e, done, s.Held());
    EmptyText(e);
    assert Start(e).Held() + Flatten(chunks) == Flatten(chunks);
  }

  // What the text is, and what is held back, spelled out.

  /** Unit `j` of UTF-16LE is made of bytes `2 * j`, the low one, and `2 * j + 1`. */
  ghost predicate IsUtf16le(b: seq<Byte>, x: seq<Unit>) {
    2 * |x| <= |b| <= 2 * |x| + 1 && forall j :: 0 <= j < |x| ==> x[j] == b[2 * j] as int + 256 * (b[2 * j + 1] as int)
  }

  lemma {:induction false} TextIsUtf16le(b: seq<Byte>)
    ensures IsUtf16le(b, ToText(UTF16LE, b))
    decreases |b|
  {
    hide Wide, Utf16le;
    Utf16leStep(b);
    if |b| >= 2 {
      var rest := b[2..];
      TextIsUtf16le(rest);
      WideIs(b[0], b[1]);
      forall j | 0 < j < |Utf16le(b)|
        ensures Utf16le(b)[j] == b[2 * j] as int + 256 * (b[2 * j + 1] as int)
      {
        assert Utf16le(b)[j] == Utf16le(rest)[j - 1];
        assert rest[2 * (j - 1)] == b[2 * j] && rest[2 * (j - 1) + 1] == b[2 * j + 1];
      }
    }
  }

  lemma WideIs(low: Byte, high: Byte)
    ensures Wide(low, high) == low as int + 256 * (high as int)
  {
  }

  /** How many bytes at the end of `t[i..]` a `write` holds back: those that do not fill three in base64, an odd one in
      UTF-16LE, or there a lead surrogate. */
  function Rest(e: Encoding, t: seq<Byte>, i: nat): (h: nat)
    requires e != UTF8 && i < |t|
    ensures h <= |t| - i
  {
    var n := |t| - i;
    if e.BASE64? then n % 3
    else if n % 2 == 1 then 1
    else if 0xd8 <= t[|t| - 1] <= 0xdb then 2 else 0
  }

  /** With nothing held so far, exactly that rest is held back and all before it comes out. */
  lemma TextHoldsRest(e: Encoding, s: State, t: seq<Byte>, i: nat)
    requires e != UTF8 && Fits(e, s) && s.need == 0 && i < |t|
    ensures var (next, x) := Text(e, s, t, i);
            var n := |t| - Rest(e, t, i);
            Fits(e, next) && next.Held() == t[n..] && x == ToText(e, t[i..n])
  {
    hide Base64.Encode, Utf16le, Copy;
    var h := Rest(e, t, i);
    var done := TextSplits(e, s, t, i);
    CopiedFront(s.last, t[|t| - h..]);
    assert h == 0 ==> t[i..|t| - h] == t[i..] && t[|t| - h..] == [];
    if e.UTF16LE? {
      LeadIsHighByte(t, i);
      TextUtf16leValue(s, t, i);
      hide Text;
    }
  }

  lemma LeadIsHighByte(t: seq<Byte>, i: nat)
    requires i < |t|
    ensures HeldInUtf16le(t, i) == Rest(UTF16LE, t, i)
  {
    var b := t[i..];
    if |b| % 2 == 0 {
      TextIsUtf16le(b);
      assert b[|b| - 2] as int + 256 * (b[|b| - 1] as int) == Utf16le(b)[|b| / 2 - 1];
    }
  }

  /** Whatever was written before: in base64 the bytes held back are those behind the last full three, in UTF-16LE there
      are three at most. */
  lemma HeldIsRest(e: Encoding, chunks: seq<seq<Byte>>)
    requires e != UTF8
    ensures var (s, x) := WriteAll(e, Start(e), chunks);
            var b, h := Flatten(chunks), |s.Held()|;
            && h <= |b| && s.Held() == b[|b| - h..] && x == ToText(e, b[..|b| - h])
            && if e.BASE64? then h == |b| % 3 else h <= 3 && h % 2 == |b| % 2
  {
    hide ToText, WriteAll;
    var done := WriteAllSplits(e, Start(e), chunks);
    var (s, x) := WriteAll(e, Start(e), chunks);
    assert Start(e).Held() + Flatten(chunks) == Flatten(chunks);
    assert Flatten(chunks)[..|done|] == done;
    RestOfSum(|done|, |s.Held()|);
  }

  lemma RestOfSum(m: nat, n: nat)
    ensures m % 3 == 0 && n < 3 ==> (m + n) % 3 == n
    ensures m % 2 == 0 ==> (m + n) % 2 == n % 2
  {
    if m % 3 == 0 && n < 3 {
      RemainderUnique(m + n, m / 3, n, 3);
    }
    if m % 2 == 0 {
      RemainderUnique(m + n, m / 2 + n / 2, n % 2, 2);
    }
  }
}
