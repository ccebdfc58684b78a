/** UTF-8 encoding (`q`) and decoding (`N`) of strings of UTF-16 units, after section 3 of RFC 3629.
    Shifts and masks of disjoint bit fields are written as quotients, remainders and sums. */
module Utf8 {
  import opened Bytes
  import opened Options

  /** A Unicode scalar value: a code point that is not a surrogate. */
  type Scalar = c: nat | c < 0xd800 || 0xe000 <= c < 0x11_0000

  const REPLACEMENT: Scalar := 0xfffd

  predicate IsLead(u: nat) { 0xd800 <= u < 0xdc00 }

  predicate IsTrail(u: nat) { 0xdc00 <= u < 0xe000 }

  function Combine(lead: Unit, trail: Unit): Scalar
    requires IsLead(lead) && IsTrail(trail)
  {
    0x1_0000 + (lead - 0xd800) * 0x400 + (trail - 0xdc00)
  }

  // What the two directions mean.

  function EncodeScalar(c: Scalar): (s: seq<Byte>)
    ensures 1 <= |s| <= 4
  {
    if c < 0x80 then [c]
    else if c < 0x800 then [c / 0x40 + 0xc0, c % 0x40 + 0x80]
    else if c < 0x1_0000 then [c / 0x1000 + 0xe0, c / 0x40 % 0x40 + 0x80, c % 0x40 + 0x80]
    else [c / 0x4_0000 + 0xf0, c / 0x1000 % 0x40 + 0x80, c / 0x40 % 0x40 + 0x80, c % 0x40 + 0x80]
  }

  function EncodeAll(cs: seq<Scalar>): seq<Byte> {
    if cs == [] then [] else EncodeScalar(cs[0]) + EncodeAll(cs[1..])
  }

  function UnitsOf(c: Scalar): (s: seq<Unit>)
    ensures 1 <= |s| <= 2
  {
    if c < 0x1_0000 then [c] else [(c - 0x1_0000) / 0x400 + 0xd800, (c - 0x1_0000) % 0x400 + 0xdc00]
  }

  function UnitsOfAll(cs: seq<Scalar>): seq<Unit> {
    if cs == [] then [] else UnitsOf(cs[0]) + UnitsOfAll(cs[1..])
  }

  /** A surrogate without its partner. */
  predicate IsLone(s: seq<Unit>, k: nat)
    requires k < |s|
  {
    || (IsLead(s[k]) && !(k + 1 < |s| && IsTrail(s[k + 1])))
    || (IsTrail(s[k]) && !(k > 0 && IsLead(s[k - 1])))
  }

  predicate IsWellFormed(s: seq<Unit>) { forall k :: 0 <= k < |s| ==> !IsLone(s, k) }

  /** The string with each lone surrogate replaced by U+FFFD. */
  function Repair(s: seq<Unit>): seq<Unit> {
    seq(|s|, k requires 0 <= k < |s| => if IsLone(s, k) then REPLACEMENT else s[k])
  }

  /** The scalar values of a string, U+FFFD for each lone surrogate. */
  function Scalars(s: seq<Unit>): seq<Scalar>
    decreases |s|
  {
    if s == [] then []
    else if IsLead(s[0]) && |s| > 1 && IsTrail(s[1]) then [Combine(s[0], s[1])] + Scalars(s[2..])
    else [if IsLead(s[0]) || IsTrail(s[0]) then REPLACEMENT else s[0]] + Scalars(s[1..])
  }

  lemma UnitsOfPair(lead: Unit, trail: Unit)
    requires IsLead(lead) && IsTrail(trail)
    ensures UnitsOf(Combine(lead, trail)) == [lead, trail]
  {
  }

  lemma RepairOfPair(s: seq<Unit>)
    requires |s| > 1 && IsLead(s[0]) && IsTrail(s[1])
    ensures Repair(s) == [s[0], s[1]] + Repair(s[2..])
  {
  }

  lemma RepairOfSingle(s: seq<Unit>)
    requires s != [] && !(IsLead(s[0]) && |s| > 1 && IsTrail(s[1]))
    ensures Repair(s) == [if IsLead(s[0]) || IsTrail(s[0]) then REPLACEMENT else s[0]] + Repair(s[1..])
  {
  }

  lemma {:induction false} UnitsOfScalars(s: seq<Unit>)
    ensures UnitsOfAll(Scalars(s)) == Repair(s)
    decreases |s|
  {
    if s == [] {
      return;
    }
    hide Repair, Combine;
    if IsLead(s[0]) && |s| > 1 && IsTrail(s[1]) {
      UnitsOfScalars(s[2..]);
      UnitsOfPair(s[0], s[1]);
      RepairOfPair(s);
    } else {
      UnitsOfScalars(s[1..]);
      RepairOfSingle(s);
    }
  }

  // Decoding.

  predicate IsContinuation(b: Byte) { b / 0x40 == 2 }

  /** The length that a first byte announces. */
  function Announced(b: Byte): (n: nat)
    ensures 1 <= n <= 4
  {
    if b > 239 then 4 else if b > 223 then 3 else if b > 191 then 2 else 1
  }

  function Join2(a: nat, b: nat): nat { a % 0x20 * 0x40 + b % 0x40 }

  function Join3(a: nat, b: nat, c: nat): nat { a % 0x10 * 0x1000 + b % 0x40 * 0x40 + c % 0x40 }

  function Join4(a: nat, b: nat, c: nat, d: nat): nat {
    a % 0x10 * 0x4_0000 + b % 0x40 * 0x1000 + c % 0x40 * 0x40 + d % 0x40
  }

  /** The character at the head of `b`, if it is well formed. */
  function DecodeHead(b: seq<Byte>): Option<Scalar>
    requires b != []
  {
    var n := Announced(b[0]);
    if n > |b| then None
    else if n == 1 then
      if b[0] < 128 then Some(b[0]) else None
    else if n == 2 then
      if IsContinuation(b[1]) && Join2(b[0], b[1]) > 0x7f then Some(Join2(b[0], b[1])) else None
    else if n == 3 then
      var c := Join3(b[0], b[1], b[2]);
      if IsContinuation(b[1]) && IsContinuation(b[2]) && c > 0x7ff && (c < 0xd800 || c > 0xdfff)
      then Some(c) else None
    else
      var c := Join4(b[0], b[1], b[2], b[3]);
      if IsContinuation(b[1]) && IsContinuation(b[2]) && IsContinuation(b[3]) && 0xffff < c < 0x11_0000
      then Some(c) else None
  }

  /** The result of `N` on a whole buffer: a byte that starts no character gives U+FFFD. */
  function Decode(b: seq<Byte>): seq<Unit>
    decreases |b|
  {
    if b == [] then []
    else
      match DecodeHead(b)
      case Some(c) => UnitsOf(c) + Decode(b[Announced(b[0])..])
      case None => [REPLACEMENT] + Decode(b[1..])
  }

  lemma TwoBytes(c: nat)
    requires 0x80 <= c < 0x800
    ensures var (a, b) := (c / 0x40 + 0xc0, c % 0x40 + 0x80);
            191 < a <= 223 && b / 0x40 == 2 && Join2(a, b) == c
  {
  }

  lemma ThreeBytes(c: nat)
    requires 0x800 <= c < 0x1_0000
    ensures var (x, y, z) := (c / 0x1000 + 0xe0, c / 0x40 % 0x40 + 0x80, c % 0x40 + 0x80);
            223 < x <= 239 && y / 0x40 == 2 && z / 0x40 == 2 && Join3(x, y, z) == c
  {
    var m := c / 0x40;
    assert c / 0x1000 == m / 0x40 < 0x10;
  }

  lemma ThreeSixBitFields(m: nat)
    requires m < 0x4400
    ensures m == m / 0x1000 * 0x1000 + m / 0x40 % 0x40 * 0x40 + m % 0x40
    ensures m / 0x1000 < 5
  {
  }

  lemma FourBytes(c: nat)
    requires 0x1_0000 <= c < 0x11_0000
    ensures var (w, x, y, z) :=
              (c / 0x4_0000 + 0xf0, c / 0x1000 % 0x40 + 0x80, c / 0x40 % 0x40 + 0x80, c % 0x40 + 0x80);
            239 < w < 256 && x / 0x40 == 2 && y / 0x40 == 2 && z / 0x40 == 2 && Join4(w, x, y, z) == c
  {
    var m := c / 0x40;
    assert c / 0x1000 == m / 0x40 && c / 0x4_0000 == m / 0x1000;
    ThreeSixBitFields(m);
  }

  lemma HeadOfEncoding(c: Scalar, rest: seq<Byte>)
    ensures var b := EncodeScalar(c) + rest;
            Announced(b[0]) == |EncodeScalar(c)| && DecodeHead(b) == Some(c)
  {
    hide Join2, Join3, Join4;
    if 0x80 <= c < 0x800 {
      TwoBytes(c);
    } else if 0x800 <= c < 0x1_0000 {
      ThreeBytes(c);
    } else if 0x1_0000 <= c {
      FourBytes(c);
    }
  }

  lemma {:induction false} DecodeEncoded(cs: seq<Scalar>, rest: seq<Byte>)
    ensures Decode(EncodeAll(cs) + rest) == UnitsOfAll(cs) + Decode(rest)
    decreases |cs|
  {
    hide EncodeScalar, DecodeHead, UnitsOf, Announced;
    if cs == [] {
      assert EncodeAll(cs) + rest == rest;
    } else {
      var b := EncodeScalar(cs[0]) + (EncodeAll(cs[1..]) + rest);
      HeadOfEncoding(cs[0], EncodeAll(cs[1..]) + rest);
      DecodeEncoded(cs[1..], rest);
      assert EncodeAll(cs) + rest == b;
      assert b[|EncodeScalar(cs[0])|..] == EncodeAll(cs[1..]) + rest;
    }
  }

  // Encoding.

  /** What the encoder's loop reads at the start of `s`, when no lead surrogate is pending. */
  function Read(s: seq<Unit>): seq<Scalar>
    decreases |s|
  {
    if s == [] then []
    else if IsTrail(s[0]) then [REPLACEMENT] + Read(s[1..])
    else if IsLead(s[0]) then
      if |s| == 1 then [REPLACEMENT] else ReadPending(s[0], s[1..])
    else [s[0]] + Read(s[1..])
  }

  /** The same with a pending lead surrogate, which is lost if nothing follows. */
  function ReadPending(lead: Unit, s: seq<Unit>): seq<Scalar>
    requires IsLead(lead)
    decreases |s|
  {
    if s == [] then []
    else if IsTrail(s[0]) then [Combine(lead, s[0])] + Read(s[1..])
    else if IsLead(s[0]) then [REPLACEMENT] + ReadPending(s[0], s[1..])
    else [REPLACEMENT, s[0]] + Read(s[1..])
  }

  predicate EndsInTwoLeads(s: seq<Unit>) {
    |s| >= 2 && IsLead(s[|s| - 2]) && IsLead(s[|s| - 1])
  }

  /** The part of a string that the encoder does not lose. */
  function Kept(s: seq<Unit>): seq<Unit> {
    if EndsInTwoLeads(s) then s[..|s| - 1] else s
  }

  lemma {:induction false} ReadIsScalars(s: seq<Unit>)
    ensures Read(s) == Scalars(Kept(s))
    decreases |s|, 1
  {
    if s != [] {
      if IsLead(s[0]) && |s| > 1 {
        ReadPendingIsScalars(s);
      } else {
        ReadIsScalars(s[1..]);
        assert |s| > 1 ==> Kept(s)[1..] == Kept(s[1..]);
      }
    }
  }

  lemma KeptSuffix(s: seq<Unit>, i: nat)
    requires i <= |s| && (|s| - i < 2 ==> !EndsInTwoLeads(s))
    ensures i <= |Kept(s)| && Kept(s)[i..] == Kept(s[i..])
  {
    if |s| - i >= 2 {
      assert s[i..][|s| - i - 2] == s[|s| - 2] && s[i..][|s| - i - 1] == s[|s| - 1];
    }
  }

  lemma {:induction false} ReadPendingIsScalars(s: seq<Unit>)
    requires |s| > 1 && IsLead(s[0])
    ensures ReadPending(s[0], s[1..]) == Scalars(Kept(s))
    decreases |s|, 0
  {
    hide Combine, Kept;
    assert s[1..][1..] == s[2..];
    if IsLead(s[1]) && |s| == 2 {
      assert Kept(s) == [s[0]] by {
        LeadsAlone(s);
      }
    } else if IsLead(s[1]) {
      KeptSuffix(s, 1);
      KeptFront(s);
      ReadPendingIsScalars(s[1..]);
    } else {
      KeptSuffix(s, 2);
      KeptFront(s);
      ReadIsScalars(s[2..]);
      assert Kept(s)[1..][1..] == Kept(s)[2..];
    }
  }

  lemma LeadsAlone(s: seq<Unit>)
    requires |s| == 2 && IsLead(s[0]) && IsLead(s[1])
    ensures Kept(s) == [s[0]]
  {
  }

  lemma KeptFront(s: seq<Unit>)
    ensures forall i :: 0 <= i < |Kept(s)| ==> Kept(s)[i] == s[i]
    ensures |s| - 1 <= |Kept(s)| <= |s|
  {
  }

  // The byte budget. A budget of zero means none.

  /** The encodings of the scalars at the front that fit, given what is left of the budget. */
  function Fit(limited: bool, left: int, cs: seq<Scalar>): seq<Byte>
    decreases |cs|
  {
    if cs == [] then []
    else
      var e := EncodeScalar(cs[0]);
      if limited && left < |e| then [] else e + Fit(limited, left - |e|, cs[1..])
  }

  lemma {:induction false} FitUnlimited(left: int, cs: seq<Scalar>)
    ensures Fit(false, left, cs) == EncodeAll(cs)
    decreases |cs|
  {
    hide EncodeScalar;
    if cs != [] {
      FitUnlimited(left - |EncodeScalar(cs[0])|, cs[1..]);
    }
  }

  /** With a budget, the output is the encoding of the longest prefix that fits. */
  lemma {:induction false} FitIsLongestPrefix(left: nat, cs: seq<Scalar>) returns (m: nat)
    ensures m <= |cs| && Fit(true, left, cs) == EncodeAll(cs[..m])
    ensures |EncodeAll(cs[..m])| <= left
    ensures forall j :: m < j <= |cs| ==> |EncodeAll(cs[..j])| > left
    decreases |cs|
  {
    hide EncodeScalar;
    if cs == [] || left < |EncodeScalar(cs[0])| {
      m := 0;
      forall j | 0 < j <= |cs|
        ensures |EncodeAll(cs[..j])| > left
      {
      }
    } else {
      var l := left - |EncodeScalar(cs[0])|;
      m := FitIsLongestPrefix(l, cs[1..]);
      m := m + 1;
      assert cs[..m][1..] == cs[1..][..m - 1];
      forall j | m < j <= |cs|
        ensures |EncodeAll(cs[..j])| > left
      {
        assert cs[..j][1..] == cs[1..][..j - 1];
      }
    }
  }

  /** The result of `q`. */
  function Encode(s: seq<Unit>, budget: nat): seq<Byte> { Fit(budget != 0, budget, Scalars(Kept(s))) }

  ghost function ReadFrom(i: Option<Unit>, s: seq<Unit>): seq<Scalar>
    requires i.Some? ==> IsLead(i.value)
  {
    if i.None? then Read(s) else ReadPending(i.value, s)
  }

  lemma ReadStep(i: Option<Unit>, s: seq<Unit>)
    requires s != [] && (i.Some? ==> IsLead(i.value))
    ensures var (u, rest) := (s[0], s[1..]);
            ReadFrom(i, s) ==
              if IsTrail(u) then [if i.None? then REPLACEMENT else Combine(i.value, u)] + ReadFrom(None, rest)
              else if IsLead(u) then
                if i.Some? then [REPLACEMENT] + ReadFrom(Some(u), rest)
                else if rest == [] then [REPLACEMENT] + ReadFrom(None, rest)
                else ReadFrom(Some(u), rest)
              else if i.Some? then [REPLACEMENT] + ([u] + ReadFrom(None, rest))
              else [u] + ReadFrom(None, rest)
  {
  }

  /** `(e -= 3) > -1 && o.push(239, 191, 189)` */
  method Push(limited: bool, left: int, o: seq<Byte>, ghost rest: seq<Scalar>) returns (e: int, p: seq<Byte>)
    ensures e == left - 3
    ensures p == if limited && e < 0 then o else o + EncodeScalar(REPLACEMENT)
    ensures o + Fit(limited, left, [REPLACEMENT] + rest) == p + Fit(limited, e, rest)
  {
    e, p := left - 3, o;
    if !limited || e > -1 {
      p := p + [239, 191, 189];
    }
  }

  /** The bytes of a character, if the budget allows them. */
  method Append(limited: bool, left: int, o: seq<Byte>, c: Scalar, ghost rest: seq<Scalar>)
    returns (e: int, p: seq<Byte>, fits: bool)
    ensures fits ==> o + Fit(limited, left, [c] + rest) == p + Fit(limited, e, rest)
    ensures !fits ==> o + Fit(limited, left, [c] + rest) == p
  {
    hide EncodeScalar;
    e := left - (if c < 128 then 1 else if c < 2048 then 2 else if c < 65536 then 3 else 4);
    fits := !(limited && e < 0);
    p := o;
    SizeOfEncoding(c);
    if fits {
      p := o + EncodeScalar(c);
    }
  }

  lemma SizeOfEncoding(c: Scalar)
    ensures |EncodeScalar(c)| == if c < 128 then 1 else if c < 2048 then 2 else if c < 65536 then 3 else 4
  {
  }

  /** The loop of `q`. */
  method EncodeLoop(s: seq<Unit>, budget: nat) returns (o: seq<Byte>)
    ensures o == Encode(s, budget)
  {
    ReadIsScalars(s);
    hide EncodeScalar, Kept, Fit, Combine, Read, ReadPending, Scalars;
    var limited := budget != 0;
    var e: int := budget;
    var i: Option<Unit> := None;
    o := [];
    var k, fits := 0, true;
    while k < |s| && fits
      invariant k <= |s|
      invariant i.Some? ==> IsLead(i.value)
      invariant fits ==> o + Fit(limited, e, ReadFrom(i, s[k..])) == Fit(limited, budget, Read(s))
      invariant !fits ==> o == Fit(limited, budget, Read(s))
    {
      var r := s[k];
      ReadStep(i, s[k..]);
      assert s[k..][1..] == s[k + 1..];
      k := k + 1;
      if IsLead(r) && i.None? && k != |s| {
        i := Some(r);
      } else if IsLead(r) && i.Some? {
        e, o := Push(limited, e, o, ReadFrom(Some(r), s[k..]));
        i := Some(r);
      } else if (IsLead(r) || IsTrail(r)) && i.None? {
        e, o := Push(limited, e, o, ReadFrom(None, s[k..]));
      } else {
        var c: Scalar;
        if IsTrail(r) {
          c := Combine(i.value, r);
        } else {
          c := r;
          if i.Some? {
            e, o := Push(limited, e, o, [c] + ReadFrom(None, s[k..]));
          }
        }
        i := None;
        e, o, fits := Append(limited, e, o, c, ReadFrom(None, s[k..]));
      }
    }
    if fits {
      NothingToRead(i, s[k..], limited, e);
    }
  }

  lemma NothingToRead(i: Option<Unit>, s: seq<Unit>, limited: bool, left: int)
    requires s == [] && (i.Some? ==> IsLead(i.value))
    ensures Fit(limited, left, ReadFrom(i, s)) == []
  {
  }

  /** The `switch` of `N`. */
  method DecodeAt(b: seq<Byte>, i: nat, r: nat) returns (o: Option<Scalar>)
    requires i < r <= |b|
    ensures o == DecodeHead(b[i..r])
  {
    var s := Announced(b[i]);
    o := None;
    if i + s <= r {
      match s
      case 1 => if b[i] < 128 { o := Some(b[i]); }
      case 2 =>
        var a := Join2(b[i], b[i + 1]);
        if IsContinuation(b[i + 1]) && a > 127 { o := Some(a); }
      case 3 =>
        var a := Join3(b[i], b[i + 1], b[i + 2]);
        if IsContinuation(b[i + 1]) && IsContinuation(b[i + 2]) && a > 2047 && (a < 55296 || a > 57343) {
          o := Some(a);
        }
      case _ =>
        var a := Join4(b[i], b[i + 1], b[i + 2], b[i + 3]);
        if IsContinuation(b[i + 1]) && IsContinuation(b[i + 2]) && IsContinuation(b[i + 3])
           && a > 65535 && a < 1114112 {
          o := Some(a);
        }
    }
  }

  method PushUnits(n: seq<Unit>, c: Scalar) returns (m: seq<Unit>)
    ensures m == n + UnitsOf(c)
  {
    var o: nat := c;
    m := n;
    if o > 65535 {
      o := o - 65536;
      m := m + [o / 1024 % 1024 + 55296];
      o := 56320 + o % 1024;
    }
    m := m + [o];
  }

  lemma DecodeStep(b: seq<Byte>)
    requires b != []
    ensures var o := DecodeHead(b);
            && (o.Some? ==> Announced(b[0]) <= |b| && Decode(b) == UnitsOf(o.value) + Decode(b[Announced(b[0])..]))
            && (o.None? ==> Decode(b) == [REPLACEMENT] + Decode(b[1..]))
  {
  }

  /** The loop of `N` on `b[start..end]`. */
  method DecodeLoop(b: seq<Byte>, start: nat, end: nat) returns (n: seq<Unit>)
    ensures var r := if end < |b| then end else |b|;
            n == if start < r then Decode(b[start..r]) else []
  {
    var r := if end < |b| then end else |b|;
    n := [];
    if start >= r {
      return;
    }
    ghost var whole := Decode(b[start..r]);
    hide DecodeHead, Announced, UnitsOf, Decode;
    var i := start;
    while i < r
      invariant i <= r && n + Decode(b[i..r]) == whole
    {
      DecodeStep(b[i..r]);
      ghost var tail := Decode(b[i..r]);
      var o := DecodeAt(b, i, r);
      var s := Announced(b[i]);
      if o.None? {
        assert n + tail == (n + [REPLACEMENT]) + Decode(b[i..r][1..]);
        n := n + [REPLACEMENT];
        s := 1;
      } else {
        assert n + tail == (n + UnitsOf(o.value)) + Decode(b[i..r][s..]);
        n := PushUnits(n, o.value);
      }
      assert b[i..r][s..] == b[i + s..r];
      i := i + s;
    }
    NothingToDecode(b[i..r]);
  }

  lemma NothingToDecode(b: seq<Byte>)
    requires b == []
    ensures Decode(b) == []
  {
  }

  // Main results.

  lemma WellFormedRepair(s: seq<Unit>)
    ensures Repair(s) == s <==> IsWellFormed(s)
  {
    if Repair(s) == s {
      forall k | 0 <= k < |s|
        ensures !IsLone(s, k)
      {
        assert s[k] == Repair(s)[k];
      }
    }
  }

  /** Encoding and decoding again gives the string with its lone surrogates replaced if and only if the
      string does not end in two lead surrogates. If it does, the last one is dropped without a trace. */
  lemma EncodeThenDecode(s: seq<Unit>)
    ensures Decode(Encode(s, 0)) == Repair(Kept(s))
    ensures Decode(Encode(s, 0)) == Repair(s) <==> !EndsInTwoLeads(s)
    ensures Decode(Encode(s, 0)) == s <==> IsWellFormed(s)
  {
    var cs := Scalars(Kept(s));
    FitUnlimited(0, cs);
    DecodeEncoded(cs, []);
    assert EncodeAll(cs) + [] == EncodeAll(cs);
    UnitsOfScalars(Kept(s));
    WellFormedRepair(s);
    if EndsInTwoLeads(s) {
      assert |Repair(Kept(s))| == |s| - 1;
      assert IsLone(s, |s| - 1);
    }
  }

  /** An input for which replacing lone surrogates is not what happens. */
  lemma TwoLeadsLoseOne()
    ensures Encode([0xd800, 0xd800], 0) == [239, 191, 189]
    ensures Decode(Encode([0xd800, 0xd800], 0)) != Repair([0xd800, 0xd800])
  {
    var s: seq<Unit> := [0xd800, 0xd800];
    EncodeThenDecode(s);
    assert Kept(s) == [0xd800];
    assert Scalars(Kept(s)) == [REPLACEMENT];
    FitUnlimited(0, Scalars(Kept(s)));
    assert EncodeAll([REPLACEMENT]) == EncodeScalar(REPLACEMENT);
  }

  /** With a positive budget: the encoding of the longest prefix that fits of the characters that are kept, which are
      all unless the string ends in two lead surrogates. */
  lemma EncodeWithBudget(s: seq<Unit>, budget: nat) returns (m: nat)
    requires budget > 0
    ensures m <= |Scalars(Kept(s))|
    ensures Encode(s, budget) == EncodeAll(Scalars(Kept(s))[..m]) && |Encode(s, budget)| <= budget
    ensures forall j :: m < j <= |Scalars(Kept(s))| ==> |EncodeAll(Scalars(Kept(s))[..j])| > budget
  {
    m := FitIsLongestPrefix(budget, Scalars(Kept(s)));
  }
}
