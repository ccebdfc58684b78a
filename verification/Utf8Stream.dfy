/** What the string decoder makes of UTF-8: for which bytes the cuts between chunks do not show. */
module Utf8Stream {
  import opened Bytes
  import opened Chunks
  import opened Options
  import opened DecoderSpec

  // ---- the bytes for which cuts show

  /** The length of the character that a byte can be the first of, two at least; 0 for all other bytes. */
  function CharacterLength(b: Byte): (n: nat)
    ensures n == if ByteKind(b) > 0 then ByteKind(b) else 0
  {
    if 0xc0 <= b <= 0xdf then 2 else if 0xe0 <= b <= 0xef then 3 else if 0xf0 <= b <= 0xf7 then 4 else 0
  }

  /** At `p` a three- or four-byte character begins that breaks off after `j` continuation bytes, one or more. */
  ghost predicate TruncatedAt(b: seq<Byte>, p: nat, j: nat) {
    && p + j < |b| && 1 <= j && j + 1 < CharacterLength(b[p])
    && (forall i :: p < i <= p + j ==> Utf8.IsContinuation(b[i]))
    && (p + j + 1 < |b| ==> !Utf8.IsContinuation(b[p + j + 1]))
  }

  ghost predicate Truncated(b: seq<Byte>) {
    exists p, j :: TruncatedAt(b, p, j)
  }

  lemma TruncatedSuffix(a: seq<Byte>, b: seq<Byte>)
    requires Truncated(b)
    ensures Truncated(a + b)
  {
    var p, j :| TruncatedAt(b, p, j);
    forall i | |a| + p < i <= |a| + p + j ensures Utf8.IsContinuation((a + b)[i]) {
      assert (a + b)[i] == b[i - |a|];
    }
    assert TruncatedAt(a + b, |a| + p, j);
  }

  // ---- incomplete characters

  /** A first byte and some, yet too few, continuation bytes. */
  ghost predicate Pending(q: seq<Byte>) {
    0 < |q| < CharacterLength(q[0]) && forall i :: 0 < i < |q| ==> Utf8.IsContinuation(q[i])
  }

  /** The incomplete character that `b` ends in is `q`, or there is none and `q` is empty. */
  ghost predicate Leaves(b: seq<Byte>, q: seq<Byte>) {
    && |q| <= |b| && b[|b| - |q|..] == q
    && forall k :: 0 <= k < |b| ==> (Pending(b[k..]) <==> k == |b| - |q|)
  }

  lemma KindOfContinuation(b: Byte)
    ensures Utf8.IsContinuation(b) <==> ByteKind(b) == -1
  {
  }

  lemma OnePending(b: seq<Byte>, i: nat, k: nat)
    requires i < |b| && k < |b| && Pending(b[i..]) && Pending(b[k..])
    ensures i == k
  {
    hide ByteKind;
    var lo, hi := if i < k then i else k, if i < k then k else i;
    KindOfContinuation(b[hi]);
    assert b[hi..][0] == b[hi] == b[lo..][hi - lo];
  }

  lemma PendingIsLeft(b: seq<Byte>, q: seq<Byte>)
    requires |q| <= |b| && b[|b| - |q|..] == q && Pending(q)
    ensures Leaves(b, q)
  {
    hide Pending;
    forall k | 0 <= k < |b| ensures Pending(b[k..]) <==> k == |b| - |q| {
      assert Pending(b[|b| - |q|..]);
      if Pending(b[k..]) {
        NotEmpty(q);
        OnePending(b, k, |b| - |q|);
      }
    }
  }

  lemma NotEmpty(q: seq<Byte>)
    requires Pending(q)
    ensures q != []
  {
  }

  lemma LeavesOne(b: seq<Byte>, q: seq<Byte>, r: seq<Byte>)
    requires Leaves(b, q) && Leaves(b, r)
    ensures q == r
  {
    hide Pending;
    if q != [] {
      assert Pending(b[|b| - |q|..]);
    }
    if r != [] {
      assert Pending(b[|b| - |r|..]);
    }
  }

  /** A beginning of an incomplete character is incomplete. */
  lemma PendingPrefix(q: seq<Byte>, n: nat)
    requires Pending(q) && 0 < n <= |q|
    ensures Pending(q[..n])
  {
  }

  /** What is left behind more bytes hangs on what was left before them. */
  lemma LeavesMore(b: seq<Byte>, q: seq<Byte>, c: seq<Byte>, r: seq<Byte>)
    requires Leaves(b, q) && Leaves(q + c, r)
    ensures Leaves(b + c, r)
  {
    hide Pending;
    var a := |b| - |q|;
    assert b == b[..a] + q;
    assert b + c == b[..a] + (q + c);
    forall k | 0 <= k < |b + c| ensures Pending((b + c)[k..]) <==> k == |b + c| - |r| {
      if k >= a {
        assert (b + c)[k..] == (q + c)[k - a..];
      } else {
        assert (b + c)[k..][..|b| - k] == b[k..];
        if Pending((b + c)[k..]) {
          PendingPrefix((b + c)[k..], |b| - k);
        }
      }
    }
    assert (b + c)[|b + c| - |r|..] == (q + c)[|q + c| - |r|..];
  }

  lemma LeavesNothing(b: seq<Byte>, k: nat)
    requires Leaves(b, []) && k <= |b|
    ensures Leaves(b[k..], [])
  {
    hide Pending;
    forall i | 0 <= i < |b[k..]| ensures !Pending(b[k..][i..]) {
      assert b[k..][i..] == b[k + i..];
    }
  }

  /** Where a character cannot continue, what is left is seen from there on. */
  lemma LeavesBehind(a: seq<Byte>, c: seq<Byte>, r: seq<Byte>)
    requires Leaves(c, r) && (Leaves(a, []) || (c != [] && !Utf8.IsContinuation(c[0])))
    ensures Leaves(a + c, r)
  {
    hide Pending;
    if Leaves(a, []) {
      assert [] + c == c;
      LeavesMore(a, [], c, r);
    } else {
      forall k | 0 <= k < |a + c| ensures Pending((a + c)[k..]) <==> k == |a + c| - |r| {
        if k >= |a| {
          assert (a + c)[k..] == c[k - |a|..];
        } else {
          assert (a + c)[k..][|a| - k] == c[0];
          PendingByte((a + c)[k..], |a| - k);
        }
      }
      assert (a + c)[|a + c| - |r|..] == c[|c| - |r|..];
    }
  }

  lemma PendingByte(q: seq<Byte>, i: nat)
    requires 0 < i < |q| && !Utf8.IsContinuation(q[i])
    ensures !Pending(q)
  {
  }

  // ---- where decoding can be split

  lemma HeadNeedsContinuations(b: seq<Byte>, i: nat)
    requires b != [] && Utf8.DecodeHead(b).Some? && 0 < i < Utf8.Announced(b[0])
    ensures i < |b| && Utf8.IsContinuation(b[i]) && ByteKind(b[0]) == Utf8.Announced(b[0])
  {
    hide Utf8.Join2, Utf8.Join3, Utf8.IsContinuation;
    if Utf8.Announced(b[0]) == 4 {
      FourByteLead(b[0], b[1], b[2], b[3]);
    }
  }

  /** No character begins with a byte from F8 on. */
  lemma FourByteLead(a: Byte, b: Byte, c: Byte, d: Byte)
    requires a > 239 && Utf8.Join4(a, b, c, d) < 0x11_0000
    ensures ByteKind(a) == 4
  {
    LowNibble(a);
  }

  lemma LowNibble(a: Byte)
    ensures a >= 248 ==> a % 0x10 >= 8
  {
  }

  lemma HeadOfMore(a: seq<Byte>, g: seq<Byte>)
    requires a != [] && Utf8.Announced(a[0]) <= |a|
    ensures Utf8.DecodeHead(a + g) == Utf8.DecodeHead(a)
  {
    hide Utf8.Join2, Utf8.Join3, Utf8.Join4, Utf8.IsContinuation;
  }

  /** A character that `a` begins and does not end is none behind `g` either. */
  lemma NoHead(a: seq<Byte>, g: seq<Byte>)
    requires a != [] && |a| < Utf8.Announced(a[0])
    requires g == [] || !Utf8.IsContinuation(g[0]) || Leaves(a, [])
    ensures Utf8.DecodeHead(a) == None && Utf8.DecodeHead(a + g) == None
  {
    hide Utf8.DecodeHead, Utf8.IsContinuation, ByteKind, Leaves;
    var b := a + g;
    if Utf8.DecodeHead(b).Some? {
      HeadNeedsContinuations(b, |a|);
      assert b[|a|] == g[0];
      forall i | 0 < i < |a| ensures Utf8.IsContinuation(a[i]) {
        HeadNeedsContinuations(b, i);
      }
      PendingIsNotNothing(a);
    }
    TooShort(a);
  }

  lemma PendingIsNotNothing(a: seq<Byte>)
    requires Pending(a)
    ensures !Leaves(a, [])
  {
    hide Pending;
    NotEmpty(a);
    assert a[0..] == a;
  }

  lemma TooShort(a: seq<Byte>)
    requires a != [] && |a| < Utf8.Announced(a[0])
    ensures Utf8.DecodeHead(a) == None
  {
  }

  /** Decoding splits where a character cannot continue. */
  lemma {:induction false} DecodeSplit(a: seq<Byte>, g: seq<Byte>)
    requires g == [] || !Utf8.IsContinuation(g[0]) || Leaves(a, [])
    ensures Utf8.Decode(a + g) == Utf8.Decode(a) + Utf8.Decode(g)
    decreases |a|
  {
    hide Utf8.Decode, Utf8.DecodeHead, Utf8.UnitsOf, Utf8.IsContinuation, Leaves, Utf8.Announced;
    if a == [] {
      DecodeNothing();
      assert a + g == g;
    } else {
      var n := Utf8.Announced(a[0]);
      if n <= |a| {
        HeadOfMore(a, g);
      } else {
        NoHead(a, g);
      }
      Utf8.DecodeStep(a);
      Utf8.DecodeStep(a + g);
      var k := if Utf8.DecodeHead(a).Some? then n else 1;
      if Leaves(a, []) {
        LeavesNothing(a, k);
      }
      DecodeSplit(a[k..], g);
      assert (a + g)[k..] == a[k..] + g;
    }
  }

  lemma DecodeFirst(b: seq<Byte>)
    requires b != [] && Utf8.DecodeHead(b) == None
    ensures Utf8.Decode(b) == [Utf8.REPLACEMENT] + Utf8.Decode(b[1..])
  {
  }

  lemma ContinuationIsNoHead(b: seq<Byte>)
    requires b != [] && Utf8.IsContinuation(b[0])
    ensures Utf8.DecodeHead(b) == None
  {
  }

  lemma {:induction false} DecodeContinuations(c: seq<Byte>)
    requires forall i :: 0 <= i < |c| ==> Utf8.IsContinuation(c[i])
    ensures |Utf8.Decode(c)| == |c|
    decreases |c|
  {
    hide Utf8.DecodeHead, Utf8.IsContinuation, Utf8.Decode;
    if c == [] {
      DecodeNothing();
    } else {
      ContinuationIsNoHead(c);
      DecodeFirst(c);
      DecodeContinuations(c[1..]);
    }
  }

  lemma DecodeNothing()
    ensures Utf8.Decode([]) == []
  {
  }

  /** As a whole, each byte of an incomplete character counts. */
  lemma DecodePending(q: seq<Byte>)
    requires Pending(q)
    ensures |Utf8.Decode(q)| == |q| && Utf8.Decode(q)[0] == Utf8.REPLACEMENT
  {
    hide Utf8.DecodeHead, Utf8.IsContinuation, Utf8.Decode;
    KindIsAnnounced(q[0]);
    TooShort(q);
    DecodeFirst(q);
    DecodeContinuations(q[1..]);
  }

  lemma KindIsAnnounced(b: Byte)
    ensures ByteKind(b) > 0 ==> ByteKind(b) == Utf8.Announced(b)
  {
  }

  // ---- one step of the machine

  /** Nothing is held back, or an incomplete character. */
  ghost predicate Holds(s: State)
    ensures Holds(s) ==> s.Valid() && Sized(UTF8, s)
  {
    && s.Valid() && Sized(UTF8, s)
    && (s.need > 0 ==> Pending(s.Held()) && s.total == ByteKind(s.Held()[0]))
  }

  /** The check of the last bytes finds the incomplete character that they are. */
  lemma PendingIsFound(b: seq<Byte>, r: nat, k: nat)
    requires r <= k < |b| && Pending(b[k..])
    ensures CheckIncomplete(b, r) == (ByteKind(b[k]), ByteKind(b[k]) - (|b| - k))
  {
    hide ByteKind, Utf8.IsContinuation, Pending;
    PendingBytes(b, k);
    KindRange(b[k]);
    KindOfContinuation(b[|b| - 1]);
    if |b| >= k + 2 {
      KindOfContinuation(b[|b| - 2]);
    }
  }

  /** What it finds is incomplete. */
  lemma FoundIsPending(b: seq<Byte>, r: nat)
    requires r < |b| && CheckIncomplete(b, r).1 > 0
    ensures var (total, need) := CheckIncomplete(b, r);
            var k := |b| - (total - need);
            r <= k && Pending(b[k..]) && total == ByteKind(b[k])
  {
    hide ByteKind, Utf8.IsContinuation;
    var n := |b|;
    KindRange(b[n - 1]);
    KindOfContinuation(b[n - 1]);
    if ByteKind(b[n - 1]) < 0 {
      KindRange(b[n - 2]);
      KindOfContinuation(b[n - 2]);
    }
  }

  lemma CheckFindsPending(b: seq<Byte>, r: nat)
    requires r < |b|
    ensures var (total, need) := CheckIncomplete(b, r);
            && (need > 0 ==>
                  var k := |b| - (total - need);
                  r <= k && Pending(b[k..]) && total == ByteKind(b[k]))
            && (need == 0 ==> Leaves(b[r..], []))
  {
    hide ByteKind, CheckIncomplete, Pending;
    if CheckIncomplete(b, r).1 > 0 {
      FoundIsPending(b, r);
    } else {
      forall k | 0 <= k < |b[r..]| ensures !Pending(b[r..][k..]) {
        assert b[r..][k..] == b[r + k..];
        if Pending(b[r + k..]) {
          PendingIsFound(b, r, r + k);
          PendingIsShort(b[r + k..]);
        }
      }
    }
  }

  lemma PendingIsShort(q: seq<Byte>)
    requires Pending(q)
    ensures 0 < |q| < ByteKind(q[0])
  {
  }

  lemma KindRange(b: Byte)
    ensures ByteKind(b) in {-2, -1, 0, 2, 3, 4}
  {
  }

  lemma PendingBytes(b: seq<Byte>, k: nat)
    requires k < |b| && Pending(b[k..])
    ensures |b| - k < ByteKind(b[k])
    ensures forall i :: k < i < |b| ==> Utf8.IsContinuation(b[i])
  {
    hide ByteKind, Utf8.IsContinuation;
    forall i | k < i < |b| ensures Utf8.IsContinuation(b[i]) {
      assert b[i] == b[k..][i - k];
    }
  }

  /** `text` is exact: it decodes what it can and holds back the incomplete character at the end. */
  lemma TextIsExact(s: State, t: seq<Byte>, i: nat, g: seq<Byte>)
    requires s.Valid() && Sized(UTF8, s) && s.need == 0 && i < |t|
    ensures var (next, x) := Text(UTF8, s, t, i);
            && Holds(next) && Leaves(t[i..], next.Held())
            && x + Utf8.Decode(next.Held() + g) == Utf8.Decode(t[i..] + g)
  {
    hide Utf8.Decode, CheckIncomplete, Copy, ByteKind, Utf8.IsContinuation, Leaves, Pending;
    CheckFindsPending(t, i);
    var (total, need) := CheckIncomplete(t, i);
    if need == 0 {
      DecodeSplit(t[i..], g);
      assert [] + g == g;
    } else {
      var k := |t| - (total - need);
      CopiedFront(s.last, t[k..]);
      assert t[k..][0] == t[k];
      SplitBeforePending(t[i..], k - i, g);
      assert t[i..][k - i..] == t[k..] && t[i..][..k - i] == t[i..k];
    }
  }

  lemma SplitBeforePending(b: seq<Byte>, k: nat, g: seq<Byte>)
    requires k < |b| && Pending(b[k..])
    ensures Leaves(b, b[k..])
    ensures Utf8.Decode(b[..k]) + Utf8.Decode(b[k..] + g) == Utf8.Decode(b + g)
  {
    hide Utf8.Decode, Pending, Utf8.IsContinuation;
    var q := b[k..];
    PendingIsLeft(b, q);
    LeadIsNoContinuation(q);
    NotEmpty(q);
    DecodeSplit(b[..k], q + g);
    assert b + g == b[..k] + (q + g);
  }

  lemma LeadIsNoContinuation(q: seq<Byte>)
    requires Pending(q)
    ensures !Utf8.IsContinuation(q[0])
  {
    KindOfContinuation(q[0]);
  }

  lemma ExtraBytes(need: nat, t: seq<Byte>)
    requires 0 < need <= 3 && t != []
    ensures var c := CheckExtraBytes(need, t);
            && (c.None? ==> forall i :: 0 <= i < need && i < |t| ==> Utf8.IsContinuation(t[i]))
            && (c.Some? ==>
                  && c.value < need && c.value < |t| && !Utf8.IsContinuation(t[c.value])
                  && forall i :: 0 <= i < c.value ==> Utf8.IsContinuation(t[i]))
  {
    hide Utf8.IsContinuation;
  }

  /** `fillLast` on an incomplete character: it stays incomplete; or it is complete; or it breaks off, and of its bytes
      only one counts. */
  lemma FillLoses(s: State, t: seq<Byte>, g: seq<Byte>)
    requires Holds(s) && s.need > 0 && t != []
    ensures var (filled, x) := FillLast(UTF8, s, t);
            && (x.None? ==> Holds(filled) && filled.Held() == s.Held() + t)
            && (x.Some? ==>
                  var i := filled.need;
                  && i <= |t| && filled.(need := 0).Valid() && Sized(UTF8, filled)
                  && (Leaves(s.Held() + t[..i], []) || (i < |t| && !Utf8.IsContinuation(t[i])))
                  && |x.value| + |Utf8.Decode(t[i..] + g)| <= |Utf8.Decode(s.Held() + t + g)|
                  && (!Truncated(s.Held() + t + g) ==>
                        x.value + Utf8.Decode(t[i..] + g) == Utf8.Decode(s.Held() + t + g)))
  {
    hide Utf8.Decode, CheckExtraBytes, Copy, ByteKind, Utf8.IsContinuation, FillLast, Truncated, Leaves;
    var q, c := s.Held(), CheckExtraBytes(s.need, t);
    KindRange(q[0]);
    ExtraBytes(s.need, t);
    if c.Some? {
      FillBreaksOff(s, t, c.value);
      BrokenOff(q, t, c.value, g);
    } else {
      FillLastValue(UTF8, s, t);
      if s.need <= |t| {
        FillCompletes(s, t);
        Completed(q, t, s.need, g);
      } else {
        FillWaits(s, t);
      }
    }
  }

  lemma FillBreaksOff(s: State, t: seq<Byte>, i: nat)
    requires s.Valid() && s.need > 0 && t != [] && CheckExtraBytes(s.need, t) == Some(i)
    ensures FillLast(UTF8, s, t) == (s.(need := i), Some([Utf8.REPLACEMENT]))
  {
    hide CheckExtraBytes;
  }

  /** Broken off after `i` more bytes: as a whole each byte counts. */
  lemma BrokenOff(q: seq<Byte>, t: seq<Byte>, i: nat, g: seq<Byte>)
    requires Pending(q) && i < |t| && |q| + i < ByteKind(q[0])
    requires !Utf8.IsContinuation(t[i]) && forall k :: 0 <= k < i ==> Utf8.IsContinuation(t[k])
    ensures |Utf8.Decode(q + t + g)| == |q| + i + |Utf8.Decode(t[i..] + g)|
    ensures |q| + i == 1 ==> Utf8.Decode(q + t + g) == [Utf8.REPLACEMENT] + Utf8.Decode(t[i..] + g)
    ensures |q| + i > 1 ==> Truncated(q + t + g)
  {
    hide Utf8.Decode, Utf8.IsContinuation, ByteKind;
    var p, rest := q + t[..i], t[i..] + g;
    assert q + t + g == p + rest;
    DecodePending(p);
    DecodeSplit(p, rest);
    if |q| + i > 1 {
      forall k | 0 < k <= |p| - 1 ensures Utf8.IsContinuation((p + rest)[k]) {
        assert (p + rest)[k] == p[k];
      }
      assert TruncatedAt(p + rest, 0, |p| - 1);
    }
  }

  lemma FillCompletes(s: State, t: seq<Byte>)
    requires Holds(s) && 0 < s.need <= |t|
    requires forall i :: 0 <= i < s.need ==> Utf8.IsContinuation(t[i])
    ensures Copy(s.last, s.total - s.need, t[..s.need])[..s.total] == s.Held() + t[..s.need]
    ensures |s.Held()| + s.need == ByteKind(s.Held()[0])
  {
    hide Utf8.IsContinuation, ByteKind;
    CopiedAfter(s.last, s.total - s.need, t[..s.need]);
  }

  /** All bytes that a first byte asks for: nothing is left of them. */
  lemma CharacterLeavesNothing(e: seq<Byte>)
    requires e != [] && (ByteKind(e[0]) == if |e| == 1 then 0 else |e|)
    requires forall i :: 0 < i < |e| ==> Utf8.IsContinuation(e[i])
    ensures Leaves(e, []) && !Utf8.IsContinuation(e[0])
  {
    hide ByteKind, Utf8.IsContinuation;
    KindOfContinuation(e[0]);
    forall k | 0 <= k < |e| ensures !Pending(e[k..]) {
      KindOfContinuation(e[k]);
    }
  }

  /** All bytes of a character are there: well formed or not, it can be decoded by itself. */
  lemma Completed(q: seq<Byte>, t: seq<Byte>, n: nat, g: seq<Byte>)
    requires Pending(q) && n <= |t| && |q| + n == ByteKind(q[0])
    requires forall i :: 0 <= i < n ==> Utf8.IsContinuation(t[i])
    ensures Leaves(q + t[..n], [])
    ensures Utf8.Decode(q + t[..n]) + Utf8.Decode(t[n..] + g) == Utf8.Decode(q + t + g)
  {
    hide Utf8.Decode, Utf8.IsContinuation, ByteKind, Leaves;
    var p := q + t[..n];
    CharacterLeavesNothing(p);
    DecodeSplit(p, t[n..] + g);
    assert q + t + g == p + (t[n..] + g);
  }

  lemma FillWaits(s: State, t: seq<Byte>)
    requires Holds(s) && |t| < s.need && t != []
    requires forall i :: 0 <= i < |t| ==> Utf8.IsContinuation(t[i])
    ensures var next := State(s.need - |t|, s.total, Copy(s.last, s.total - s.need, t));
            Holds(next) && next.Held() == s.Held() + t
  {
    hide Utf8.IsContinuation, ByteKind, Copy;
    CopiedAfter(s.last, s.total - s.need, t);
  }

  /** One `write`, and bytes `g` still to come: never more than the whole, and the same if nothing is truncated. */
  lemma WriteLoses(s: State, t: seq<Byte>, g: seq<Byte>)
    requires Holds(s)
    ensures var (next, x) := Write(UTF8, s, t);
            && Holds(next) && Leaves(s.Held() + t, next.Held())
            && |x| + |Utf8.Decode(next.Held() + g)| <= |Utf8.Decode(s.Held() + t + g)|
            && (!Truncated(s.Held() + t + g) ==>
                  x + Utf8.Decode(next.Held() + g) == Utf8.Decode(s.Held() + t + g))
  {
    hide Utf8.Decode, Text, FillLast, ByteKind, Utf8.IsContinuation, Leaves, Pending, Truncated;
    if t == [] {
      HeldIsLeft(s);
      assert s.Held() + t == s.Held();
    } else if s.need == 0 {
      TextIsExact(s, t, 0, g);
      assert t[0..] == t == s.Held() + t;
    } else {
      FillLoses(s, t, g);
      var (filled, x) := FillLast(UTF8, s, t);
      if x.Some? {
        var i, base := filled.need, filled.(need := 0);
        assert s.Held() + t == (s.Held() + t[..i]) + t[i..];
        if i < |t| {
          TextIsExact(base, t, i, g);
          LeavesBehind(s.Held() + t[..i], t[i..], Text(UTF8, base, t, i).0.Held());
        } else {
          NothingIsLeft();
          LeavesBehind(s.Held() + t[..i], t[i..], []);
          assert t[i..] + g == [] + g;
        }
      } else {
        HeldIsLeft(filled);
      }
    }
  }

  lemma NothingIsLeft()
    ensures Leaves([], [])
  {
  }

  lemma HeldIsLeft(s: State)
    requires Holds(s)
    ensures Leaves(s.Held(), s.Held())
  {
    hide Pending;
    var q := s.Held();
    if q != [] {
      PendingIsLeft(q, q);
    }
  }

  /** All chunks, and bytes `g` still to come. */
  lemma {:induction false} RunLoses(s: State, chunks: seq<seq<Byte>>, g: seq<Byte>)
    requires Holds(s)
    ensures var b := s.Held() + Flatten(chunks);
            var (end, x) := WriteAll(UTF8, s, chunks);
            && Holds(end) && Leaves(b, end.Held())
            && |x| + |Utf8.Decode(end.Held() + g)| <= |Utf8.Decode(b + g)|
            && (!Truncated(b + g) ==> x + Utf8.Decode(end.Held() + g) == Utf8.Decode(b + g))
    decreases |chunks|
  {
    hide Utf8.Decode, Write, Holds, Leaves, Pending, Truncated;
    var q := s.Held();
    if chunks == [] {
      HeldIsLeft(s);
      assert q + Flatten(chunks) == q;
    } else {
      var t, rest := chunks[0], Flatten(chunks[1..]);
      var mid := Write(UTF8, s, t).0;
      WriteLoses(s, t, rest + g);
      RunLoses(mid, chunks[1..], g);
      var h := mid.Held();
      assert q + Flatten(chunks) == (q + t) + rest;
      assert q + t + (rest + g) == (q + t) + rest + g && h + (rest + g) == h + rest + g;
      LeavesMore(q + t, h, rest, WriteAll(UTF8, mid, chunks[1..]).0.Held());
      StillTruncated(q + t, h, rest + g);
    }
  }

  lemma StillTruncated(b: seq<Byte>, q: seq<Byte>, g: seq<Byte>)
    requires Leaves(b, q)
    ensures Truncated(q + g) ==> Truncated(b + g)
  {
    hide Pending, Truncated;
    if Truncated(q + g) {
      TruncatedSuffix(b[..|b| - |q|], q + g);
      assert b + g == b[..|b| - |q|] + (q + g);
    }
  }

  /** `end` gives one character for what is held back; as a whole each byte counts. */
  lemma FinishLoses(s: State)
    requires Holds(s)
    ensures |Finish(UTF8, s)| <= |Utf8.Decode(s.Held())|
    ensures |s.Held()| > 1 ==> |Finish(UTF8, s)| == 1 < |Utf8.Decode(s.Held())| && Truncated(s.Held())
    ensures |s.Held()| <= 1 ==> Finish(UTF8, s) == Utf8.Decode(s.Held())
  {
    hide Utf8.Decode, ByteKind, Utf8.IsContinuation;
    var q := s.Held();
    if s.need > 0 {
      DecodePending(q);
      if |q| > 1 {
        assert TruncatedAt(q, 0, |q| - 1);
      }
    } else {
      DecodeNothing();
    }
  }

  // ---- exactly which bytes

  lemma StartHolds()
    ensures Holds(Start(UTF8)) && Start(UTF8).Held() == []
  {
  }

  /** However bytes are cut, they give at most as many units as the whole. */
  lemma CutsNeverAdd(chunks: seq<seq<Byte>>)
    ensures |Streamed(UTF8, chunks)| <= |Utf8.Decode(Flatten(chunks))|
    ensures !Truncated(Flatten(chunks)) ==> Streamed(UTF8, chunks) == Utf8.Decode(Flatten(chunks))
  {
    hide Utf8.Decode, WriteAll, Finish, Flatten, Truncated, Holds;
    var b := Flatten(chunks);
    StartHolds();
    RunLoses(Start(UTF8), chunks, []);
    var end := WriteAll(UTF8, Start(UTF8), chunks).0;
    assert [] + b == b && b + [] == b && end.Held() + [] == end.Held();
    FinishLoses(end);
    StillTruncated(b, end.Held(), []);
  }

  /** A decoder that holds two bytes or more of a character which then breaks off gives fewer units than the whole. */
  lemma HeldLoses(s: State, t: seq<Byte>)
    requires Holds(s) && |s.Held()| > 1 && (t == [] || !Utf8.IsContinuation(t[0]))
    ensures var (end, x) := Write(UTF8, s, t);
            |x + Finish(UTF8, end)| < |Utf8.Decode(s.Held() + t)|
  {
    hide Utf8.Decode, Text, ByteKind, Utf8.IsContinuation, Finish, CheckExtraBytes, FillLast;
    var q := s.Held();
    if t == [] {
      FinishLoses(s);
      assert q + t == q;
    } else {
      KindRange(q[0]);
      ExtraBytes(s.need, t);
      FillBreaksOff(s, t, 0);
      BrokenOff(q, t, 0, []);
      var base := s.(need := 0);
      TextIsExact(base, t, 0, []);
      var end := Text(UTF8, base, t, 0).0;
      FinishLoses(end);
      assert t[0..] + [] == t && q + t + [] == q + t && end.Held() + [] == end.Held();
    }
  }

  lemma TruncatedIsPending(b: seq<Byte>, p: nat, j: nat)
    requires TruncatedAt(b, p, j)
    ensures Pending(b[p..p + j + 1])
    ensures b[p + j + 1..] == [] || !Utf8.IsContinuation(b[p + j + 1..][0])
  {
    hide ByteKind, Utf8.IsContinuation;
    var q := b[p..p + j + 1];
    assert forall i :: 0 <= i < |q| ==> q[i] == b[p + i];
  }

  /** Cut where the character breaks off. */
  lemma CutShows(b: seq<Byte>, p: nat, j: nat)
    requires TruncatedAt(b, p, j)
    ensures var n := p + j + 1;
            n <= |b| && |Streamed(UTF8, [b[..n], b[n..]])| < |Utf8.Decode(b)|
  {
    hide Utf8.Decode, Write, WriteAll, Finish, Utf8.IsContinuation, Holds, Leaves, Pending, Truncated;
    TruncatedIsPending(b, p, j);
    hide TruncatedAt;
    var n := p + j + 1;
    var a, t, q := b[..n], b[n..], b[p..n];
    StartHolds();
    WriteLoses(Start(UTF8), a, t);
    FirstWriteIsExact(a, t);
    var (mid, x) := Write(UTF8, Start(UTF8), a);
    assert [] + a == a && a[p..] == q && a + t == b;
    PendingIsLeft(a, q);
    LeavesOne(a, q, mid.Held());
    HeldLoses(mid, t);
    WriteAllTwo(UTF8, Start(UTF8), a, t);
  }

  lemma FirstWriteIsExact(a: seq<Byte>, g: seq<Byte>)
    requires a != []
    ensures var (mid, x) := Write(UTF8, Start(UTF8), a);
            x + Utf8.Decode(mid.Held() + g) == Utf8.Decode(a + g)
  {
    hide Utf8.Decode, Text, Holds, Leaves;
    StartHolds();
    TextIsExact(Start(UTF8), a, 0, g);
    assert a[0..] == a;
  }

  lemma WriteAllTwo(e: Encoding, s: State, a: seq<Byte>, b: seq<Byte>)
    requires s.Valid() && Sized(e, s)
    ensures var (mid, x) := Write(e, s, a);
            var (end, y) := Write(e, mid, b);
            WriteAll(e, s, [a, b]) == (end, x + y)
  {
    hide Write;
    var mid := Write(e, s, a).0;
    var (end, y) := Write(e, mid, b);
    assert [a, b][1..] == [b] && [b][1..] == [];
    assert WriteAll(e, end, []) == (end, []);
    assert y + [] == y;
    assert WriteAll(e, mid, [b]) == (end, y);
  }

  /** The text of bytes does not hang on how they are cut exactly if none of their characters is truncated: every cut
      gives what decoding the whole gives. */
  lemma CutsMeanWhole(b: seq<Byte>)
    ensures (forall chunks: seq<seq<Byte>> :: Flatten(chunks) == b ==> Streamed(UTF8, chunks) == Utf8.Decode(b))
       <==> !Truncated(b)
  {
    hide Utf8.Decode, Streamed, Flatten, TruncatedAt;
    if Truncated(b) {
      var p, j :| TruncatedAt(b, p, j);
      CutShows(b, p, j);
      var n := p + j + 1;
      FlattenTwo(b[..n], b[n..]);
      assert b[..n] + b[n..] == b;
      assert Flatten([b[..n], b[n..]]) == b;
    } else {
      forall chunks: seq<seq<Byte>> | Flatten(chunks) == b ensures Streamed(UTF8, chunks) == Utf8.Decode(b) {
        CutsNeverAdd(chunks);
      }
    }
  }

  // ---- well-formed bytes

  /** `b` is a proper beginning of the encoding of `cs[0]`, or nothing. */
  ghost predicate IsBeginning(b: seq<Byte>, cs: seq<Utf8.Scalar>) {
    b == [] || (cs != [] && |b| < |Utf8.EncodeScalar(cs[0])| && b == Utf8.EncodeScalar(cs[0])[..|b|])
  }

  lemma KindsOfEncoding(c: Utf8.Scalar)
    ensures var e := Utf8.EncodeScalar(c);
            && ByteKind(e[0]) == (if |e| == 1 then 0 else |e|)
            && forall j :: 1 <= j < |e| ==> Utf8.IsContinuation(e[j])
  {
  }

  /** Where a piece of a well-formed stream can be cut between characters. */
  lemma {:induction false} CutBetweenCharacters(b: seq<Byte>, future: seq<Byte>, cs: seq<Utf8.Scalar>)
    returns (m: nat, q: seq<Byte>)
    requires b + future == Utf8.EncodeAll(cs)
    ensures m <= |cs| && b == Utf8.EncodeAll(cs[..m]) + q
    ensures q + future == Utf8.EncodeAll(cs[m..]) && IsBeginning(q, cs[m..])
    decreases |cs|
  {
    hide Utf8.EncodeScalar;
    if b == [] {
      m, q := 0, [];
      assert cs[0..] == cs;
    } else {
      var e := Utf8.EncodeScalar(cs[0]);
      var rest := Utf8.EncodeAll(cs[1..]);
      assert b + future == e + rest;
      if |b| < |e| {
        m, q := 0, b;
        assert b == (b + future)[..|b|] == e[..|b|];
        assert cs[0..] == cs;
      } else {
        assert e == (b + future)[..|e|] == b[..|e|];
        assert b[|e|..] + future == (b + future)[|e|..] == rest;
        m, q := CutBetweenCharacters(b[|e|..], future, cs[1..]);
        assert b == e + b[|e|..];
        m := m + 1;
        assert cs[..m][1..] == cs[1..][..m - 1];
        assert cs[m..] == cs[1..][m - 1..];
      }
    }
  }

  lemma {:induction false} EncodeAllSplit(a: seq<Utf8.Scalar>, b: seq<Utf8.Scalar>)
    ensures Utf8.EncodeAll(a + b) == Utf8.EncodeAll(a) + Utf8.EncodeAll(b)
    decreases |a|
  {
    hide Utf8.EncodeScalar;
    if a == [] {
      assert a + b == b;
    } else {
      EncodeAllSplit(a[1..], b);
      assert (a + b)[1..] == a[1..] + b;
    }
  }

  lemma EncodeAllLast(cs: seq<Utf8.Scalar>)
    requires cs != []
    ensures Utf8.EncodeAll(cs) == Utf8.EncodeAll(cs[..|cs| - 1]) + Utf8.EncodeScalar(cs[|cs| - 1])
  {
    hide Utf8.EncodeAll, Utf8.EncodeScalar;
    var front, last := cs[..|cs| - 1], cs[|cs| - 1];
    assert cs == front + [last];
    EncodeAllSplit(front, [last]);
    EncodeOne(last);
  }

  lemma EncodeOne(c: Utf8.Scalar)
    ensures Utf8.EncodeAll([c]) == Utf8.EncodeScalar(c)
  {
    hide Utf8.EncodeScalar;
    assert [c][1..] == [];
  }

  lemma {:induction false} UnitsOfAllSplit(a: seq<Utf8.Scalar>, b: seq<Utf8.Scalar>)
    ensures Utf8.UnitsOfAll(a + b) == Utf8.UnitsOfAll(a) + Utf8.UnitsOfAll(b)
    decreases |a|
  {
    hide Utf8.UnitsOf;
    if a == [] {
      assert a + b == b;
    } else {
      UnitsOfAllSplit(a[1..], b);
      assert (a + b)[1..] == a[1..] + b;
    }
  }

  lemma DecodeWhole(cs: seq<Utf8.Scalar>)
    ensures Utf8.Decode(Utf8.EncodeAll(cs)) == Utf8.UnitsOfAll(cs)
  {
    hide Utf8.EncodeScalar;
    Utf8.DecodeEncoded(cs, []);
    assert Utf8.EncodeAll(cs) + [] == Utf8.EncodeAll(cs);
  }

  /** No character of well-formed bytes is truncated. */
  lemma {:induction false} WellFormedIsNotTruncated(cs: seq<Utf8.Scalar>)
    ensures !Truncated(Utf8.EncodeAll(cs))
    decreases |cs|
  {
    hide Utf8.EncodeScalar, ByteKind, Utf8.IsContinuation;
    var b := Utf8.EncodeAll(cs);
    forall p: nat, j: nat ensures !TruncatedAt(b, p, j) {
      if TruncatedAt(b, p, j) {
        var e := Utf8.EncodeScalar(cs[0]);
        var rest := Utf8.EncodeAll(cs[1..]);
        KindsOfEncoding(cs[0]);
        if p < |e| {
          NotTruncatedInside(e, rest, p, j);
        } else {
          TruncatedBehind(e, rest, p, j);
          WellFormedIsNotTruncated(cs[1..]);
        }
      }
    }
  }

  lemma NotTruncatedInside(e: seq<Byte>, rest: seq<Byte>, p: nat, j: nat)
    requires p < |e| && (ByteKind(e[0]) == if |e| == 1 then 0 else |e|)
    requires forall i :: 0 < i < |e| ==> Utf8.IsContinuation(e[i])
    ensures !TruncatedAt(e + rest, p, j)
  {
    hide ByteKind, Utf8.IsContinuation;
    KindOfContinuation(e[p]);
    assert (e + rest)[p] == e[p];
    assert j + 1 < |e| ==> (e + rest)[j + 1] == e[j + 1];
  }

  lemma TruncatedBehind(e: seq<Byte>, rest: seq<Byte>, p: nat, j: nat)
    requires |e| <= p && TruncatedAt(e + rest, p, j)
    ensures Truncated(rest)
  {
    hide ByteKind, Utf8.IsContinuation;
    forall i | p - |e| < i <= p - |e| + j ensures Utf8.IsContinuation(rest[i]) {
      assert rest[i] == (e + rest)[i + |e|];
    }
    assert TruncatedAt(rest, p - |e|, j);
  }

  /** For well-formed bytes, however they are cut, the results of `write` and `end` are the text of the whole. */
  lemma Utf8ChunksMeanWhole(chunks: seq<seq<Byte>>, cs: seq<Utf8.Scalar>)
    requires Flatten(chunks) == Utf8.EncodeAll(cs)
    ensures Streamed(UTF8, chunks) == Utf8.Decode(Flatten(chunks)) == Utf8.UnitsOfAll(cs)
  {
    hide Utf8.Decode, Streamed, Flatten, Truncated;
    WellFormedIsNotTruncated(cs);
    CutsNeverAdd(chunks);
    DecodeWhole(cs);
  }

  lemma BeginningIsPending(q: seq<Byte>, cs: seq<Utf8.Scalar>)
    requires q != [] && IsBeginning(q, cs)
    ensures Pending(q)
  {
    hide Utf8.EncodeScalar, ByteKind, Utf8.IsContinuation;
    var e := Utf8.EncodeScalar(cs[0]);
    KindsOfEncoding(cs[0]);
    assert forall i :: 0 <= i < |q| ==> q[i] == e[i];
  }

  /** Whole characters leave nothing. */
  lemma WholeLeavesNothing(cs: seq<Utf8.Scalar>)
    ensures Leaves(Utf8.EncodeAll(cs), [])
  {
    hide Utf8.EncodeScalar, Utf8.EncodeAll, ByteKind, Utf8.IsContinuation, Pending;
    if cs == [] {
      assert Utf8.EncodeAll(cs) == [] by {
        EncodeNone();
      }
    } else {
      EncodeAllLast(cs);
      var front, e := Utf8.EncodeAll(cs[..|cs| - 1]), Utf8.EncodeScalar(cs[|cs| - 1]);
      KindsOfEncoding(cs[|cs| - 1]);
      CharacterLeavesNothing(e);
      LeavesBehind(front, e, []);
    }
  }

  lemma EncodeNone()
    ensures Utf8.EncodeAll([]) == []
  {
  }

  /** UTF-8, cut off in the middle: the complete characters come out, and `end` adds U+FFFD exactly if some
      bytes of another character are left. */
  lemma Utf8PrefixMeansCharacters(chunks: seq<seq<Byte>>, cs: seq<Utf8.Scalar>, future: seq<Byte>) returns (m: nat)
    requires Flatten(chunks) + future == Utf8.EncodeAll(cs)
    ensures var (s, x) := WriteAll(UTF8, Start(UTF8), chunks);
            && m <= |cs| && x == Utf8.UnitsOfAll(cs[..m])
            && Flatten(chunks) == Utf8.EncodeAll(cs[..m]) + s.Held()
            && (m < |cs| ==> |s.Held()| < |Utf8.EncodeScalar(cs[m])|)
            && Finish(UTF8, s) == if s.Held() == [] then [] else [Utf8.REPLACEMENT]
  {
    hide Utf8.EncodeScalar, Utf8.EncodeAll, Utf8.UnitsOfAll, Utf8.Decode, WriteAll, Flatten, Leaves, Truncated, Pending;
    var b := Flatten(chunks);
    StartHolds();
    RunLoses(Start(UTF8), chunks, future);
    assert [] + b == b;
    WellFormedIsNotTruncated(cs);
    var (s, x) := WriteAll(UTF8, Start(UTF8), chunks);
    var q: seq<Byte>;
    m, q := CutBetweenCharacters(b, future, cs);
    BeginningIsLeft(b, cs, m, q);
    LeavesOne(b, q, s.Held());
    DecodeWhole(cs);
    DecodeWhole(cs[m..]);
    UnitsOfAllSplit(cs[..m], cs[m..]);
    assert cs[..m] + cs[m..] == cs;
    SameFront(x, Utf8.UnitsOfAll(cs[..m]), Utf8.UnitsOfAll(cs[m..]));
    BeginningIsShort(q, cs[m..]);
    if s.need > 0 {
      NotEmpty(s.Held());
    }
  }

  lemma SameFront(x: seq<Unit>, y: seq<Unit>, z: seq<Unit>)
    requires x + z == y + z
    ensures x == y
  {
    assert |x + z| == |x| + |z| && |y + z| == |y| + |z|;
    assert x == (x + z)[..|x|] == (y + z)[..|y|] == y;
  }

  lemma BeginningIsLeft(b: seq<Byte>, cs: seq<Utf8.Scalar>, m: nat, q: seq<Byte>)
    requires m <= |cs| && b == Utf8.EncodeAll(cs[..m]) + q && IsBeginning(q, cs[m..])
    ensures Leaves(b, q)
  {
    hide Utf8.EncodeScalar, Utf8.EncodeAll, Pending, IsBeginning;
    if q == [] {
      WholeLeavesNothing(cs[..m]);
      assert b == Utf8.EncodeAll(cs[..m]);
    } else {
      BeginningIsPending(q, cs[m..]);
      PendingIsLeft(b, q);
    }
  }

  lemma BeginningIsShort(q: seq<Byte>, cs: seq<Utf8.Scalar>)
    requires IsBeginning(q, cs)
    ensures cs != [] ==> |q| < |Utf8.EncodeScalar(cs[0])|
  {
    hide Utf8.EncodeScalar;
  }

  // ---- an input for which a cut shows

  /** A truncated character: bytes F0 90, cut before 41, give one U+FFFD, but as a whole two. */
  lemma MalformedChunksDiffer()
    ensures var chunks: seq<seq<Byte>> := [[0xf0, 0x90], [0x41]];
            && Streamed(UTF8, chunks) == [Utf8.REPLACEMENT, 0x41]
            && Utf8.Decode(Flatten(chunks)) == [Utf8.REPLACEMENT, Utf8.REPLACEMENT, 0x41]
  {
    hide Write, WriteAll, Finish, Flatten, Utf8.Decode;
    var a: seq<Byte>, b: seq<Byte> := [0xf0, 0x90], [0x41];
    FlattenTwo(a, b);
    MalformedWhole(a + b);
    MalformedChunks(a, b);
    WriteAllTwo(UTF8, Start(UTF8), a, b);
    NothingToFinish(UTF8, WriteAll(UTF8, Start(UTF8), [a, b]).0);
    assert [a, b] == [[0xf0, 0x90], [0x41]];
  }

  lemma NothingToFinish(e: Encoding, s: State)
    requires s.Valid() && s.need == 0
    ensures Finish(e, s) == []
  {
  }

  lemma MalformedChunks(a: seq<Byte>, b: seq<Byte>)
    requires a == [0xf0, 0x90] && b == [0x41]
    ensures var (mid, x) := Write(UTF8, Start(UTF8), a);
            && x == [] && mid.need == 2
            && var (s, y) := Write(UTF8, mid, b);
            y == [Utf8.REPLACEMENT, 0x41] && s.need == 0
  {
    assert CheckIncomplete(a, 0) == (4, 2);
    assert CheckIncomplete(b, 0) == (0, 0);
    assert b[0..] == b && Utf8.DecodeHead(b) == Some(0x41);
    assert Utf8.Decode(b) == [0x41] + Utf8.Decode(b[1..]);
  }

  lemma MalformedWhole(b: seq<Byte>)
    requires b == [0xf0, 0x90, 0x41]
    ensures Utf8.Decode(b) == [Utf8.REPLACEMENT, Utf8.REPLACEMENT, 0x41]
  {
    assert Utf8.DecodeHead(b) == None;
    assert Utf8.DecodeHead(b[1..]) == None;
    assert b[1..][1..] == [0x41] && Utf8.DecodeHead([0x41]) == Some(0x41);
    assert Utf8.Decode([0x41]) == [0x41] + Utf8.Decode([]);
  }
}
