/** Bytes and code units, big-endian numbers, and remainders by a divisor that is not a constant. */
module Bytes {
  type Byte = b: nat | b < 256

  /** A UTF-16 code unit, the element of a JavaScript string. */
  type Unit = u: nat | u < 0x1_0000

  function Zeros(n: nat): (z: seq<Byte>)
    ensures |z| == n
  {
    seq(n, _ => 0)
  }

  function Pow256(n: nat): (p: nat)
    ensures p > 0
  {
    if n == 0 then 1 else 256 * Pow256(n - 1)
  }

  /** `v` in `n` bytes, the most significant first; what does not fit is lost. */
  function BigEndian(v: nat, n: nat): (s: seq<Byte>)
    ensures |s| == n
  {
    if n == 0 then [] else BigEndian(v / 256, n - 1) + [v % 256]
  }

  lemma {:induction false} BigEndianInjective(a: nat, b: nat, n: nat)
    requires a < Pow256(n) && b < Pow256(n) && BigEndian(a, n) == BigEndian(b, n)
    ensures a == b
  {
    if n > 0 {
      var s, t := BigEndian(a, n), BigEndian(b, n);
      assert s[..n - 1] == BigEndian(a / 256, n - 1) && t[..n - 1] == BigEndian(b / 256, n - 1);
      assert s[n - 1] == a % 256 && t[n - 1] == b % 256;
      BigEndianInjective(a / 256, b / 256, n - 1);
    }
  }

  lemma {:induction false} BigEndianOfSmall(v: nat, n: nat, m: nat)
    requires v < Pow256(n)
    ensures BigEndian(v, m + n) == Zeros(m) + BigEndian(v, n)
    decreases n
  {
    if n > 0 {
      BigEndianOfSmall(v / 256, n - 1, m);
    } else {
      BigEndianOfZero(m);
    }
  }

  lemma {:induction false} BigEndianOfZero(m: nat)
    ensures BigEndian(0, m) == Zeros(m)
  {
    if m > 0 {
      BigEndianOfZero(m - 1);
    }
  }

  // Remainders by a divisor that is not a constant.

  lemma LaterMultiple(d: int, q: int, b: nat)
    requires d > q
    ensures d * b >= q * b + b
  {
    assert d * b == q * b + (d - q) * b;
    assert (d - q) * b == (d - q - 1) * b + b;
    assert (d - q - 1) * b >= 0;
  }

  lemma DivisionUnique(d: int, e: nat, q: int, r: nat, b: nat)
    requires e < b && r < b && d * b + e == q * b + r
    ensures d == q && e == r
  {
    if d > q {
      LaterMultiple(d, q, b);
    } else if d < q {
      LaterMultiple(q, d, b);
    }
  }

  lemma RemainderUnique(x: int, q: int, r: nat, b: nat)
    requires r < b && x == q * b + r
    ensures x % b == r && x / b == q
  {
    DivisionUnique(x / b, x % b, q, r, b);
  }

  /** Adding at most what is missing to the next multiple. */
  lemma RemainderAdd(x: nat, c: nat, b: nat)
    requires b > 0 && x % b + c <= b
    ensures (x + c) % b == if x % b + c == b then 0 else x % b + c
  {
    var q := x / b;
    assert x == q * b + x % b;
    if x % b + c == b {
      assert x + c == (q + 1) * b + 0;
      RemainderUnique(x + c, q + 1, 0, b);
    } else {
      RemainderUnique(x + c, q, x % b + c, b);
    }
  }

  function Quotient(v: nat, p: nat): nat
    requires p > 0
  {
    v / p
  }

  /** Cutting the lowest byte off a quotient and a remainder. */
  lemma LowestByte(v: nat, p: nat)
    requires p > 0
    ensures v % (256 * p) / 256 == v / 256 % p
    ensures v % (256 * p) % 256 == v % 256
    ensures Quotient(v, 256 * p) == Quotient(v / 256, p)
  {
    var q, r := v / (256 * p), v % (256 * p);
    assert v == q * (256 * p) + r;
    assert q * (256 * p) == (q * p) * 256;
    RemainderUnique(v, q * p + r / 256, r % 256, 256);
    RemainderUnique(v / 256, q, r / 256, p);
  }

  lemma {:induction false} BigEndianSplit(v: nat, m: nat, n: nat)
    ensures BigEndian(v, m + n) == BigEndian(Quotient(v, Pow256(n)), m) + BigEndian(v % Pow256(n), n)
    decreases n
  {
    hide Quotient;
    if n == 0 {
      QuotientByOne(v);
    } else {
      BigEndianSplit(v / 256, m, n - 1);
      LowestByte(v, Pow256(n - 1));
    }
  }

  lemma QuotientByOne(v: nat)
    ensures Quotient(v, 1) == v
  {
  }
}
