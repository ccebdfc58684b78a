/** The streaming block hash: `update` fills a block and compresses whenever it is full, `digest` pads
    and compresses the rest. The compression function is left abstract. */
module BlockHash {
  import opened Bytes
  import opened Chunks

  /** The least integer a JavaScript number can no longer count to reliably. */
  const MAX_LENGTH := 0x20_0000_0000_0000

  // The meaning of a hash: a fold over the blocks of the padded message.

  /** The blocks of `data`, folded from the left. */
  function FoldBlocks<S>(compress: (S, seq<Byte>) -> S, b: nat, initial: S, data: seq<Byte>): S
    requires b > 0
    decreases |data|
  {
    if |data| < b then initial
    else compress(FoldBlocks(compress, b, initial, data[..|data| - b]), data[|data| - b..])
  }

  /** `p` cut into blocks of `b` bytes, and the states that the hash goes through: the initial one, and one more behind
      each block. */
  ghost predicate IsChain<S>(
    compress: (S, seq<Byte>) -> S, b: nat, initial: S, p: seq<Byte>, blocks: seq<seq<Byte>>, states: seq<S>
  ) {
    && Flatten(blocks) == p && (forall i :: 0 <= i < |blocks| ==> |blocks[i]| == b)
    && |states| == |blocks| + 1 && states[0] == initial
    && forall i :: 0 <= i < |blocks| ==> states[i + 1] == compress(states[i], blocks[i])
  }

  lemma {:induction false} FoldIsChain<S>(compress: (S, seq<Byte>) -> S, b: nat, initial: S, p: seq<Byte>)
    returns (blocks: seq<seq<Byte>>, states: seq<S>)
    requires b > 0 && |p| % b == 0
    ensures IsChain(compress, b, initial, p, blocks, states)
    ensures states[|states| - 1] == FoldBlocks(compress, b, initial, p)
    decreases |p|
  {
    if |p| < b {
      RemainderUnique(|p|, 0, |p|, b);
      blocks, states := [], [initial];
    } else {
      var front, last := p[..|p| - b], p[|p| - b..];
      OneBlockLess(|p|, b);
      blocks, states := FoldIsChain(compress, b, initial, front);
      blocks := blocks + [last];
      FlattenPrefix(blocks, |blocks| - 1);
      assert blocks[..|states| - 1] + [last] == blocks[..|blocks|] == blocks && front + last == p;
      states := states + [compress(states[|states| - 1], last)];
    }
  }

  lemma OneBlockLess(n: nat, b: nat)
    requires 0 < b <= n && n % b == 0
    ensures (n - b) % b == 0
  {
    assert n - b == (n / b - 1) * b + 0;
    RemainderUnique(n - b, n / b - 1, 0, b);
  }

  /** The padding of section 5.1 of FIPS 180-4 spelled out: the message, 0x80, as few zeros as possible, and the length
      in bits in the last eight bytes, the most significant first. */
  ghost predicate IsPadded(p: seq<Byte>, m: seq<Byte>, b: nat, f: nat)
    requires 0 < f && f + 8 <= b
  {
    var n, v := |m|, 8 * |m|;
    && |p| % b == 0 && n + 1 + (b - f) <= |p| < n + 1 + (b - f) + b
    && p[..n] == m && p[n] == 0x80 && (forall i :: n < i < |p| - 8 ==> p[i] == 0)
    && p[|p| - 8..]
       == [v / 0x100_0000_0000_0000, v / 0x1_0000_0000_0000 % 256, v / 0x100_0000_0000 % 256, v / 0x1_0000_0000 % 256,
           v / 0x100_0000 % 256, v / 0x1_0000 % 256, v / 256 % 256, v % 256]
  }

  /** How many zero bytes follow the byte 0x80, for block size `b` and final size `f`. */
  function ZeroCount(n: nat, b: nat, f: nat): (k: nat)
    requires b > 0
  {
    (f - n - 1) % b
  }

  /** The padding of section 5.1 of FIPS 180-4: 0x80, zeros, and the length in bits. */
  function Pad(message: seq<Byte>, b: nat, f: nat): seq<Byte>
    requires 0 < f < b
  {
    message + [0x80] + Zeros(ZeroCount(|message|, b, f)) + BigEndian(8 * |message|, b - f)
  }

  lemma ZeroCountValue(n: nat, b: nat, f: nat)
    requires 0 < f < b
    ensures ZeroCount(n, b, f) == f - 1 - n % b + (if n % b < f then 0 else b)
  {
    var q, e := n / b, n % b;
    assert n == q * b + e;
    if e < f {
      assert f - n - 1 == (-q) * b + (f - 1 - e);
      RemainderUnique(f - n - 1, -q, f - 1 - e, b);
    } else {
      assert f - n - 1 == (-q - 1) * b + (f - 1 - e + b);
      RemainderUnique(f - n - 1, -q - 1, f - 1 - e + b, b);
    }
  }

  lemma NonNegativeMultiple(c: int, z: nat, b: nat)
    requires z < b && c * b + z >= 0
    ensures c >= 0 && c * b >= 0
  {
    if c < 0 {
      LaterMultiple(0, c, b);
    }
  }

  /** The number of zeros is the least that brings the length field to the end of a block. */
  lemma ZeroCountIsLeast(n: nat, b: nat, f: nat, k: nat)
    requires 0 < f < b
    ensures (n + 1 + ZeroCount(n, b, f)) % b == f
    ensures (n + 1 + k) % b == f ==> ZeroCount(n, b, f) <= k
  {
    var z, q := ZeroCount(n, b, f), (f - n - 1) / b;
    assert f - n - 1 == q * b + z;
    assert n + 1 + z == (-q) * b + f;
    RemainderUnique(n + 1 + z, -q, f, b);
    if (n + 1 + k) % b == f {
      var p := (n + 1 + k) / b;
      assert n + 1 + k == p * b + f;
      assert k == (p + q) * b + z;
      NonNegativeMultiple(p + q, z, b);
    }
  }

  /** The padded message fills whole blocks: one more than the message does, or two when its last block
      has no room for the length. */
  lemma PaddedLength(message: seq<Byte>, b: nat, f: nat)
    requires 0 < f < b
    ensures var e := |message| % b;
            |Pad(message, b, f)| == |message| - e + (if e < f then b else 2 * b)
    ensures |Pad(message, b, f)| % b == 0
  {
    var q, e := |message| / b, |message| % b;
    ZeroCountValue(|message|, b, f);
    var c := if e < f then 1 else 2;
    assert |message| == q * b + e;
    assert |Pad(message, b, f)| == (q + c) * b + 0;
    RemainderUnique(|Pad(message, b, f)|, q + c, 0, b);
  }

  lemma {:induction false} LengthFits(v: nat, n: nat)
    requires v < 0x1_0000_0000_0000_0000 && n >= 8
    ensures v < Pow256(n)
  {
    if n == 8 {
      assert Pow256(4) == 0x1_0000_0000;
    } else {
      LengthFits(v, n - 1);
    }
  }

  /** Different messages have different paddings. */
  lemma PadInjective(m1: seq<Byte>, m2: seq<Byte>, b: nat, f: nat)
    requires 0 < f && f + 8 <= b
    requires |m1| <= MAX_LENGTH && |m2| <= MAX_LENGTH
    requires Pad(m1, b, f) == Pad(m2, b, f)
    ensures m1 == m2
  {
    var p := Pad(m1, b, f);
    var w := b - f;
    assert p[|p| - w..] == BigEndian(8 * |m1|, w);
    assert p[|p| - w..] == BigEndian(8 * |m2|, w);
    LengthFits(8 * |m1|, w);
    LengthFits(8 * |m2|, w);
    BigEndianInjective(8 * |m1|, 8 * |m2|, w);
    assert m1 == p[..|m1|] && m2 == p[..|m2|];
  }

  /** A block that zeros fill up has room for the length. */
  lemma SameBlock(before: seq<Byte>, front: seq<Byte>, b: nat, block: seq<Byte>)
    requires |front| + 8 <= b && block == front + Zeros(b - |front|)
    ensures block[b - 8..] == Zeros(8)
    ensures before + block[..b - 8] == before + front + Zeros(b - 8 - |front|)
  {
    assert block[..b - 8] == front + Zeros(b - 8 - |front|);
  }

  /** A block that zeros fill up, and another one of zeros for the length. */
  lemma OwnBlock(before: seq<Byte>, front: seq<Byte>, b: nat, folded: seq<Byte>, block: seq<Byte>)
    requires |front| <= b && 8 <= b
    requires folded == before + (front + Zeros(b - |front|)) && block == Zeros(b)
    ensures block[b - 8..] == Zeros(8)
    ensures folded + block[..b - 8] == before + front + (Zeros(b - |front|) + Zeros(b - 8))
  {
    assert block[..b - 8] == Zeros(b - 8);
    assert folded + Zeros(b - 8) == before + front + (Zeros(b - |front|) + Zeros(b - 8));
  }

  // The object.

  class BlockHash<S> {
    const blockSize: nat
    const finalSize: nat
    const compress: (S, seq<Byte>) -> S
    const initial: S
    const block: array<Byte>
    var len: nat
    var state: S
    /** The full blocks seen so far. */
    ghost var folded: seq<Byte>

    ghost predicate Valid()
      reads this, block
    {
      && 0 < finalSize && finalSize + 8 <= blockSize == block.Length
      && |folded| == len - len % blockSize
      && state == FoldBlocks(compress, blockSize, initial, folded)
    }

    /** Everything that `update` has been given. */
    ghost function Message(): seq<Byte>
      reads this, block
      requires Valid()
    {
      folded + block[..len % blockSize]
    }

    constructor (blockSize: nat, finalSize: nat, compress: (S, seq<Byte>) -> S, initial: S)
      requires 0 < finalSize && finalSize + 8 <= blockSize
      ensures Valid() && Message() == [] && fresh(block)
      ensures this.blockSize == blockSize && this.finalSize == finalSize
      ensures this.compress == compress && this.initial == initial
    {
      this.blockSize, this.finalSize, this.compress, this.initial := blockSize, finalSize, compress, initial;
      block := new Byte[blockSize](_ => 0);
      len, state, folded := 0, initial, [];
      new;
      RemainderUnique(0, 0, 0, blockSize);
    }

    /** `_update` */
    method Compress()
      requires blockSize == block.Length > 0
      requires state == FoldBlocks(compress, blockSize, initial, folded)
      modifies this`state, this`folded
      ensures folded == old(folded) + block[..]
      ensures state == FoldBlocks(compress, blockSize, initial, folded)
    {
      state := compress(state, block[..]);
      folded := folded + block[..];
      assert folded[..|folded| - blockSize] == old(folded);
      assert folded[|folded| - blockSize..] == block[..];
    }

    /** The inner loop of `update`. */
    method Fill(a: nat, t: seq<Byte>, u: nat, c: nat)
      requires a + c <= block.Length && u + c <= |t|
      modifies block
      ensures block[..a + c] == old(block[..a]) + t[u..u + c]
    {
      var f := 0;
      while f < c
        invariant f <= c
        invariant block[..a + f] == old(block[..a]) + t[u..u + f]
      {
        ghost var before := block[..a + f];
        block[a + f] := t[u + f];
        f := f + 1;
        assert block[..a + f] == before + [t[u + f - 1]];
        assert t[u..u + f] == t[u..u + f - 1] + [t[u + f - 1]];
      }
    }

    /** The body of the loop of `update`, for a piece that ends in the current block. */
    method Absorb(a: nat, t: seq<Byte>, u: nat, c: nat)
      requires a + c <= blockSize == block.Length && u + c <= |t| && c > 0
      requires state == FoldBlocks(compress, blockSize, initial, folded)
      modifies this`state, this`folded, block
      ensures state == FoldBlocks(compress, blockSize, initial, folded)
      ensures var full := a + c == blockSize;
              && |folded| == |old(folded)| + (if full then blockSize else 0)
              && folded + block[..if full then 0 else a + c] == old(folded + block[..a]) + t[u..u + c]
    {
      hide FoldBlocks;
      Fill(a, t, u, c);
      if a + c == blockSize {
        assert block[..a + c] == block[..];
        Compress();
      }
    }

    method Update(t: seq<Byte>)
      requires Valid()
      modifies this`len, this`state, this`folded, block
      ensures Valid() && Message() == old(Message()) + t
    {
      hide FoldBlocks;
      var o, s, u := |t|, len, 0;
      ghost var m := Message();
      while u < o
        invariant u <= o && s == len + u && len == old(len)
        invariant 0 < finalSize && finalSize + 8 <= blockSize == block.Length
        invariant |folded| == s - s % blockSize
        invariant state == FoldBlocks(compress, blockSize, initial, folded)
        invariant folded + block[..s % blockSize] == m + t[..u]
      {
        var a := s % blockSize;
        var c := if o - u < blockSize - a then o - u else blockSize - a;
        RemainderAdd(s, c, blockSize);
        Absorb(a, t, u, c);
        assert m + t[..u] + t[u..u + c] == m + t[..u + c];
        u := u + c;
        s := s + c;
      }
      assert t[..o] == t;
      len := len + o;
    }

    /** `writeUInt32BE` */
    method WriteUInt32BE(v: nat, at: nat)
      requires v < 0x1_0000_0000 && at + 4 <= block.Length
      modifies block
      ensures block[..] == old(block[..at]) + BigEndian(v, 4) + old(block[at + 4..])
    {
      hide BigEndian;
      FourBytes(v);
      block[at], block[at + 1] := v / 0x100_0000, v / 0x1_0000 % 256;
      block[at + 2], block[at + 3] := v / 256 % 256, v % 256;
    }

    /** `fill(0, from)` */
    method Clear(from: nat)
      requires from <= block.Length
      modifies block
      ensures block[..] == old(block[..from]) + Zeros(block.Length - from)
    {
      var i := from;
      while i < block.Length
        invariant from <= i <= block.Length
        invariant block[..from] == old(block[..from])
        invariant forall j :: from <= j < i ==> block[j] == 0
      {
        block[i] := 0;
        i := i + 1;
      }
    }

    /** The last block: its eight last bytes, all zero so far, take the bit length as one or two words. */
    method WriteLength()
      requires len <= MAX_LENGTH
      requires 8 <= block.Length && block[block.Length - 8..] == Zeros(8)
      modifies block
      ensures block[..] == old(block[..block.Length - 8]) + BigEndian(8 * len, 8)
    {
      hide BigEndian;
      var r := 8 * len;
      ghost var front := block[..block.Length - 8];
      LengthWords(r);
      if r <= 0xffff_ffff {
        assert block[..block.Length - 4] == front + block[block.Length - 8..][..4];
        WriteUInt32BE(r, block.Length - 4);
      } else {
        var n := r % 0x1_0000_0000;
        var i := (r - n) / 0x1_0000_0000;
        WriteUInt32BE(i, block.Length - 8);
        assert block[..block.Length - 4] == front + BigEndian(i, 4);
        WriteUInt32BE(n, block.Length - 4);
      }
    }

    /** The first half of `digest`: 0x80 and zeros, and a block of its own if the length does not fit. */
    method StartPadding(e: nat)
      requires 0 < finalSize && finalSize + 8 <= blockSize == block.Length && e < blockSize
      requires state == FoldBlocks(compress, blockSize, initial, folded)
      modifies this`state, this`folded, block
      ensures state == FoldBlocks(compress, blockSize, initial, folded)
      ensures block[blockSize - 8..] == Zeros(8)
      ensures folded + block[..blockSize - 8] == old(folded + block[..e]) + [0x80]
        + (if e < finalSize then Zeros(blockSize - 8 - e - 1) else Zeros(blockSize - e - 1) + Zeros(blockSize - 8))
    {
      hide FoldBlocks, Zeros;
      ghost var front, before := block[..e] + [0x80], folded;
      assert before + block[..e] + [0x80] == before + front;
      block[e] := 128;
      Clear(e + 1);
      assert block[..] == front + Zeros(blockSize - |front|);
      if e < finalSize {
        SameBlock(before, front, blockSize, block[..]);
      } else {
        Compress();
        Clear(0);
        assert block[..] == [] + Zeros(blockSize) == Zeros(blockSize);
        OwnBlock(before, front, blockSize, folded, block[..]);
      }
      assert block[..blockSize - 8] == block[..][..blockSize - 8];
      assert block[blockSize - 8..] == block[..][blockSize - 8..];
    }

    /** The hash of everything given to `update`. The object is of no use afterwards. */
    method Digest() returns (d: S)
      requires Valid() && len <= MAX_LENGTH
      modifies this`state, this`folded, block
      ensures d == FoldBlocks(compress, blockSize, initial, Pad(old(Message()), blockSize, finalSize))
      ensures exists p, blocks, states ::
                && IsPadded(p, old(Message()), blockSize, finalSize)
                && IsChain(compress, blockSize, initial, p, blocks, states) && d == states[|blocks|]
    {
      hide BigEndian, FoldBlocks, Pad, IsPadded, IsChain;
      ghost var m := Message();
      var e := len % blockSize;
      PadFromBlocks(folded, block[..e], blockSize, finalSize);
      StartPadding(e);
      ghost var front := folded + block[..blockSize - 8];
      WriteLength();
      Compress();
      assert folded == front + BigEndian(8 * len, 8);
      d := state;
      ghost var p, blocks, states := DigestIsChain(compress, blockSize, finalSize, initial, m);
    }
  }

  lemma DigestIsChain<S>(compress: (S, seq<Byte>) -> S, b: nat, f: nat, initial: S, m: seq<Byte>)
    returns (p: seq<Byte>, blocks: seq<seq<Byte>>, states: seq<S>)
    requires 0 < f && f + 8 <= b && |m| <= MAX_LENGTH
    ensures IsPadded(p, m, b, f) && IsChain(compress, b, initial, p, blocks, states)
    ensures |states| == |blocks| + 1 && FoldBlocks(compress, b, initial, Pad(m, b, f)) == states[|blocks|]
  {
    hide Pad, IsPadded, FoldBlocks;
    p := Pad(m, b, f);
    PadIsPadded(m, b, f);
    PaddedLength(m, b, f);
    blocks, states := FoldIsChain(compress, b, initial, p);
  }

  lemma FourBytes(v: nat)
    requires v < 0x1_0000_0000
    ensures BigEndian(v, 4) == [v / 0x100_0000, v / 0x1_0000 % 256, v / 256 % 256, v % 256]
  {
    assert BigEndian(v / 0x1_0000, 2) == [v / 0x100_0000, v / 0x1_0000 % 256];
  }

  lemma Pow256Of4()
    ensures Pow256(4) == 0x1_0000_0000
  {
  }

  lemma HighWord(r: nat)
    ensures (r - r % 0x1_0000_0000) / 0x1_0000_0000 == r / 0x1_0000_0000
    ensures r <= 0xffff_ffff ==> r / 0x1_0000_0000 == 0 && r % 0x1_0000_0000 == r
  {
  }

  /** The two 32-bit words of a length. */
  lemma LengthWords(r: nat)
    ensures BigEndian(r, 8) == BigEndian((r - r % 0x1_0000_0000) / 0x1_0000_0000, 4) + BigEndian(r % 0x1_0000_0000, 4)
    ensures r <= 0xffff_ffff ==> BigEndian(r, 8) == Zeros(4) + BigEndian(r, 4)
  {
    hide BigEndian, Pow256;
    Pow256Of4();
    BigEndianSplit(r, 4, 4);
    BigEndianOfZero(4);
    HighWord(r);
  }

  /** The padding, from the message's full blocks and its tail. */
  lemma PadFromBlocks(full: seq<Byte>, tail: seq<Byte>, b: nat, f: nat)
    requires 0 < f && f + 8 <= b
    requires |tail| == |full + tail| % b && |full + tail| <= MAX_LENGTH
    ensures var e, n := |tail|, |full + tail|;
            Pad(full + tail, b, f) == full + tail + [0x80]
              + (if e < f then Zeros(b - 8 - e - 1) else Zeros(b - e - 1) + Zeros(b - 8)) + BigEndian(8 * n, 8)
  {
    var e, n := |tail|, |full + tail|;
    ZeroCountValue(n, b, f);
    LengthFits(8 * n, 8);
    BigEndianOfSmall(8 * n, 8, b - f - 8);
  }

  lemma LowFourBytes(v: nat, n: nat)
    ensures BigEndian(v, n + 4)
         == BigEndian(v / 0x1_0000_0000, n) + [v / 0x100_0000 % 256, v / 0x1_0000 % 256, v / 256 % 256, v % 256]
  {
    assert BigEndian(v / 0x1_0000, n + 2)
        == BigEndian(v / 0x1_0000_0000, n) + [v / 0x100_0000 % 256, v / 0x1_0000 % 256];
  }

  /** What a byte of the high word is in the whole number. */
  lemma HighByte(v: nat, p: nat)
    requires p > 0
    ensures v / 0x1_0000_0000 / p == v / (0x1_0000_0000 * p)
  {
    var q, r := v / 0x1_0000_0000, v % 0x1_0000_0000;
    var d, e := q / p, q % p;
    assert q == d * p + e;
    assert v == d * (0x1_0000_0000 * p) + (0x1_0000_0000 * e + r);
    LaterMultiple(p, e, 0x1_0000_0000);
    RemainderUnique(v, d, 0x1_0000_0000 * e + r, 0x1_0000_0000 * p);
  }

  lemma EightBytes(v: nat)
    requires v < 0x1_0000_0000_0000_0000
    ensures BigEndian(v, 8)
         == [v / 0x100_0000_0000_0000, v / 0x1_0000_0000_0000 % 256, v / 0x100_0000_0000 % 256, v / 0x1_0000_0000 % 256,
             v / 0x100_0000 % 256, v / 0x1_0000 % 256, v / 256 % 256, v % 256]
  {
    hide BigEndian;
    LowFourBytes(v, 4);
    FourBytes(v / 0x1_0000_0000);
    HighByte(v, 0x100_0000);
    HighByte(v, 0x1_0000);
    HighByte(v, 256);
  }

  lemma PadIsPadded(m: seq<Byte>, b: nat, f: nat)
    requires 0 < f && f + 8 <= b && |m| <= MAX_LENGTH
    ensures IsPadded(Pad(m, b, f), m, b, f)
  {
    hide BigEndian;
    var v, z := 8 * |m|, ZeroCount(|m|, b, f);
    PaddedLength(m, b, f);
    LengthFits(v, 8);
    BigEndianOfSmall(v, 8, b - f - 8);
    EightBytes(v);
    assert Pad(m, b, f) == m + [0x80] + Zeros(z + (b - f - 8)) + BigEndian(v, 8);
  }

  // Any way of cutting a message.

  /** Feeding a message piece by piece, however it is cut, hashes the padded whole message. Sizes 64 and
      56 are those of SHA-256, 128 and 112 those of SHA-512. */
  method HashChunks<S>(
    blockSize: nat, finalSize: nat, compress: (S, seq<Byte>) -> S, initial: S, chunks: seq<seq<Byte>>
  ) returns (d: S)
    requires 0 < finalSize && finalSize + 8 <= blockSize
    requires |Flatten(chunks)| <= MAX_LENGTH
    ensures exists p, blocks, states ::
              && IsPadded(p, Flatten(chunks), blockSize, finalSize)
              && IsChain(compress, blockSize, initial, p, blocks, states) && d == states[|blocks|]
    ensures d == FoldBlocks(compress, blockSize, initial, Pad(Flatten(chunks), blockSize, finalSize))
  {
    hide IsPadded, IsChain;
    var h := new BlockHash(blockSize, finalSize, compress, initial);
    var i := 0;
    assert chunks[..0] == [];
    while i < |chunks|
      invariant i <= |chunks|
      invariant fresh(h) && fresh(h.block) && h.Valid()
      invariant h.blockSize == blockSize && h.finalSize == finalSize
      invariant h.compress == compress && h.initial == initial
      invariant h.Message() == Flatten(chunks[..i])
    {
      h.Update(chunks[i]);
      FlattenPrefix(chunks, i);
      i := i + 1;
    }
    assert chunks[..i] == chunks;
    assert |h.Message()| == h.len;
    d := h.Digest();
  }
}
