/** SHA-256 as a streaming context over any compression function: src/crypto/sha256.c. */
module Sha256 {
  import opened Machine
  import opened Arithmetic
  import opened Limbs
  import opened ByteOps

  type Words = w: seq<uint32> | |w| == 8 witness [0, 0, 0, 0, 0, 0, 0, 0]

  type Compression = (Words, Bytes) -> Words

  const INITIAL: Words :=
    [0x6a09e667, 0xbb67ae85, 0x3c6ef372, 0xa54ff53a, 0x510e527f, 0x9b05688c, 0x1f83d9ab, 0x5be0cd19]

  // ----- the hash of a whole message

  /** Section 5.1.1 of FIPS 180-4: a one bit, zeros to 56 modulo 64, and the length in bits. The
      length field is 64 bits wide. */
  function Padding(n: nat): Bytes {
    [0x80] + Zeros((119 - n % 64) % 64) + BigBytes((8 * n) % 0x1_0000_0000_0000_0000, 8)
  }

  /** Compression over consecutive 64-byte blocks. */
  function Fold(compress: Compression, blocks: Bytes): Words
    decreases |blocks|
  {
    if |blocks| < 64 then INITIAL
    else compress(Fold(compress, blocks[..|blocks| - 64]), blocks[|blocks| - 64..])
  }

  function Serialize(w: Words): (b: Bytes)
    ensures |b| == 32
  {
    BigBytes(w[0], 4) + BigBytes(w[1], 4) + BigBytes(w[2], 4) + BigBytes(w[3], 4)
    + BigBytes(w[4], 4) + BigBytes(w[5], 4) + BigBytes(w[6], 4) + BigBytes(w[7], 4)
  }

  function Digest(compress: Compression, msg: Bytes): (d: Bytes)
    ensures |d| == 32
  {
    Serialize(Fold(compress, msg + Padding(|msg|)))
  }

  /** The padded message is a whole number of blocks, and below 2^61 bytes the length field is
      the message's length in bits. */
  lemma PaddedLength(n: nat)
    ensures (n + |Padding(n)|) % 64 == 0
    ensures n < 0x2000_0000_0000_0000 ==> (8 * n) % 0x1_0000_0000_0000_0000 == 8 * n
  {
    hide Zeros, BigBytes;
    var z := (119 - n % 64) % 64;
    assert |Padding(n)| == 9 + z;
    PadArithmetic(n, n / 64, n % 64);
  }

  lemma PadArithmetic(n: nat, q: nat, r: nat)
    requires n == 64 * q + r && r < 64
    ensures (n + 9 + (119 - r) % 64) % 64 == 0
  {
    if r <= 55 {
      assert (119 - r) % 64 == 55 - r;
    } else {
      assert (119 - r) % 64 == 119 - r;
    }
  }

  /** A one bit, then zeros, then the message's length in bits as a 64-bit big-endian number; and no
      more zeros than it takes to fill a block. */
  lemma PaddingLayout(n: nat)
    ensures var p := Padding(n);
            && 9 <= |p| <= 72 && (n + |p|) % 64 == 0 && p[0] == 0x80
            && (forall i :: 1 <= i < |p| - 8 ==> p[i] == 0)
            && BE(p[|p| - 8..]) == (8 * n) % 0x1_0000_0000_0000_0000
  {
    hide BE, BigBytes;
    PaddedLength(n);
    var p, z := Padding(n), (119 - n % 64) % 64;
    var bits := (8 * n) % 0x1_0000_0000_0000_0000;
    assert p[|p| - 8..] == BigBytes(bits, 8);
    Pow2Words();
    BigBytesValue(bits, 8);
  }

  /** Below 2^61 bytes, different messages are different when padded. */
  lemma PaddedInjective(m: Bytes, m': Bytes)
    requires |m| < 0x2000_0000_0000_0000 && |m'| < 0x2000_0000_0000_0000
    requires m + Padding(|m|) == m' + Padding(|m'|)
    ensures m == m'
  {
    hide BE, Padding;
    var p, p' := Padding(|m|), Padding(|m'|);
    PaddingLayout(|m|);
    PaddingLayout(|m'|);
    var all := m + p;
    assert all[|all| - 8..] == p[|p| - 8..] && all[|all| - 8..] == p'[|p'| - 8..];
    assert m == all[..|m|] && m' == all[..|m'|];
  }

  /** From the first block to the last, one compression each. */
  function Iterate(compress: Compression, h: Words, blocks: Bytes): Words
    decreases |blocks|
  {
    if |blocks| < 64 then h else Iterate(compress, compress(h, blocks[..64]), blocks[64..])
  }

  lemma {:induction false} IterateLast(compress: Compression, h: Words, blocks: Bytes, last: Bytes)
    requires |blocks| % 64 == 0 && |last| == 64
    ensures Iterate(compress, h, blocks + last) == compress(Iterate(compress, h, blocks), last)
    decreases |blocks|
  {
    var all := blocks + last;
    if |blocks| == 0 {
      assert all[..64] == last && all[64..] == [];
    } else {
      assert all[..64] == blocks[..64] && all[64..] == blocks[64..] + last;
      IterateLast(compress, compress(h, blocks[..64]), blocks[64..], last);
    }
  }

  lemma IterateNothing(compress: Compression, h: Words, blocks: Bytes)
    requires |blocks| < 64
    ensures Iterate(compress, h, blocks) == h
  {
  }

  /** The fold is the iteration of section 6.2.2 of FIPS 180-4 from the initial value. */
  lemma {:induction false} FoldIterates(compress: Compression, blocks: Bytes)
    requires |blocks| % 64 == 0
    ensures Fold(compress, blocks) == Iterate(compress, INITIAL, blocks)
    decreases |blocks|
  {
    hide Iterate;
    if |blocks| == 0 {
      IterateNothing(compress, INITIAL, blocks);
    } else {
      var front, last := blocks[..|blocks| - 64], blocks[|blocks| - 64..];
      FoldIterates(compress, front);
      IterateLast(compress, INITIAL, front, last);
      assert blocks == front + last;
    }
  }

  /** v is the first 32 fractional bits of the square root of p, below its integer part. */
  ghost predicate RootBits(p: int, whole: int, v: int) {
    var r := 0x1_0000_0000 * whole + v;
    0 <= v < 0x1_0000_0000 && r * r <= p * 0x1_0000_0000_0000_0000 < (r + 1) * (r + 1)
  }

  /** The initial value: fractional parts of the square roots of the first eight primes. */
  lemma InitialIsRoots()
    ensures RootBits(2, 1, INITIAL[0]) && RootBits(3, 1, INITIAL[1]) && RootBits(5, 2, INITIAL[2])
    ensures RootBits(7, 2, INITIAL[3]) && RootBits(11, 3, INITIAL[4]) && RootBits(13, 3, INITIAL[5])
    ensures RootBits(17, 4, INITIAL[6]) && RootBits(19, 4, INITIAL[7])
  {
  }

  /** The digest is the eight words in order, each most significant byte first. */
  lemma SerializedWords(w: Words, i: nat)
    requires i < 8
    ensures BE(Serialize(w)[4 * i..4 * i + 4]) == w[i]
  {
    hide BigBytes, BE;
    var b := Serialize(w);
    assert b[4 * i..4 * i + 4] == BigBytes(w[i], 4);
    Pow2Words();
    BigBytesValue(w[i], 4);
    SmallMod(w[i], 0x1_0000_0000);
  }

  /** Zero bytes still missing when the buffer holds b. */
  function Missing(b: nat): nat
    requires b < 64
  {
    if b <= 56 then 56 - b else 120 - b
  }

  // ----- the state between updates

  /** h stands for the full blocks of msg and tail is what is left of it. */
  ghost predicate Represents(compress: Compression, h: Words, tail: Bytes, msg: Bytes) {
    && |tail| < 64 && |tail| <= |msg| && (|msg| - |tail|) % 64 == 0
    && tail == msg[|msg| - |tail|..]
    && h == Fold(compress, msg[..|msg| - |tail|])
  }

  lemma KeepStep(compress: Compression, h: Words, tail: Bytes, data: Bytes, msg: Bytes)
    requires Represents(compress, h, tail, msg) && |tail| + |data| < 64
    ensures Represents(compress, h, tail + data, msg + data)
  {
    hide Fold;
    var n := |msg| - |tail|;
    assert (msg + data)[..n] == msg[..n];
    assert (msg + data)[n..] == tail + data;
  }

  lemma BlockStep(compress: Compression, h: Words, tail: Bytes, data: Bytes, msg: Bytes)
    requires Represents(compress, h, tail, msg) && |tail| + |data| == 64
    ensures Represents(compress, compress(h, tail + data), [], msg + data)
  {
    var full, all := msg[..|msg| - |tail|], msg + data;
    assert all[..|all| - 64] == full && all[|all| - 64..] == tail + data;
    assert all[..|all|] == all && all[|all|..] == [];
  }

  class Context {
    const compress: Compression
    var h: Words
    const buf: array<uint8>
    var bufLen: nat
    var totalLen: uint64

    /** Everything fed so far. */
    ghost var msg: Bytes

    ghost predicate Valid()
      reads this, buf
    {
      Holds() && totalLen == |msg| % 0x1_0000_0000_0000_0000
    }

    ghost predicate Holds()
      reads this, buf
    {
      buf.Length == 64 && bufLen < 64 && Represents(compress, h, buf[..bufLen], msg)
    }

    constructor (c: Compression)
      ensures Valid() && fresh(buf) && compress == c && msg == []
    {
      compress := c;
      h := INITIAL;
      buf := new uint8[64];
      bufLen, totalLen, msg := 0, 0, [];
    }

    /** An independent copy: the struct assignment of a snapshot. */
    constructor Copy(c: Context)
      requires c.Valid()
      ensures Valid() && fresh(buf) && compress == c.compress && msg == c.msg
    {
      compress := c.compress;
      h := c.h;
      buf := new uint8[64](i requires 0 <= i < 64 && c.buf.Length == 64 reads c.buf => c.buf[i]);
      bufLen, totalLen, msg := c.bufLen, c.totalLen, c.msg;
      new;
      assert buf[..bufLen] == c.buf[..bufLen];
    }

    method Update(data: Bytes)
      requires Valid()
      modifies this`h, this`bufLen, this`totalLen, this`msg, buf
      ensures Valid() && msg == old(msg) + data
    {
      hide Represents;
      totalLen := (totalLen as int + |data|) % 0x1_0000_0000_0000_0000;
      CountStep(|msg|, |data|);
      var off := 0;
      assert msg + data[..0] == msg;
      while off < |data|
        invariant 0 <= off <= |data| && Holds() && msg == old(msg) + data[..off]
        invariant totalLen == (old(totalLen) as int + |data|) % 0x1_0000_0000_0000_0000
      {
        var take := Absorb(data[off..]);
        assert data[..off + take] == data[..off] + data[off..][..take];
        off := off + take;
      }
      assert data[..off] == data;
    }

    /** Takes as much as the buffer has room for; a full buffer is compressed. */
    method Absorb(data: Bytes) returns (take: nat)
      requires Holds() && |data| > 0
      modifies this`h, this`bufLen, this`msg, buf
      ensures Holds() && 0 < take <= |data| && msg == old(msg) + data[..take]
    {
      hide Represents;
      ghost var tail := buf[..bufLen];
      take := CopyIn(data);
      if bufLen == 64 {
        BlockStep(compress, h, tail, data[..take], msg);
        assert buf[..] == buf[..64];
        h := compress(h, buf[..]);
        bufLen := 0;
        assert buf[..0] == [];
      } else {
        KeepStep(compress, h, tail, data[..take], msg);
      }
      msg := msg + data[..take];
    }

    method CopyIn(data: Bytes) returns (take: nat)
      requires bufLen < buf.Length == 64 && |data| > 0
      modifies this`bufLen, buf
      ensures 0 < take <= |data| && bufLen == old(bufLen) + take <= 64
      ensures buf[..bufLen] == old(buf[..bufLen]) + data[..take]
    {
      take := 64 - bufLen;
      if take > |data| {
        take := |data|;
      }
      forall i | 0 <= i < take {
        buf[bufLen + i] := data[i];
      }
      bufLen := bufLen + take;
    }

    /** Pads through the ordinary update path; the padding loop ends. */
    method Final() returns (out: Bytes)
      requires Valid()
      modifies this`h, this`bufLen, this`totalLen, this`msg, buf
      ensures out == Digest(compress, old(msg))
    {
      hide Represents, Fold, BigBytes, Zeros;
      ghost var m, n := msg, |msg|;
      var bitLen: uint64 := (totalLen as int * 8) % 0x1_0000_0000_0000_0000;
      BitCount(n);
      Update([0x80]);
      PadZeros(n);
      var length := BigBytes(bitLen, 8);
      Update(length);
      assert msg == m + Padding(n);
      PaddedLength(n);
      WholeBlocks(compress, h, buf[..bufLen], msg);
      out := Serialize(h);
    }

    method PadZeros(ghost n: nat)
      requires Valid() && |msg| == n + 1
      modifies this`h, this`bufLen, this`totalLen, this`msg, buf
      ensures Valid() && msg == old(msg) + Zeros((119 - n % 64) % 64)
    {
      hide Represents;
      ghost var zeros := 0;
      TailLength(compress, h, buf[..bufLen], msg);
      PadStart(n, bufLen);
      while bufLen != 56
        invariant Valid() && msg == old(msg) + Zeros(zeros)
        invariant zeros + Missing(bufLen) == (119 - n % 64) % 64
        decreases Missing(bufLen)
      {
        ghost var before, count := bufLen, |msg|;
        TailLength(compress, h, buf[..bufLen], msg);
        Update([0]);
        zeros := zeros + 1;
        TailLength(compress, h, buf[..bufLen], msg);
        OneMore(count);
        PadNext(before, bufLen);
      }
    }
  }

  lemma CountStep(n: nat, k: nat)
    ensures (n % 0x1_0000_0000_0000_0000 + k) % 0x1_0000_0000_0000_0000 == (n + k) % 0x1_0000_0000_0000_0000
  {
  }

  lemma BitCount(n: nat)
    ensures (n % 0x1_0000_0000_0000_0000 * 8) % 0x1_0000_0000_0000_0000 == (8 * n) % 0x1_0000_0000_0000_0000
  {
  }

  lemma TailLength(compress: Compression, h: Words, tail: Bytes, msg: Bytes)
    requires Represents(compress, h, tail, msg)
    ensures |tail| == |msg| % 64
  {
  }

  lemma PadStart(n: nat, bufLen: nat)
    requires bufLen == (n + 1) % 64
    ensures bufLen < 64 && Missing(bufLen) == (119 - n % 64) % 64
  {
    var r := n % 64;
    OneMore(n);
    if r == 63 {
      assert bufLen == 0;
    } else {
      assert bufLen == r + 1;
    }
  }

  lemma OneMore(n: nat)
    ensures (n + 1) % 64 == (n % 64 + 1) % 64
  {
  }

  lemma PadNext(before: nat, after: nat)
    requires before < 64 && before != 56 && after == (before + 1) % 64
    ensures Missing(after) == Missing(before) - 1
  {
  }

  lemma WholeBlocks(compress: Compression, h: Words, tail: Bytes, msg: Bytes)
    requires Represents(compress, h, tail, msg) && |msg| % 64 == 0
    ensures h == Fold(compress, msg)
  {
    hide Fold;
    assert msg[..|msg|] == msg;
  }
}
