/** Poly1305 (section 2.5 of RFC 8439) as a streaming context: src/crypto/poly1305.c. */
module Poly1305 {
  import opened Machine
  import opened Arithmetic
  import opened Limbs
  import opened ByteOps
  import opened Poly1305Field

  // ----- the polynomial

  /** A block of up to sixteen bytes, with a one bit above its last byte. */
  function BlockValue(b: seq<int>): int {
    LE(b) + Pow(256, |b|)
  }

  /** c1 r^q + c2 r^(q-1) + ... + cq r over the blocks of msg, without any reduction. */
  function Polynomial(r: int, msg: seq<int>): int
    decreases |msg|
  {
    if |msg| == 0 then 0
    else
      var n := (|msg| - 1) / 16 * 16;
      (Polynomial(r, msg[..n]) + BlockValue(msg[n..])) * r
  }

  function ClampWord(w: int, first: bool): int {
    w % 0x1000_0000 - (if first then 0 else w % 4)
  }

  /** The first half of the key as r, with the 22 bits of section 2.5 of RFC 8439 cleared. */
  function KeyR(key: seq<int>): int
    requires |key| == 32
  {
    ClampWord(Word(key, 0), true) + 0x1_0000_0000 * ClampWord(Word(key, 4), false)
    + 0x1_0000_0000_0000_0000 * ClampWord(Word(key, 8), false)
    + 0x1_0000_0000_0000_0000_0000_0000 * ClampWord(Word(key, 12), false)
  }

  function Tag(key: seq<int>, msg: seq<int>): int
    requires |key| == 32
  {
    (Polynomial(KeyR(key), msg) % Q + LE(key[16..])) % 0x1_0000_0000_0000_0000_0000_0000_0000_0000
  }

  lemma PolynomialBlock(r: int, m: seq<int>, b: seq<int>)
    requires |m| % 16 == 0 && 0 < |b| <= 16
    ensures Polynomial(r, m + b) == (Polynomial(r, m) + BlockValue(b)) * r
  {
    assert (|m + b| - 1) / 16 * 16 == |m|;
    assert (m + b)[..|m|] == m && (m + b)[|m|..] == b;
  }

  // ----- the closed form

  function BlockCount(n: nat): nat {
    (n + 15) / 16
  }

  /** The i-th block: sixteen bytes, the last one possibly fewer. */
  function Block(msg: seq<int>, i: nat): seq<int>
    requires i < BlockCount(|msg|)
  {
    msg[16 * i..if 16 * i + 16 <= |msg| then 16 * i + 16 else |msg|]
  }

  /** The sum over the first i blocks of the block's value times r^(q - its index). */
  function Terms(r: int, msg: seq<int>, q: nat, i: nat): int
    requires i <= BlockCount(|msg|) && i <= q
  {
    if i == 0 then 0 else Terms(r, msg, q, i - 1) + BlockValue(Block(msg, i - 1)) * Pow(r, q - (i - 1))
  }

  lemma {:induction false} TermsScaled(r: int, msg: seq<int>, q: nat, i: nat)
    requires i <= BlockCount(|msg|) && i <= q
    ensures Terms(r, msg, q + 1, i) == Terms(r, msg, q, i) * r
  {
    hide BlockValue, Block;
    if i > 0 {
      TermsScaled(r, msg, q, i - 1);
      var b, w := BlockValue(Block(msg, i - 1)), Pow(r, q - (i - 1));
      assert Pow(r, q + 1 - (i - 1)) == r * w;
      MulDistribR(Terms(r, msg, q, i - 1), b * w, r);
      MulAssoc(b, w, r);
    }
  }

  lemma {:induction false} TermsPrefix(r: int, msg: seq<int>, n: nat, q: nat, i: nat)
    requires n <= |msg| && n % 16 == 0 && i <= BlockCount(n) && i <= q
    ensures BlockCount(n) <= BlockCount(|msg|) && Terms(r, msg[..n], q, i) == Terms(r, msg, q, i)
  {
    hide BlockValue, Pow, Block;
    CountGrows(n, |msg|);
    if i > 0 {
      TermsPrefix(r, msg, n, q, i - 1);
      SameBlock(msg, n, i - 1);
    }
  }

  lemma CountGrows(n: nat, l: nat)
    requires n <= l
    ensures BlockCount(n) <= BlockCount(l)
  {
  }

  lemma SameBlock(msg: seq<int>, n: nat, i: nat)
    requires n <= |msg| && n % 16 == 0 && i < BlockCount(n)
    ensures i < BlockCount(|msg|) && Block(msg[..n], i) == Block(msg, i)
  {
    assert 16 * i + 16 <= n;
  }

  /** Where the last block starts. */
  lemma LastStart(l: nat)
    requires l > 0
    ensures var n, q := (l - 1) / 16 * 16, BlockCount(l);
            q > 0 && n == 16 * (q - 1) && BlockCount(n) == q - 1 && n < l <= n + 16
  {
    var q := (l - 1) / 16;
    DivModUnique(l + 15, q + 1, l - 1 - 16 * q, 16);
    DivModUnique(16 * q + 15, q, 15, 16);
  }

  lemma NoBlocks()
    ensures BlockCount(0) == 0
  {
  }

  lemma LastIs(msg: seq<int>, n: nat, i: nat)
    requires n == 16 * i && i < BlockCount(|msg|) && n <= |msg| <= n + 16
    ensures Block(msg, i) == msg[n..]
  {
  }

  /** With q blocks the polynomial is the sum of c_i r^(q - i), i from 0 to q - 1. */
  lemma {:induction false} ClosedForm(r: int, msg: seq<int>)
    ensures Polynomial(r, msg) == Terms(r, msg, BlockCount(|msg|), BlockCount(|msg|))
    decreases |msg|
  {
    hide BlockValue, Block, BlockCount;
    if |msg| == 0 {
      NoBlocks();
    } else {
      var n, q := (|msg| - 1) / 16 * 16, BlockCount(|msg|);
      var front := msg[..n];
      LastStart(|msg|);
      ClosedForm(r, front);
      TermsPrefix(r, msg, n, q - 1, q - 1);
      TermsScaled(r, msg, q - 1, q - 1);
      LastIs(msg, n, q - 1);
      assert Pow(r, 1) == r;
      MulDistribR(Polynomial(r, front), BlockValue(msg[n..]), r);
    }
  }

  /** The tag of the empty message is the pad. */
  lemma EmptyTag(key: seq<int>)
    requires |key| == 32 && AreDigits(key, 256)
    ensures Tag(key, []) == LE(key[16..])
  {
    hide KeyR, Value;
    ValueBound(key[16..], 256);
    Pow256Half();
    SmallMod(LE(key[16..]), 0x1_0000_0000_0000_0000_0000_0000_0000_0000);
  }

  lemma Pow256Half()
    ensures Pow(256, 16) == 0x1_0000_0000_0000_0000_0000_0000_0000_0000
  {
    assert Pow(256, 4) == 0x1_0000_0000;
    PowAdd(256, 4, 4);
    PowAdd(256, 8, 8);
  }

  // ----- blocks

  method AddBlock(h: seq<uint32>, block17: Bytes) returns (o: seq<uint32>)
    requires Carried(h) && |block17| == 17 && block17[16] <= 1
    ensures Loaded(o) && V(o) == V(h) + LE(block17)
  {
    var t := BytesToLimbs(block17);
    var a := new uint32[5];
    for i := 0 to 5
      invariant forall k :: 0 <= k < i ==> a[k] == h[k] + t[k]
    {
      a[i] := h[i] + t[i];
    }
    o := a[..];
  }

  method Absorb(h: seq<uint32>, r: seq<uint32>, s: seq<uint32>, block17: Bytes, ghost b: seq<int>)
    returns (o: seq<uint32>)
    requires Carried(h) && Keyed(r, s) && |block17| == 17 && block17[16] <= 1
    requires LE(block17) == BlockValue(b)
    ensures |o| == 5 && Carried(o)
    ensures Cong(V(o), (V(h) + BlockValue(b)) * V(r), Q)
  {
    var loaded := AddBlock(h, block17);
    o := MulMod(loaded, r, s);
  }

  lemma PaddedBlock(b: seq<int>, block17: seq<int>)
    requires |b| <= 16 && |block17| == 17 && b == block17[..|b|] && block17[|b|] == 1
    requires forall i :: |b| < i < 17 ==> block17[i] == 0
    ensures LE(block17) == BlockValue(b)
  {
    ValueSplit(block17, |b|, 256);
    var rest := block17[|b|..];
    ValueZero(rest[1..], 256);
  }

  method ProcessFullBlock(h: seq<uint32>, r: seq<uint32>, s: seq<uint32>, block: Bytes) returns (o: seq<uint32>)
    requires Carried(h) && Keyed(r, s) && |block| == 16
    ensures |o| == 5 && Carried(o)
    ensures Cong(V(o), (V(h) + BlockValue(block)) * V(r), Q)
  {
    var block17 := block + [1];
    PaddedBlock(block, block17);
    o := Absorb(h, r, s, block17, block);
  }

  // ----- the context

  /** Byte i of r, as section 2.5 of RFC 8439 clears its bits. */
  function ClampedByte(key: Bytes, i: nat): uint8
    requires i < 16 <= |key|
  {
    if i == 3 || i == 7 || i == 11 || i == 15 then key[i] % 16
    else if i == 4 || i == 8 || i == 12 then key[i] - key[i] % 4
    else key[i]
  }

  function ClampedBytes(key: Bytes): (b: Bytes)
    requires |key| == 32
    ensures |b| == 16
  {
    seq(16, i requires 0 <= i < 16 => ClampedByte(key, i))
  }

  lemma ClampedValue(key: Bytes)
    requires |key| == 32
    ensures LE(ClampedBytes(key)) == KeyR(key)
  {
    hide ClampWord, LE;
    var b := ClampedBytes(key);
    FourWords(b);
    assert b[16..] == [];
    EmptyLE();
    ClampedWord(key, b, 0, true);
    ClampedWord(key, b, 4, false);
    ClampedWord(key, b, 8, false);
    ClampedWord(key, b, 12, false);
  }

  method ClampR(key: Bytes) returns (b: Bytes)
    requires |key| == 32
    ensures b == ClampedBytes(key) && LE(b) == KeyR(key)
  {
    hide KeyR, LE;
    var a := new uint8[16](i requires 0 <= i < 16 => key[i]);
    ClearTops(a);
    ClearLows(a);
    b := a[..];
    assert forall i :: 0 <= i < 16 ==> b[i] == ClampedByte(key, i);
    ClampedValue(key);
  }

  method ClearTops(a: array<uint8>)
    requires a.Length == 16
    modifies a
    ensures forall i :: 0 <= i < 16 ==> a[i] == old(if i == 3 || i == 7 || i == 11 || i == 15 then a[i] % 16 else a[i])
  {
    a[3] := a[3] % 16;
    a[7] := a[7] % 16;
    a[11] := a[11] % 16;
    a[15] := a[15] % 16;
  }

  method ClearLows(a: array<uint8>)
    requires a.Length == 16
    modifies a
    ensures forall i :: 0 <= i < 16 ==> a[i] == old(if i == 4 || i == 8 || i == 12 then a[i] - a[i] % 4 else a[i])
  {
    a[4] := a[4] - a[4] % 4;
    a[8] := a[8] - a[8] % 4;
    a[12] := a[12] - a[12] % 4;
  }

  lemma EmptyLE()
    ensures LE([]) == 0
  {
  }

  lemma ClampedWord(k: seq<int>, b: seq<int>, i: nat, first: bool)
    requires i + 4 <= |b| && i + 4 <= |k| && forall j :: i <= j < i + 4 ==> 0 <= k[j] < 256
    requires b[i] == (if first then k[i] else k[i] - k[i] % 4)
    requires b[i + 1] == k[i + 1] && b[i + 2] == k[i + 2] && b[i + 3] == k[i + 3] % 16
    ensures Word(b, i) == ClampWord(Word(k, i), first)
  {
    var low := k[i] + 0x100 * k[i + 1] + 0x1_0000 * k[i + 2];
    DivModUnique(Word(k, i), k[i + 3] / 16, low + 0x100_0000 * (k[i + 3] % 16), 0x1000_0000);
    var rest := 0x40 * k[i + 1] + 0x4000 * k[i + 2] + 0x40_0000 * k[i + 3];
    ModShift(k[i], rest, 4);
  }

  /** r and s are the limbs of the key's first half, pad is the second half. */
  ghost predicate Keys(r: seq<int>, s: seq<int>, pad: seq<int>, key: seq<int>) {
    |key| == 32 && |r| == 5 && Keyed(r, s) && V(r) == KeyR(key) && pad == key[16..]
  }

  /** h stands for the full blocks of msg and tail is what is left of it. */
  ghost predicate Represents(h: seq<int>, tail: seq<int>, key: seq<int>, msg: seq<int>) {
    && |key| == 32 && |h| == 5 && Carried(h)
    && |tail| < 16 && |tail| <= |msg| && (|msg| - |tail|) % 16 == 0
    && tail == msg[|msg| - |tail|..]
    && Cong(V(h), Polynomial(KeyR(key), msg[..|msg| - |tail|]), Q)
  }

  lemma BlockStep(h: int, o: int, k: int, m: seq<int>, b: seq<int>)
    requires |m| % 16 == 0 && 0 < |b| <= 16 && Cong(h, Polynomial(k, m), Q)
    requires Cong(o, (h + BlockValue(b)) * k, Q)
    ensures Cong(o, Polynomial(k, m + b), Q)
  {
    hide Polynomial, BlockValue, Cong;
    PolynomialBlock(k, m, b);
    CongRefl(BlockValue(b), Q);
    CongRefl(k, Q);
    CongAdd(h, Polynomial(k, m), BlockValue(b), BlockValue(b), Q);
    CongMul(h + BlockValue(b), Polynomial(k, m) + BlockValue(b), k, k, Q);
    CongTrans(o, (h + BlockValue(b)) * k, (Polynomial(k, m) + BlockValue(b)) * k, Q);
  }

  /** Fewer than sixteen bytes are only kept. */
  lemma KeepStep(h: seq<int>, tail: seq<int>, data: seq<int>, key: seq<int>, msg: seq<int>)
    requires Represents(h, tail, key, msg) && |tail| + |data| < 16
    ensures Represents(h, tail + data, key, msg + data)
  {
    hide Carried, KeyR, V, Polynomial, Cong;
    var n := |msg| - |tail|;
    assert (msg + data)[..n] == msg[..n];
    assert (msg + data)[n..] == tail + data;
  }

  /** Sixteen bytes are absorbed. */
  method Feed(h: seq<uint32>, r: seq<uint32>, s: seq<uint32>, block: Bytes,
              ghost pad: Bytes, ghost tail: Bytes, ghost data: Bytes, ghost key: Bytes, ghost msg: Bytes)
    returns (o: seq<uint32>)
    requires Keys(r, s, pad, key) && Represents(h, tail, key, msg)
    requires block == tail + data && |block| == 16
    ensures Represents(o, [], key, msg + data)
  {
    hide V, KeyR, Polynomial, BlockValue, Cong, Carried, Keyed;
    o := ProcessFullBlock(h, r, s, block);
    ghost var full, all := msg[..|msg| - |tail|], msg + data;
    assert all == full + block;
    BlockStep(V(h), V(o), KeyR(key), full, block);
    assert all[..|all|] == all && all[|all|..] == [];
  }

  method DeriveR(k: Bytes) returns (r: seq<uint32>, s: seq<uint32>)
    requires |k| == 32
    ensures Keys(r, s, k[16..], k)
  {
    hide KeyR, V;
    var rBytes := ClampR(k);
    ValueAppend(rBytes, 0, 256);
    r := BytesToLimbs(rBytes + [0]);
    var x: seq<int> := r;
    s := [x[1] * 5, x[2] * 5, x[3] * 5, x[4] * 5];
  }

  method ZeroLimbs(ghost key: Bytes) returns (zero: seq<uint32>)
    requires |key| == 32
    ensures Represents(zero, [], key, [])
  {
    hide KeyR;
    zero := [0, 0, 0, 0, 0];
  }

  lemma SliceStep(before: Bytes, data: Bytes, a: nat, b: nat, c: nat)
    requires a <= b <= c <= |data|
    ensures before + data[a..b] + data[b..c] == before + data[a..c]
  {
  }

  class Context {
    var h: seq<uint32>
    var r: seq<uint32>
    var s: seq<uint32>
    var pad: Bytes
    const buf: array<uint8>
    var bufLen: nat

    ghost const key: Bytes
    /** Everything fed so far. */
    ghost var msg: Bytes

    ghost predicate Valid()
      reads this, buf
    {
      && buf.Length == 16 && bufLen < 16
      && Keys(r, s, pad, key)
      && Represents(h, buf[..bufLen], key, msg)
    }

    constructor (k: Bytes)
      requires |k| == 32
      ensures Valid() && fresh(buf) && key == k && msg == []
    {
      hide Keys, Represents;
      var limbs, fives := DeriveR(k);
      var zero := ZeroLimbs(k);
      h := zero;
      r := limbs;
      s := fives;
      pad := k[16..];
      buf := new uint8[16];
      bufLen := 0;
      key := k;
      msg := [];
      new;
      assert buf[..bufLen] == [];
    }

    method Update(data: Bytes)
      requires Valid()
      modifies this`h, this`bufLen, this`msg, buf
      ensures Valid() && msg == old(msg) + data
    {
      hide Keys, Represents;
      if |data| == 0 {
        assert msg + data == msg;
        return;
      }
      var off := 0;
      assert msg + data[..0] == msg;
      if bufLen > 0 {
        off := Refill(data);
      }
      if bufLen == 0 {
        ghost var first := off;
        off := FeedBlocks(data, off);
        if off < |data| {
          Keep(data[off..]);
        }
        assert data == data[..first] + data[first..off] + data[off..];
      } else {
        assert data[..off] == data;
      }
    }

    /** Tops up a partly filled buffer; a full one is absorbed. */
    method Refill(data: Bytes) returns (off: nat)
      requires Valid() && bufLen > 0
      modifies this`h, this`bufLen, this`msg, buf
      ensures off <= |data| && msg == old(msg) + data[..off] && Valid()
      ensures bufLen == 0 || off == |data|
    {
      hide Keys, Represents;
      ghost var tail := buf[..bufLen];
      off := CopyIn(data);
      if bufLen == 16 {
        assert buf[..] == buf[..16];
        h := Feed(h, r, s, buf[..], pad, tail, data[..off], key, msg);
        bufLen := 0;
        assert buf[..0] == [];
      } else {
        KeepStep(h, tail, data[..off], key, msg);
      }
      msg := msg + data[..off];
    }

    method CopyIn(data: Bytes) returns (take: nat)
      requires bufLen <= buf.Length == 16
      modifies this`bufLen, buf
      ensures take <= |data| && bufLen == old(bufLen) + take && bufLen <= 16
      ensures bufLen == 16 || take == |data|
      ensures buf[..bufLen] == old(buf[..bufLen]) + data[..take]
    {
      take := 16 - bufLen;
      if take > |data| {
        take := |data|;
      }
      forall i | 0 <= i < take {
        buf[bufLen + i] := data[i];
      }
      bufLen := bufLen + take;
    }

    /** The loop over the full blocks of the data. */
    method FeedBlocks(data: Bytes, start: nat) returns (off: nat)
      requires start <= |data| && Valid() && bufLen == 0
      modifies this`h, this`msg
      ensures Valid() && bufLen == 0
      ensures start <= off <= |data| && |data| - off < 16 && msg == old(msg) + data[start..off]
    {
      hide Keys, Represents;
      off := start;
      assert buf[..0] == [];
      while |data| - off >= 16
        invariant start <= off <= |data| && Valid() && bufLen == 0
        invariant msg == old(msg) + data[start..off]
      {
        var block := data[off..off + 16];
        assert [] + block == block;
        h := Feed(h, r, s, block, pad, [], block, key, msg);
        msg := msg + block;
        SliceStep(old(msg), data, start, off, off + 16);
        off := off + 16;
      }
    }

    /** Keeps fewer than sixteen bytes for later. */
    method Keep(rest: Bytes)
      requires Valid() && bufLen == 0 && |rest| < 16
      modifies this`bufLen, this`msg, buf
      ensures Valid() && msg == old(msg) + rest
    {
      hide Keys, Represents;
      assert buf[..0] == [];
      KeepStep(h, [], rest, key, msg);
      forall i | 0 <= i < |rest| {
        buf[i] := rest[i];
      }
      bufLen := |rest|;
      msg := msg + rest;
      assert buf[..bufLen] == [] + rest;
    }

    /** The tag of everything fed. What is left in the buffer is absorbed into the accumulator,
        which then stands for the whole message. */
    method Final() returns (tag: Bytes)
      requires Valid()
      modifies this`h
      ensures |tag| == 16 && LE(tag) == Tag(key, msg)
      ensures |h| == 5 && Carried(h) && Cong(V(h), Polynomial(KeyR(key), msg), Q)
    {
      hide KeyR, V, Polynomial, Carried, Keyed, LE;
      h := LastBlock(h, r, s, buf[..bufLen], pad, key, msg);
      var c := CarryFinal(h);
      var v := SubtractOnce(c);
      tag := PackAndAdd(v, pad);
    }
  }

  /** Pads and absorbs what is left, if anything. */
  method LastBlock(h: seq<uint32>, r: seq<uint32>, s: seq<uint32>, tail: Bytes,
                   ghost pad: Bytes, ghost key: Bytes, ghost msg: Bytes)
    returns (g: seq<uint32>)
    requires Keys(r, s, pad, key) && Represents(h, tail, key, msg)
    ensures |g| == 5 && Carried(g) && Cong(V(g), Polynomial(KeyR(key), msg), Q)
  {
    hide Cong, V, KeyR, Polynomial, BlockValue, Carried, Keyed;
    ghost var full := msg[..|msg| - |tail|];
    assert msg == full + tail;
    g := h;
    if |tail| > 0 {
      var block17 := tail + [1] + seq(16 - |tail|, _ => 0);
      PaddedBlock(tail, block17);
      g := Absorb(h, r, s, block17, tail);
      BlockStep(V(h), V(g), KeyR(key), full, tail);
    } else {
      assert full == msg;
    }
  }

  // ----- every split into updates

  /** One initialisation, any sequence of updates, one finalisation. */
  method MacChunks(key: Bytes, chunks: seq<Bytes>) returns (tag: Bytes)
    requires |key| == 32
    ensures |tag| == 16 && LE(tag) == Tag(key, Flatten(chunks))
  {
    hide Keys, Represents, Tag, LE;
    var ctx := new Context(key);
    for i := 0 to |chunks|
      invariant ctx.Valid() && fresh(ctx.buf) && ctx.key == key && ctx.msg == Flatten(chunks[..i])
    {
      ctx.Update(chunks[i]);
      assert chunks[..i + 1][..i] == chunks[..i];
    }
    assert chunks[..|chunks|] == chunks;
    tag := ctx.Final();
  }
}
