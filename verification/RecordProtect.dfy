/** Protected records as values: what src/record_protect.c makes of a message, and of a datagram. */
module RecordProtect {
  import opened Machine
  import opened Arithmetic
  import opened Limbs
  import opened ByteOps
  import opened Wire
  import opened Record
  import opened Reconstruct
  import opened ChaCha20
  import opened Aead

  const MAX_INNER: nat := 2048
  const TAG_LEN: nat := 16

  /** A 48-bit record number: reconstruction never leaves this range. */
  type Seq48 = x: int | 0 <= x < 0x1_0000_0000_0000

  type Iv = b: Bytes | |b| == 12 witness Zeros(12)

  datatype SendState = SendState(key: Bytes, iv: Iv, next: uint64, epoch: uint16)
  datatype ReadState = ReadState(key: Bytes, iv: Iv, highest: Seq48, epoch: uint16)

  // ----- nonces

  /** Byte i of the sequence number, big-endian and right-aligned in twelve bytes. */
  function SeqByte(seqno: uint64, i: nat): uint8
    requires i < 12
  {
    if i < 4 then 0 else LittleBytes(seqno, 8)[11 - i]
  }

  function Nonce(iv: Iv, seqno: uint64): (n: Bytes)
    ensures |n| == 12
  {
    seq(12, i requires 0 <= i < 12 => Xor(iv[i], SeqByte(seqno, i)))
  }

  method BuildNonce(iv: Iv, seqno: uint64) returns (out: Bytes)
    ensures out == Nonce(iv, seqno)
  {
    hide Xor, LittleBytes;
    var seqBytes := new uint8[12](_ => 0);
    var rest := LittleBytes(seqno, 8);
    for i := 0 to 8
      invariant forall k :: 0 <= k < 12 ==> seqBytes[k] == (if k > 11 - i then rest[11 - k] else 0)
    {
      seqBytes[11 - i] := rest[i];
    }
    var padded := seqBytes[..];
    var o := new uint8[12];
    for i := 0 to 12
      invariant forall k :: 0 <= k < i ==> o[k] == Xor(iv[k], SeqByte(seqno, k))
    {
      o[i] := Xor(iv[i], padded[i]);
    }
    out := o[..];
  }

  /** No two sequence numbers share a nonce under one IV. */
  lemma NonceInjective(iv: Iv, a: uint64, b: uint64)
    requires Nonce(iv, a) == Nonce(iv, b)
    ensures a == b
  {
    hide Xor, LittleBytes;
    var x, y := LittleBytes(a, 8), LittleBytes(b, 8);
    forall i | 0 <= i < 8
      ensures x[i] == y[i]
    {
      assert Nonce(iv, a)[11 - i] == Nonce(iv, b)[11 - i];
      XorInjective(SeqByte(a, 11 - i), SeqByte(b, 11 - i), iv[11 - i]);
    }
    assert x == y;
    EightBytes(a, b);
  }

  /** Section 5.3 of RFC 8446: taking the IV off again leaves the number, big-endian, right-aligned
      in twelve bytes. */
  lemma NonceMask(iv: Iv, seqno: uint64)
    ensures var mask := seq(12, i requires 0 <= i < 12 => Xor(Nonce(iv, seqno)[i], iv[i]));
            mask[..4] == [0, 0, 0, 0] && BE(mask) == seqno
  {
    hide Xor, LittleBytes, BE;
    var mask := seq(12, i requires 0 <= i < 12 => Xor(Nonce(iv, seqno)[i], iv[i]));
    var rest := LittleBytes(seqno, 8);
    forall i | 0 <= i < 12
      ensures mask[i] == SeqByte(seqno, i)
    {
      XorBack(iv[i], SeqByte(seqno, i));
    }
    assert mask[..4] == [0, 0, 0, 0] && |rest| == 8;
    var le := seq(12, i requires 0 <= i < 12 => mask[11 - i]);
    assert le == rest + [0, 0, 0, 0];
    BEReversed(mask, le);
    ValueConcat(rest, [0, 0, 0, 0], 256);
    ValueZero([0, 0, 0, 0], 256);
    assert Pow(256, 4) == 0x1_0000_0000;
    PowAdd(256, 4, 4);
    LittleBytesValue(seqno, 8);
  }

  lemma XorBack(a: uint8, b: uint8)
    ensures Xor(Xor(a, b), a) == b
  {
    XorCancels(b, a);
    XorCommutes(a, b);
  }

  lemma {:induction false} BEReversed(b: Bytes, le: Bytes)
    requires |b| == |le| && forall i :: 0 <= i < |b| ==> le[i] == b[|b| - 1 - i]
    ensures BE(b) == LE(le)
    decreases |b|
  {
    if |b| > 0 {
      BEReversed(b[..|b| - 1], le[1..]);
    }
  }

  // ----- one record

  /** The shape nd_record_protect always sends: 16-bit sequence number and explicit length. */
  function FixedHeader(epoch: uint16, seqno: uint64, length: nat): (h: Bytes)
    ensures |h| == 5
  {
    [0x2C + epoch % 4] + Put16(seqno % 0x1_0000) + Put16(length)
  }

  function FixedShape(epoch: uint16, seqno: uint64): UnifiedHeader {
    UnifiedHeader(false, true, true, epoch % 4, [], seqno % 0x1_0000)
  }

  /** The hand-written five bytes are the general serializer's header. */
  lemma FixedHeaderIsUnified(epoch: uint16, seqno: uint64, payload: Bytes, cap: nat)
    requires |payload| <= 0xFFFF && 5 + |payload| <= cap
    ensures SerializeUnified(FixedShape(epoch, seqno), payload, cap)
         == Ok(FixedHeader(epoch, seqno, |payload|) + payload)
  {
    hide Put16;
    assert [0x2C + epoch % 4] + [] == [0x2C + epoch % 4];
  }

  function Inner(contentType: uint8, text: Bytes): Bytes {
    text + [contentType]
  }

  function RecordOf(block: BlockFunction, s: SendState, contentType: uint8, text: Bytes): Bytes
  {
    var header := FixedHeader(s.epoch, s.next, |text| + 1 + TAG_LEN);
    var sealed := Seal(block, s.key, Nonce(s.iv, s.next), header, Inner(contentType, text));
    header + sealed.ct + sealed.tag
  }

  datatype Sent = Sent(record: Bytes, state: SendState)

  function Protect(block: BlockFunction, s: SendState, contentType: uint8, text: Bytes, cap: nat): Result<Sent>
  {
    if |text| + 1 > MAX_INNER then Err(BadLength)
    else if 5 + |text| + 1 + TAG_LEN > cap then Err(BadLength)
    else Ok(Sent(RecordOf(block, s, contentType, text), s.(next := (s.next + 1) % 0x1_0000_0000_0000_0000)))
  }

  /** Length of what remains after the trailing zeros. */
  function Stripped(inner: Bytes): (n: nat)
    ensures n <= |inner|
  {
    if |inner| > 0 && inner[|inner| - 1] == 0 then Stripped(inner[..|inner| - 1]) else |inner|
  }

  datatype Opened = Opened(contentType: uint8, text: Bytes, state: ReadState)

  function Unprotect(block: BlockFunction, u: ReadState, buf: Bytes, cap: nat): Result<Opened>
  {
    var rec :- ParseUnified(buf, 0);
    if Epoch(u.epoch, rec.hdr.epochLow2) != u.epoch then Err(Unsupported)
    else
      var full := FullSequence(u, rec.hdr);
      if |rec.payload| < TAG_LEN then Err(BadLength)
      else
        var n := |rec.payload| - TAG_LEN;
        if n > MAX_INNER then Err(BadLength)
        else
          var inner :- Open(block, u.key, Nonce(u.iv, full), buf[..rec.headerLen], rec.payload[..n], rec.payload[n..]);
          var i := Stripped(inner);
          if i == 0 then Err(BadArg)
          else if i - 1 > cap then Err(BadLength)
          else Ok(Opened(inner[i - 1], inner[..i - 1], u.(highest := if full > u.highest then full else u.highest)))
  }

  function FullSequence(u: ReadState, hdr: UnifiedHeader): Seq48 {
    var window := if hdr.seq16 then 0x1_0000 else 0x100;
    SequenceInRange(u.highest, hdr.seqno, window);
    Sequence(u.highest, hdr.seqno, window)
  }

  // ----- a record opens to what was sealed

  lemma StrippedLast(inner: Bytes)
    requires |inner| > 0 && inner[|inner| - 1] != 0
    ensures Stripped(inner) == |inner|
  {
  }

  /** The record parses as the fixed shape around its ciphertext and tag. */
  lemma RecordParses(block: BlockFunction, s: SendState, contentType: uint8, text: Bytes)
    requires |text| + 1 <= MAX_INNER
    ensures var header := FixedHeader(s.epoch, s.next, |text| + 1 + TAG_LEN);
            var sealed := Seal(block, s.key, Nonce(s.iv, s.next), header, Inner(contentType, text));
            var buf := RecordOf(block, s, contentType, text);
            && ParseUnified(buf, 0) == Ok(UnifiedRecord(FixedShape(s.epoch, s.next), 5, sealed.ct + sealed.tag))
            && buf[..5] == header
  {
    hide Seal, ParseUnified, SerializeUnified, FixedHeader, Nonce;
    var header := FixedHeader(s.epoch, s.next, |text| + 1 + TAG_LEN);
    var sealed := Seal(block, s.key, Nonce(s.iv, s.next), header, Inner(contentType, text));
    var payload := sealed.ct + sealed.tag;
    var buf := RecordOf(block, s, contentType, text);
    assert buf == header + payload;
    FixedHeaderIsUnified(s.epoch, s.next, payload, 5 + |payload|);
    UnifiedRoundTrip(FixedShape(s.epoch, s.next), payload, 5 + |payload|, 0);
    SmallMod(|payload|, 0x1_0000);
    assert payload[..|payload|] == payload;
    UnifiedRecordEta(ParseUnified(buf, 0).value);
  }

  lemma UnifiedRecordEta(r: UnifiedRecord)
    ensures r == UnifiedRecord(r.hdr, r.headerLen, r.payload)
  {
  }

  /** A record whose number the receiver can recover opens to exactly its text and type. */
  lemma UnprotectProtect(block: BlockFunction, s: SendState, u: ReadState, contentType: uint8, text: Bytes, cap: nat)
    requires u.key == s.key && u.iv == s.iv && u.epoch == s.epoch
    requires s.next < SEQ_LIMIT && Recoverable(u.highest, s.next, 0x1_0000)
    requires contentType != 0 && |text| + 1 <= MAX_INNER && |text| <= cap
    ensures Unprotect(block, u, RecordOf(block, s, contentType, text), cap)
         == Ok(Opened(contentType, text, u.(highest := if s.next > u.highest then s.next else u.highest)))
  {
    hide Seal, Open, ParseUnified, FixedHeader, Nonce, Recoverable, RecordOf, Sequence, Epoch, Stripped;
    RecordParses(block, s, contentType, text);
    var header := FixedHeader(s.epoch, s.next, |text| + 1 + TAG_LEN);
    var inner := Inner(contentType, text);
    var sealed := Seal(block, s.key, Nonce(s.iv, s.next), header, inner);
    EpochExact(s.epoch, s.epoch);
    SequenceExact(u.highest, s.next, 0x1_0000);
    OpenSeal(block, s.key, Nonce(s.iv, s.next), header, inner);
    var payload, n := sealed.ct + sealed.tag, |inner|;
    assert payload[..n] == sealed.ct && payload[n..] == sealed.tag;
    StrippedLast(inner);
    assert inner[..|inner| - 1] == text;
  }

  lemma {:induction false} StrippedZeros(inner: Bytes)
    ensures inner == inner[..Stripped(inner)] + Zeros(|inner| - Stripped(inner))
    ensures Stripped(inner) > 0 ==> inner[Stripped(inner) - 1] != 0
    decreases |inner|
  {
    hide Zeros;
    if |inner| > 0 && inner[|inner| - 1] == 0 {
      var front := inner[..|inner| - 1];
      StrippedZeros(front);
      var n := Stripped(front);
      assert inner == front + [0] && front[..n] == inner[..n];
      assert Zeros(|front| - n) + [0] == Zeros(|inner| - n);
    }
  }

  /** The converse: whatever a receiver accepts is exactly what sealing the reported text and type,
      with some zero padding, produces under its key, under the nonce of the number it found, and
      with the header's own bytes as additional data. */
  lemma OpenedIsSealed(block: BlockFunction, u: ReadState, buf: Bytes, cap: nat) returns (padding: nat)
    requires Unprotect(block, u, buf, cap).Ok?
    ensures ParseUnified(buf, 0).Ok? && ParseUnified(buf, 0).value.headerLen <= |buf|
    ensures var o, rec := Unprotect(block, u, buf, cap).value, ParseUnified(buf, 0).value;
            var sealed := Seal(block, u.key, Nonce(u.iv, FullSequence(u, rec.hdr)), buf[..rec.headerLen],
                               o.text + [o.contentType] + Zeros(padding));
            && o.contentType != 0 && |o.text| <= cap && rec.payload == sealed.ct + sealed.tag
            && Epoch(u.epoch, rec.hdr.epochLow2) == u.epoch
  {
    hide Seal, Open, ParseUnified, Nonce, Epoch, FullSequence, Stripped;
    var rec := ParseUnified(buf, 0).value;
    HeaderInside(buf);
    var n := |rec.payload| - TAG_LEN;
    var ct, tag := rec.payload[..n], rec.payload[n..];
    var nonce, aad := Nonce(u.iv, FullSequence(u, rec.hdr)), buf[..rec.headerLen];
    var inner := Open(block, u.key, nonce, aad, ct, tag).value;
    SealOpen(block, u.key, nonce, aad, ct, tag);
    StrippedZeros(inner);
    var i := Stripped(inner);
    padding := |inner| - i;
    assert inner[..i] == inner[..i - 1] + [inner[i - 1]];
    assert rec.payload == ct + tag;
  }

  lemma HeaderInside(buf: Bytes)
    ensures ParseUnified(buf, 0).Ok? ==> ParseUnified(buf, 0).value.headerLen <= |buf|
  {
    hide Get16;
  }
}
