/** DTLS record headers: the parsers and serializers of src/record.c. */
module Record {
  import opened Machine
  import opened Wire

  // ----- DTLSPlaintext

  datatype PlaintextHeader = PlaintextHeader(contentType: uint8, version: uint16, epoch: uint16, seqno: uint64)

  datatype PlaintextRecord = PlaintextRecord(hdr: PlaintextHeader, fragment: Bytes)

  function ParsePlaintext(buf: Bytes): Result<PlaintextRecord> {
    if |buf| < 13 then Err(Truncated)
    else if Get16(buf, 11) > |buf| - 13 then Err(BadLength)
    else
      var hdr := PlaintextHeader(buf[0], Get16(buf, 1), Get16(buf, 3), Get48(buf, 5));
      Ok(PlaintextRecord(hdr, buf[13..13 + Get16(buf, 11)]))
  }

  function EncodePlaintext(hdr: PlaintextHeader, fragment: Bytes): (b: Bytes)
    ensures |b| == 13 + |fragment|
  {
    [hdr.contentType] + Put16(hdr.version) + Put16(hdr.epoch) + Put48(hdr.seqno) + Put16(|fragment|) + fragment
  }

  function SerializePlaintext(hdr: PlaintextHeader, fragment: Bytes, cap: nat): Result<Bytes> {
    if hdr.seqno > 0xFFFF_FFFF_FFFF then Err(BadArg)
    else if |fragment| > 0xFFFF then Err(BadArg)
    else if cap < 13 + |fragment| then Err(BadLength)
    else Ok(EncodePlaintext(hdr, fragment))
  }

  /** Whatever is serialized parses back, also with more bytes after it in the datagram. */
  lemma PlaintextRoundTrip(hdr: PlaintextHeader, fragment: Bytes, cap: nat, rest: Bytes)
    requires SerializePlaintext(hdr, fragment, cap).Ok?
    ensures ParsePlaintext(SerializePlaintext(hdr, fragment, cap).value + rest) == Ok(PlaintextRecord(hdr, fragment))
  {
    hide Get16, Get48, Put16, Put48;
    var v, e, s, n := Put16(hdr.version), Put16(hdr.epoch), Put48(hdr.seqno), Put16(|fragment|);
    var b := EncodePlaintext(hdr, fragment) + rest;
    assert b == [hdr.contentType] + v + (e + s + n + fragment + rest);
    FieldAt([hdr.contentType], v, e + s + n + fragment + rest);
    assert b == ([hdr.contentType] + v) + e + (s + n + fragment + rest);
    FieldAt([hdr.contentType] + v, e, s + n + fragment + rest);
    assert b == ([hdr.contentType] + v + e) + s + (n + fragment + rest);
    FieldAt([hdr.contentType] + v + e, s, n + fragment + rest);
    assert b == ([hdr.contentType] + v + e + s) + n + (fragment + rest);
    FieldAt([hdr.contentType] + v + e + s, n, fragment + rest);
    assert b[13..13 + |fragment|] == fragment;
  }

  // ----- the unified header

  datatype UnifiedHeader = UnifiedHeader(
    cidPresent: bool, seq16: bool, lengthPresent: bool, epochLow2: uint8, cid: Bytes, seqno: uint16)
  {
    /** The connection ID as it travels: nothing when the C bit is clear. */
    function WireCid(): Bytes {
      if cidPresent then cid else []
    }

    function Len(): nat {
      HeaderLen(|WireCid()|, seq16, lengthPresent)
    }
  }

  datatype UnifiedRecord = UnifiedRecord(hdr: UnifiedHeader, headerLen: nat, payload: Bytes)

  /** First byte 001CSLEE. */
  function FlagByte(hdr: UnifiedHeader): uint8 {
    0x20 + (if hdr.cidPresent then 0x10 else 0) + (if hdr.seq16 then 0x08 else 0)
    + (if hdr.lengthPresent then 0x04 else 0) + hdr.epochLow2 % 4
  }

  predicate IsUnified(b0: uint8) {
    b0 / 0x20 == 1
  }

  function HeaderLen(cidLen: nat, seq16: bool, lengthPresent: bool): nat {
    1 + cidLen + (if seq16 then 2 else 1) + (if lengthPresent then 2 else 0)
  }

  function ParseUnified(buf: Bytes, cidLen: nat): Result<UnifiedRecord> {
    if |buf| < 1 then Err(Truncated)
    else if !IsUnified(buf[0]) then Err(NotUnified)
    else
      var cidPresent, seq16, lengthPresent := buf[0] / 0x10 % 2 == 1, buf[0] / 0x08 % 2 == 1, buf[0] / 0x04 % 2 == 1;
      if cidPresent && cidLen == 0 then Err(BadArg)
      else
        var n := if cidPresent then cidLen else 0;
        var need := HeaderLen(n, seq16, lengthPresent);
        if |buf| < need then Err(Truncated)
        else
          var seqno := if seq16 then Get16(buf, 1 + n) else buf[1 + n];
          var length := if lengthPresent then Get16(buf, need - 2) else (|buf| - need) % 0x1_0000;
          if lengthPresent && length > |buf| - need then Err(BadLength)
          else
            Ok(UnifiedRecord(UnifiedHeader(cidPresent, seq16, lengthPresent, buf[0] % 4, buf[1..1 + n], seqno),
                             need, buf[need..need + length]))
  }

  function EncodeUnifiedHeader(hdr: UnifiedHeader, payloadLen: nat): (b: Bytes)
    ensures |b| == hdr.Len()
  {
    [FlagByte(hdr)] + hdr.WireCid() + SeqField(hdr) + LengthField(hdr, payloadLen)
  }

  function SeqField(hdr: UnifiedHeader): Bytes {
    if hdr.seq16 then Put16(hdr.seqno) else [hdr.seqno % 256]
  }

  function LengthField(hdr: UnifiedHeader, payloadLen: nat): Bytes {
    if hdr.lengthPresent then Put16(payloadLen) else []
  }

  function SerializeUnified(hdr: UnifiedHeader, payload: Bytes, cap: nat): Result<Bytes> {
    if hdr.cidPresent && |hdr.cid| == 0 then Err(BadArg)
    else if !hdr.seq16 && hdr.seqno > 0xFF then Err(BadArg)
    else if hdr.lengthPresent && |payload| > 0xFFFF then Err(BadArg)
    else if cap < hdr.Len() + |payload| then Err(BadLength)
    else Ok(EncodeUnifiedHeader(hdr, |payload|) + payload)
  }

  /** The serializer writes field by field at a moving offset. */
  method WriteUnified(hdr: UnifiedHeader, payload: Bytes, out: array<uint8>) returns (r: Result<nat>)
    modifies out
    ensures match SerializeUnified(hdr, payload, out.Length)
            case Ok(b) => r == Ok(|b|) && |b| <= out.Length && out[..|b|] == b
            case Err(e) => r == Err(e) && out[..] == old(out[..])
  {
    hide FlagByte;
    if hdr.cidPresent && |hdr.cid| == 0 {
      return Err(BadArg);
    }
    if !hdr.seq16 && hdr.seqno > 0xFF {
      return Err(BadArg);
    }
    if hdr.lengthPresent && |payload| > 0xFFFF {
      return Err(BadArg);
    }
    var total := 1 + (if hdr.cidPresent then |hdr.cid| else 0) + (if hdr.seq16 then 2 else 1)
                 + (if hdr.lengthPresent then 2 else 0) + |payload|;
    if out.Length < total {
      return Err(BadLength);
    }
    out[0] := FlagByte(hdr);
    assert out[..1] == [FlagByte(hdr)];
    var off := Append(out, 1, hdr.WireCid());
    off := Append(out, off, SeqField(hdr));
    off := Append(out, off, LengthField(hdr, |payload|));
    off := Append(out, off, payload);
    return Ok(off);
  }

  method Append(out: array<uint8>, off: nat, data: Bytes) returns (end: nat)
    requires off + |data| <= out.Length
    modifies out
    ensures end == off + |data| && out[..end] == old(out[..off]) + data
  {
    forall i | 0 <= i < |data| {
      out[off + i] := data[i];
    }
    end := off + |data|;
  }

  lemma FlagBits(hdr: UnifiedHeader)
    ensures var b := FlagByte(hdr);
            && IsUnified(b)
            && (b / 0x10 % 2 == 1 <==> hdr.cidPresent)
            && (b / 0x08 % 2 == 1 <==> hdr.seq16)
            && (b / 0x04 % 2 == 1 <==> hdr.lengthPresent)
            && b % 4 == hdr.epochLow2 % 4
  {
  }

  lemma UnifiedFields(hdr: UnifiedHeader, payload: Bytes, b: Bytes)
    requires b == EncodeUnifiedHeader(hdr, |payload|) + payload
    requires !hdr.seq16 ==> hdr.seqno <= 0xFF
    ensures |b| == hdr.Len() + |payload| && b[0] == FlagByte(hdr)
    ensures var n := |hdr.WireCid()|;
            && b[1..1 + n] == hdr.WireCid()
            && hdr.seqno == (if hdr.seq16 then Get16(b, 1 + n) else b[1 + n])
    ensures hdr.lengthPresent ==> Get16(b, hdr.Len() - 2) == |payload| % 0x1_0000
    ensures b[hdr.Len()..] == payload
  {
    hide Get16, Put16, FlagByte;
    var c, s, l := [FlagByte(hdr)] + hdr.WireCid(), SeqField(hdr), LengthField(hdr, |payload|);
    assert b == c + s + (l + payload);
    FieldAt(c, s, l + payload);
    assert b == (c + s) + l + payload;
    FieldAt(c + s, l, payload);
    assert b[0] == c[0] && b[1..|c|] == c[1..];
  }

  /** Every shape parses back. Without a length field the payload's length is taken modulo 2^16,
      so the payload comes back whole exactly when it is shorter than 2^16 bytes. */
  lemma UnifiedRoundTrip(hdr: UnifiedHeader, payload: Bytes, cap: nat, cidLen: nat)
    requires SerializeUnified(hdr, payload, cap).Ok?
    requires hdr.cidPresent ==> cidLen == |hdr.cid|
    ensures var r := ParseUnified(SerializeUnified(hdr, payload, cap).value, cidLen);
            && r.Ok?
            && r.value.hdr == hdr.(cid := hdr.WireCid(), epochLow2 := hdr.epochLow2 % 4)
            && r.value.headerLen == hdr.Len()
            && r.value.payload == payload[..|payload| % 0x1_0000]
            && (r.value.payload == payload <==> |payload| < 0x1_0000)
  {
    hide Get16, Put16, FlagByte, EncodeUnifiedHeader;
    FlagBits(hdr);
    var b := SerializeUnified(hdr, payload, cap).value;
    UnifiedFields(hdr, payload, b);
    var n, need := |payload| % 0x1_0000, hdr.Len();
    assert b[need..need + n] == payload[..n];
    assert n == |payload| ==> payload[..n] == payload;
  }
}
