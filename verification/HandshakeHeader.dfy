/** The 12-byte handshake header: src/handshake/header.c. */
module HandshakeHeader {
  import opened Machine
  import opened Wire

  datatype Header = Header(msgType: uint8, length: uint32, messageSeq: uint16, fragmentOffset: uint32,
                           fragmentLength: uint32)

  datatype Fragment = Fragment(hdr: Header, body: Bytes)

  const HEADER_LEN: nat := 12

  function Parse(buf: Bytes): Result<Fragment> {
    if |buf| < HEADER_LEN then Err(Truncated)
    else if Get24(buf, 9) > |buf| - HEADER_LEN then Err(BadLength)
    else
      Ok(Fragment(Header(buf[0], Get24(buf, 1), Get16(buf, 4), Get24(buf, 6), Get24(buf, 9)),
                  buf[HEADER_LEN..HEADER_LEN + Get24(buf, 9)]))
  }

  function Encode(hdr: Header, body: Bytes): (b: Bytes)
    ensures |b| == HEADER_LEN + |body|
  {
    [hdr.msgType] + Put24(hdr.length) + Put16(hdr.messageSeq)
    + Put24(hdr.fragmentOffset) + Put24(hdr.fragmentLength) + body
  }

  function Serialize(hdr: Header, body: Bytes, cap: nat): Result<Bytes> {
    if hdr.length > 0xFFFFFF || hdr.fragmentOffset > 0xFFFFFF || hdr.fragmentLength > 0xFFFFFF then Err(BadArg)
    else if hdr.fragmentLength != |body| then Err(BadArg)
    else if cap < HEADER_LEN + |body| then Err(BadLength)
    else Ok(Encode(hdr, body))
  }

  /** The three lengths as the wire can carry them. */
  predicate WireSized(hdr: Header) {
    hdr.length <= 0xFFFFFF && hdr.fragmentOffset <= 0xFFFFFF && hdr.fragmentLength <= 0xFFFFFF
  }

  lemma ParsedIsWireSized(buf: Bytes)
    requires Parse(buf).Ok?
    ensures WireSized(Parse(buf).value.hdr) && Parse(buf).value.hdr.fragmentLength == |Parse(buf).value.body|
  {
    hide Get24, Get16;
  }

  /** Whatever is serialized parses back, also with more bytes after it. */
  lemma RoundTrip(hdr: Header, body: Bytes, cap: nat, rest: Bytes)
    requires Serialize(hdr, body, cap).Ok?
    ensures Parse(Serialize(hdr, body, cap).value + rest) == Ok(Fragment(hdr, body))
  {
    hide Get16, Get24, Put16, Put24;
    var l, q, o, n := Put24(hdr.length), Put16(hdr.messageSeq), Put24(hdr.fragmentOffset), Put24(hdr.fragmentLength);
    var t := [hdr.msgType];
    var b := Encode(hdr, body) + rest;
    assert b == t + l + (q + o + n + body + rest);
    FieldAt(t, l, q + o + n + body + rest);
    assert b == (t + l) + q + (o + n + body + rest);
    FieldAt(t + l, q, o + n + body + rest);
    assert b == (t + l + q) + o + (n + body + rest);
    FieldAt(t + l + q, o, n + body + rest);
    assert b == (t + l + q + o) + n + (body + rest);
    FieldAt(t + l + q + o, n, body + rest);
    assert b[HEADER_LEN..HEADER_LEN + |body|] == body;
  }

  /** An unfragmented message in one piece. */
  function Whole(msgType: uint8, messageSeq: uint16, body: Bytes): Header
    requires |body| <= 0xFFFF_FFFF
  {
    Header(msgType, |body|, messageSeq, 0, |body|)
  }
}
