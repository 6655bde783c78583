/** The formats byte by byte, and the inverse of every round trip: what a parser accepts is what
    some writer could have written. */
module Formats {
  import opened Machine
  import opened Arithmetic
  import opened Limbs
  import opened ByteOps
  import opened Wire
  import opened Codec
  import opened Messages
  import Record
  import HandshakeHeader
  import Hello
  import Handshake
  import KeySchedule
  import RecordProtect
  import ChaCha20
  import Aead

  // ----- fields

  lemma TwoBytes(b: Bytes)
    requires |b| == 2
    ensures BE(b) == 256 * (b[0] as int) + b[1]
  {
    assert b[..1] == [b[0]] && [b[0]][..0] == [];
    assert BE([b[0]]) == b[0];
  }

  lemma ThreeBytes(b: Bytes)
    requires |b| == 3
    ensures BE(b) == 0x1_0000 * (b[0] as int) + 256 * (b[1] as int) + b[2]
  {
    TwoBytes(b[..2]);
  }

  lemma SixBytes(b: Bytes)
    requires |b| == 6
    ensures BE(b) == 0x100_0000 * BE(b[..3]) + BE(b[3..])
  {
    ThreeBytes(b[..3]);
    ThreeBytes(b[3..]);
    assert b[..5][..4] == b[..4] && b[..4][..3] == b[..3];
    assert BE(b[..4]) == 256 * BE(b[..3]) + b[3];
    assert BE(b[..5]) == 256 * BE(b[..4]) + b[4];
  }

  /** Every multi-byte field is read most significant byte first. */
  lemma FieldsAreBigEndian(b: Bytes, i: nat)
    ensures i + 2 <= |b| ==> Get16(b, i) == BE(b[i..i + 2])
    ensures i + 3 <= |b| ==> Get24(b, i) == BE(b[i..i + 3])
    ensures i + 6 <= |b| ==> Get48(b, i) == BE(b[i..i + 6])
  {
    hide BE;
    if i + 2 <= |b| {
      TwoBytes(b[i..i + 2]);
    }
    if i + 3 <= |b| {
      ThreeBytes(b[i..i + 3]);
    }
    if i + 6 <= |b| {
      var f := b[i..i + 6];
      SixBytes(f);
      ThreeBytes(f[..3]);
      ThreeBytes(f[3..]);
    }
  }

  lemma Refield(b: Bytes)
    ensures |b| == 2 ==> Put16(Get16(b, 0)) == b
    ensures |b| == 3 ==> Put24(Get24(b, 0)) == b
    ensures |b| == 6 ==> Put48(Get48(b, 0)) == b
  {
    if |b| == 2 {
      DivModUnique(Get16(b, 0), b[0], b[1], 256);
    }
    if |b| == 3 {
      Refield24(b);
    }
    if |b| == 6 {
      Refield48(b);
    }
  }

  lemma Refield48(b: Bytes)
    requires |b| == 6
    ensures Put48(Get48(b, 0)) == b
  {
    hide Put24, Get16;
    var h, l := b[..3], b[3..];
    Shifted24(b);
    Refield24(h);
    DivModUnique(Get48(b, 0), Get24(h, 0), Get24(l, 0), 0x100_0000);
    LowField(Get24(h, 0), l);
    assert b == h + l;
  }

  lemma Shifted24(b: Bytes)
    requires |b| == 6
    ensures Get24(b, 0) == Get24(b[..3], 0) && Get24(b, 3) == Get24(b[3..], 0)
  {
  }

  lemma Refield24(b: Bytes)
    requires |b| == 3
    ensures Put24(Get24(b, 0)) == b
  {
    var v := Get24(b, 0);
    DivModUnique(v, 256 * (b[0] as int) + b[1], b[2], 256);
    DivModUnique(256 * (b[0] as int) + b[1], b[0], b[1], 256);
  }

  /** Only the low 24 bits of a number are written. */
  lemma LowField(high: nat, l: Bytes)
    requires |l| == 3
    ensures Put24(0x100_0000 * high + Get24(l, 0)) == l
  {
    var v := 0x100_0000 * high + Get24(l, 0);
    DivModUnique(v, 0x1_0000 * high + 256 * (l[0] as int) + l[1], l[2], 256);
    DivModUnique(0x1_0000 * high + 256 * (l[0] as int) + l[1], 256 * high + l[0], l[1], 256);
    DivModUnique(256 * high + l[0], high, l[0], 256);
  }

  lemma FieldOf(b: Bytes, i: nat, n: nat)
    requires i + n <= |b|
    ensures n == 2 ==> Put16(Get16(b, i)) == b[i..i + n]
    ensures n == 3 ==> Put24(Get24(b, i)) == b[i..i + n]
    ensures n == 6 ==> Put48(Get48(b, i)) == b[i..i + n]
  {
    hide Put16, Put24, Put48;
    var f := b[i..i + n];
    Refield(f);
    assert n == 2 ==> Get16(b, i) == Get16(f, 0);
    assert n == 3 ==> Get24(b, i) == Get24(f, 0);
    assert n == 6 ==> Get48(b, i) == Get48(f, 0);
  }

  // ----- DTLSPlaintext: section 4 of RFC 9147

  /** type, version, epoch, 48-bit number, length, fragment. */
  lemma PlaintextLayout(hdr: Record.PlaintextHeader, fragment: Bytes)
    requires hdr.seqno < 0x1_0000_0000_0000 && |fragment| < 0x1_0000
    ensures var b := Record.EncodePlaintext(hdr, fragment);
            && b[0] == hdr.contentType && BE(b[1..3]) == hdr.version && BE(b[3..5]) == hdr.epoch
            && BE(b[5..11]) == hdr.seqno && BE(b[11..13]) == |fragment| && b[13..] == fragment
  {
    hide Get16, Get48, Put16, Put48, BE;
    var v, e, q, n := Put16(hdr.version), Put16(hdr.epoch), Put48(hdr.seqno), Put16(|fragment|);
    var b := Record.EncodePlaintext(hdr, fragment);
    assert b[1..3] == v && b[3..5] == e && b[5..11] == q && b[11..13] == n && b[13..] == fragment;
    FieldsAreBigEndian(v, 0);
    FieldsAreBigEndian(e, 0);
    FieldsAreBigEndian(q, 0);
    FieldsAreBigEndian(n, 0);
    assert v[0..2] == v && e[0..2] == e && q[0..6] == q && n[0..2] == n;
  }

  /** A record is accepted if and only if its length field is covered by the datagram, and then it
      is the encoding of what is reported. */
  lemma PlaintextParsed(buf: Bytes)
    ensures var r := Record.ParsePlaintext(buf);
            && (r.Ok? <==> |buf| >= 13 && 13 + BE(buf[11..13]) <= |buf|)
            && (r.Ok? ==> buf[..13 + |r.value.fragment|] == Record.EncodePlaintext(r.value.hdr, r.value.fragment))
  {
    hide Get16, Get48, Put16, Put48, BE;
    if |buf| >= 13 {
      FieldsAreBigEndian(buf, 11);
      FieldOf(buf, 1, 2);
      FieldOf(buf, 3, 2);
      FieldOf(buf, 5, 6);
      FieldOf(buf, 11, 2);
      var n := Get16(buf, 11) as int;
      if 13 + n <= |buf| {
        assert buf[..13 + n] == [buf[0]] + buf[1..3] + buf[3..5] + buf[5..11] + buf[11..13] + buf[13..13 + n];
      }
    }
  }

  // ----- the unified header: figure 3 of RFC 9147

  /** The first byte is 001CSLEE; then the connection ID, one or two bytes of number, and two of
      length if L is set. */
  lemma UnifiedLayout(hdr: Record.UnifiedHeader, n: nat)
    ensures var b, c := Record.EncodeUnifiedHeader(hdr, n), |hdr.WireCid()|;
            && b[0] / 32 == 1 && b[0] / 16 % 2 == (if hdr.cidPresent then 1 else 0)
            && b[0] / 8 % 2 == (if hdr.seq16 then 1 else 0) && b[0] / 4 % 2 == (if hdr.lengthPresent then 1 else 0)
            && b[0] % 4 == hdr.epochLow2 % 4 && b[1..1 + c] == hdr.WireCid()
            && (if hdr.seq16 then BE(b[1 + c..3 + c]) == hdr.seqno else b[1 + c] == hdr.seqno % 256)
            && (hdr.lengthPresent ==> BE(b[|b| - 2..]) == n % 0x1_0000)
  {
    hide Get16, Put16, BE, Record.FlagByte;
    var b, c := Record.EncodeUnifiedHeader(hdr, n), |hdr.WireCid()|;
    FlagBits(hdr);
    var q, l := Record.SeqField(hdr), Record.LengthField(hdr, n);
    assert b[1..1 + c] == hdr.WireCid() && b[1 + c..1 + c + |q|] == q && b[1 + c + |q|..] == l;
    if hdr.seq16 {
      FieldsAreBigEndian(q, 0);
      assert q[0..2] == q;
    }
    if hdr.lengthPresent {
      FieldsAreBigEndian(l, 0);
      assert l[0..2] == l;
    }
  }

  lemma FlagBits(hdr: Record.UnifiedHeader)
    ensures var f := Record.FlagByte(hdr);
            && f / 32 == 1 && f / 16 % 2 == (if hdr.cidPresent then 1 else 0)
            && f / 8 % 2 == (if hdr.seq16 then 1 else 0) && f / 4 % 2 == (if hdr.lengthPresent then 1 else 0)
            && f % 4 == hdr.epochLow2 % 4
  {
  }

  /** An accepted header is the encoding of what is reported, in front of the payload. */
  lemma UnifiedParsed(buf: Bytes, cidLen: nat)
    ensures var r := Record.ParseUnified(buf, cidLen);
            r.Ok? ==>
              && var rec := r.value;
              && rec.headerLen + |rec.payload| <= |buf|
              && buf[..rec.headerLen] == Record.EncodeUnifiedHeader(rec.hdr, |rec.payload|)
              && buf[rec.headerLen..rec.headerLen + |rec.payload|] == rec.payload
              && (rec.hdr.cidPresent ==> |rec.hdr.cid| == cidLen > 0)
              && (!rec.hdr.lengthPresent ==> |rec.payload| == (|buf| - rec.headerLen) % 0x1_0000)
  {
    hide Get16, Put16, Record.FlagByte;
    var r := Record.ParseUnified(buf, cidLen);
    if r.Ok? {
      var n, c := r.value.headerLen, |r.value.hdr.WireCid()|;
      var h := buf[..n];
      FlagParsed(buf[0], r.value.hdr);
      assert h[1..1 + c] == buf[1..1 + c];
      SameFields(buf, n, 1 + c);
      SameFields(buf, n, n - 2);
      HeaderPieces(h, r.value.hdr, |r.value.payload|);
    }
  }

  lemma SameFields(buf: Bytes, n: nat, i: nat)
    requires n <= |buf|
    ensures i + 2 <= n ==> Get16(buf[..n], i) == Get16(buf, i)
  {
  }

  lemma Pieces(b: Bytes, i: nat, j: nat)
    requires 1 <= i <= j <= |b|
    ensures b == [b[0]] + b[1..i] + b[i..j] + b[j..]
  {
  }

  /** A header's fields, each found where the parser read it. */
  lemma HeaderPieces(h: Bytes, hdr: Record.UnifiedHeader, length: nat)
    requires |h| == hdr.Len() && h[0] == Record.FlagByte(hdr)
    requires var c := |hdr.WireCid()|;
             && hdr.WireCid() == h[1..1 + c]
             && hdr.seqno == (if hdr.seq16 then Get16(h, 1 + c) else h[1 + c])
             && (hdr.lengthPresent ==> length == Get16(h, |h| - 2))
    ensures h == Record.EncodeUnifiedHeader(hdr, length)
  {
    hide Get16, Put16, Record.FlagByte;
    var c, n := |hdr.WireCid()|, |h|;
    var m := if hdr.lengthPresent then n - 2 else n;
    Pieces(h, 1 + c, m);
    if hdr.seq16 {
      FieldOf(h, 1 + c, 2);
    } else {
      assert h[1 + c..2 + c] == [h[1 + c]];
    }
    if hdr.lengthPresent {
      FieldOf(h, n - 2, 2);
    }
  }

  lemma FlagParsed(b0: uint8, hdr: Record.UnifiedHeader)
    requires Record.IsUnified(b0) && hdr.cidPresent == (b0 / 0x10 % 2 == 1) && hdr.seq16 == (b0 / 0x08 % 2 == 1)
    requires hdr.lengthPresent == (b0 / 0x04 % 2 == 1) && hdr.epochLow2 == b0 % 4
    ensures Record.FlagByte(hdr) == b0
  {
  }

  // ----- the handshake header: section 5.2 of RFC 9147

  /** type, length, message number, fragment offset, fragment length, body. */
  lemma HandshakeLayout(hdr: HandshakeHeader.Header, body: Bytes)
    requires HandshakeHeader.WireSized(hdr)
    ensures var b := HandshakeHeader.Encode(hdr, body);
            && b[0] == hdr.msgType && BE(b[1..4]) == hdr.length && BE(b[4..6]) == hdr.messageSeq
            && BE(b[6..9]) == hdr.fragmentOffset && BE(b[9..12]) == hdr.fragmentLength && b[12..] == body
  {
    hide Get16, Get24, Put16, Put24, BE;
    var b := HandshakeHeader.Encode(hdr, body);
    var l, q, o, n := Put24(hdr.length), Put16(hdr.messageSeq), Put24(hdr.fragmentOffset), Put24(hdr.fragmentLength);
    assert b[1..4] == l && b[4..6] == q && b[6..9] == o && b[9..12] == n && b[12..] == body;
    FieldsAreBigEndian(l, 0);
    FieldsAreBigEndian(q, 0);
    FieldsAreBigEndian(o, 0);
    FieldsAreBigEndian(n, 0);
    assert l[0..3] == l && q[0..2] == q && o[0..3] == o && n[0..3] == n;
  }

  lemma HandshakeParsed(buf: Bytes)
    ensures var r := HandshakeHeader.Parse(buf);
            && (r.Ok? <==> |buf| >= 12 && 12 + BE(buf[9..12]) <= |buf|)
            && (r.Ok? ==> buf[..12 + |r.value.body|] == HandshakeHeader.Encode(r.value.hdr, r.value.body))
  {
    hide Get16, Get24, Put16, Put24, BE;
    if |buf| >= 12 {
      FieldsAreBigEndian(buf, 9);
      FieldOf(buf, 1, 3);
      FieldOf(buf, 4, 2);
      FieldOf(buf, 6, 3);
      FieldOf(buf, 9, 3);
      var n := Get24(buf, 9);
      if 12 + n <= |buf| {
        assert buf[..12 + n] == [buf[0]] + buf[1..4] + buf[4..6] + buf[6..9] + buf[9..12] + buf[12..12 + n];
      }
    }
  }

  // ----- vectors

  lemma VectorLayout(w: Width, body: Bytes)
    ensures BE(Vector(w, body)[..w]) == |body| % Pow(256, w) && Vector(w, body)[w..] == body
  {
    hide Get16, Get24, Put16, Put24;
    var p := Prefix(w, |body|);
    assert Vector(w, body)[..w] == p;
    assert Pow(256, 1) == 256 && Pow(256, 2) == 0x1_0000 && Pow(256, 3) == 0x100_0000;
    FieldsAreBigEndian(p, 0);
    assert p[0..w] == p;
  }

  /** What a length-prefixed field was read from is that field, written, and the rest. */
  lemma VectorTaken(b: Bytes, w: Width, e: Status, f: Status)
    requires TakeVector(b, w, e, f).Ok?
    ensures var s := TakeVector(b, w, e, f).value;
            b == Vector(w, s.head) + s.tail && |s.head| == BE(b[..w]) < Capacity(w)
  {
    hide Get16, Get24, Put16, Put24;
    var l := b[..w];
    Refield(l);
    FieldsAreBigEndian(l, 0);
    assert l[0..w] == l;
    var s := TakeVector(b, w, e, f).value;
    assert b == l + (s.head + s.tail);
  }

  // ----- hellos: sections 4.1.2 and 4.1.3 of RFC 8446, section 5.3 of RFC 9147

  lemma ClientHelloLayout(random: Hello.Bytes32, key: Hello.Bytes32)
    ensures Hello.ClientHelloBody(random, key)
         == [0xFE, 0xFD] + random + [0, 0, 0, 2, 0x13, 0x03, 1, 0, 0, 69]
            + [0, 43, 0, 3, 2, 0xFE, 0xFC] + [0, 10, 0, 4, 0, 2, 0, 0x1D]
            + [0, 51, 0, 38, 0, 36, 0, 0x1D, 0, 32] + key
            + [0, 13, 0, 8, 0, 6, 4, 3, 8, 4, 8, 7]
  {
    ClientExtensionsLayout(key);
  }

  lemma ClientExtensionsLayout(key: Hello.Bytes32)
    ensures var x := Hello.ClientExtensions(key);
            && |x| == 69
            && x == [0, 43, 0, 3, 2, 0xFE, 0xFC] + [0, 10, 0, 4, 0, 2, 0, 0x1D]
                    + [0, 51, 0, 38, 0, 36, 0, 0x1D, 0, 32] + key + [0, 13, 0, 8, 0, 6, 4, 3, 8, 4, 8, 7]
  {
    hide Hello.Extension, Hello.ShareEntry, Vector, Put16, Hello.SignatureSchemes;
    FixedExtensions();
    ShareLayout(key);
  }

  lemma FixedExtensions()
    ensures Hello.Extension(43, Vector(1, Put16(0xFEFC))) == [0, 43, 0, 3, 2, 0xFE, 0xFC]
    ensures Hello.Extension(10, Vector(2, Put16(0x1D))) == [0, 10, 0, 4, 0, 2, 0, 0x1D]
    ensures Hello.Extension(13, Vector(2, Hello.SignatureSchemes())) == [0, 13, 0, 8, 0, 6, 4, 3, 8, 4, 8, 7]
  {
  }

  lemma ShareLayout(key: Hello.Bytes32)
    ensures Hello.Extension(51, Vector(2, Hello.ShareEntry(key))) == [0, 51, 0, 38, 0, 36, 0, 0x1D, 0, 32] + key
  {
    assert Hello.ShareEntry(key) == [0, 0x1D, 0, 32] + key;
    assert Vector(2, Hello.ShareEntry(key)) == [0, 36, 0, 0x1D, 0, 32] + key;
  }

  lemma ServerHelloLayout(random: Hello.Bytes32, key: Hello.Bytes32)
    ensures Hello.ServerHelloBody(random, key)
         == [0xFE, 0xFD] + random + [0, 0x13, 0x03, 0, 0, 46]
            + [0, 43, 0, 2, 0xFE, 0xFC] + [0, 51, 0, 36, 0, 0x1D, 0, 32] + key
  {
  }

  datatype Extension = Extension(kind: uint16, data: Bytes)

  function Written(exts: seq<Extension>): Bytes {
    if |exts| == 0 then []
    else Written(exts[..|exts| - 1]) + Hello.Extension(exts[|exts| - 1].kind, exts[|exts| - 1].data)
  }

  lemma {:induction false} WrittenFront(x: Extension, exts: seq<Extension>)
    ensures Written([x] + exts) == Hello.Extension(x.kind, x.data) + Written(exts)
    decreases |exts|
  {
    hide Hello.Extension;
    var all := [x] + exts;
    if |exts| == 0 {
      assert all[..0] == [];
    } else {
      assert all[..|all| - 1] == [x] + exts[..|exts| - 1];
      WrittenFront(x, exts[..|exts| - 1]);
    }
  }

  /** What is found is the first extension of its kind: well-formed extensions of other kinds stand
      before it. */
  lemma {:induction false} FoundFirst(block: Bytes, want: uint16) returns (before: seq<Extension>, rest: Bytes)
    requires Hello.Find(block, want).Some?
    ensures forall x :: x in before ==> x.kind != want
    ensures block == Written(before) + Hello.Extension(want, Hello.Find(block, want).value) + rest
    decreases |block|
  {
    hide Get16, Put16, Take, TakeVector, Vector, Hello.Extension, Written;
    Hello.FindUnfold(block, want);
    Hello.FindNothing(want);
    var kind := Take(block, 2, Truncated).value;
    var data := TakeVector(kind.tail, 2, Truncated, BadLength).value;
    FieldOf(kind.head, 0, 2);
    VectorTaken(kind.tail, 2, Truncated, BadLength);
    var x := Extension(Get16(kind.head, 0), data.head);
    ExtensionIs(x, block, kind.head, data.tail);
    if x.kind == want {
      before, rest := [], data.tail;
      NothingWritten();
    } else {
      before, rest := FoundFirst(data.tail, want);
      WrittenFront(x, before);
      before := [x] + before;
    }
  }

  lemma NothingWritten()
    ensures Written([]) == []
  {
  }

  lemma ExtensionIs(x: Extension, block: Bytes, kind: Bytes, tail: Bytes)
    requires block == kind + (Vector(2, x.data) + tail) && Put16(x.kind) == kind
    ensures block == Hello.Extension(x.kind, x.data) + tail
  {
    hide Put16, Vector;
  }

  /** A ServerHello is accepted only in this form: any version, session ID and compression, DTLS 1.3
      in the first supported_versions, and a 32-byte x25519 share at the front of the first
      key_share. */
  lemma ServerHelloParsed(buf: Bytes) returns (version: Bytes, id: Bytes, zero: Bytes, exts: Bytes, rest: Bytes,
                                               share: Bytes)
    requires Hello.ParseServerHello(buf).Ok?
    ensures var h := Hello.ParseServerHello(buf).value;
            && |version| == 2 && |h.random| == 32 && |zero| == 1 && |h.key| == 32
            && buf == version + h.random + Vector(1, id) + Put16(h.suite) + zero + Vector(2, exts) + rest
            && Hello.Find(exts, 43) == Hello.Some([0xFE, 0xFC])
            && Hello.Find(exts, 51) == Hello.Some([0, 0x1D, 0, 32] + h.key + share)
  {
    hide Get16, Put16, Take, TakeVector, Vector, Hello.ParseServerExtensions;
    var v := Take(buf, 2, Truncated).value;
    var r := Take(v.tail, 32, Truncated).value;
    var i := TakeVector(r.tail, 1, Truncated, Truncated).value;
    var s := Take(i.tail, 2, Truncated).value;
    var z := Take(s.tail, 1, Truncated).value;
    var x := TakeVector(z.tail, 2, Truncated, BadLength).value;
    VectorTaken(r.tail, 1, Truncated, Truncated);
    VectorTaken(z.tail, 2, Truncated, BadLength);
    FieldOf(s.head, 0, 2);
    version, id, zero, exts, rest := v.head, i.head, z.head, x.head, x.tail;
    share := ServerExtensionsParsed(exts);
    assert buf == v.head + (r.head + (Vector(1, id) + (s.head + (z.head + (Vector(2, exts) + rest)))));
  }

  lemma ServerExtensionsParsed(block: Bytes) returns (rest: Bytes)
    requires Hello.ParseServerExtensions(block).Ok?
    ensures var key := Hello.ParseServerExtensions(block).value;
            && |key| == 32 && Hello.Find(block, 43) == Hello.Some([0xFE, 0xFC])
            && Hello.Find(block, 51) == Hello.Some([0, 0x1D, 0, 32] + key + rest)
  {
    hide Hello.Find;
    var version, data := Hello.Find(block, 43).value, Hello.Find(block, 51).value;
    TwoField(version, 0xFEFC);
    var group := Take(data, 2, Unsupported).value;
    var key := TakeVector(group.tail, 2, Unsupported, Unsupported).value;
    TwoField(group.head, 0x001D);
    VectorTaken(group.tail, 2, Unsupported, Unsupported);
    rest := key.tail;
    assert Put16(0xFEFC) == [0xFE, 0xFC] && Put16(0x001D) == [0, 0x1D] && Put16(32) == [0, 32];
    assert data == [0, 0x1D] + ([0, 32] + key.head + rest);
    assert [0, 0x1D] + [0, 32] == [0, 0x1D, 0, 32];
    assert data == [0, 0x1D] + [0, 32] + key.head + rest;
  }

  lemma TwoField(b: Bytes, v: nat)
    requires |b| == 2 && Get16(b, 0) == v
    ensures b == Put16(v)
  {
    hide Get16, Put16;
    Refield(b);
  }

  ghost predicate Holds16(list: Bytes, v: Bytes) {
    exists i: nat :: 2 * i + 2 <= |list| && At16(list, i) == v
  }

  ghost function At16(list: Bytes, i: nat): Bytes
    requires 2 * i + 2 <= |list|
  {
    list[2 * i..2 * i + 2]
  }

  lemma {:induction false} ContainsMeans(list: Bytes, v: uint16)
    requires |list| % 2 == 0
    ensures Hello.Contains16(list, v) <==> Holds16(list, Put16(v))
    decreases |list|
  {
    hide Get16, Put16;
    if |list| > 0 {
      var t := list[2..];
      ContainsMeans(t, v);
      var head := list[..2];
      assert At16(list, 0) == head;
      Refield(head);
      HeadField(list, v);
      if Holds16(t, Put16(v)) {
        var i: nat :| 2 * i + 2 <= |t| && At16(t, i) == Put16(v);
        assert At16(list, i + 1) == At16(t, i);
      }
      if Holds16(list, Put16(v)) && head != Put16(v) {
        var i: nat :| 2 * i + 2 <= |list| && At16(list, i) == Put16(v);
        assert i > 0 && At16(t, i - 1) == At16(list, i);
      }
    }
  }

  lemma HeadField(list: Bytes, v: uint16)
    requires |list| >= 2
    ensures Get16(list, 0) == v <==> list[..2] == Put16(v)
  {
    hide Put16;
    var head := list[..2];
    assert Get16(head, 0) == Get16(list, 0);
    Refield(head);
  }

  /** The version list, preceded by its length, offers DTLS 1.3. */
  ghost predicate OffersVersion(data: Bytes) {
    && |data| >= 1 && data[0] as int == |data| - 1 && data[0] % 2 == 0
    && Holds16(data[1..], [0xFE, 0xFC])
  }

  /** A ClientHello is accepted only in this form: 0x1303 among the suites, DTLS 1.3 among the
      versions, and a share list whose last 32-byte x25519 share is the key. */
  lemma ClientHelloParsed(buf: Bytes)
    returns (version: Bytes, id: Bytes, cookie: Bytes, suites: Bytes, methods: Bytes, exts: Bytes, rest: Bytes)
    requires Hello.ParseClientHello(buf).Ok?
    ensures var h := Hello.ParseClientHello(buf).value;
            && |version| == 2 && |h.random| == 32
            && buf == version + h.random + Vector(1, id) + Vector(1, cookie) + Vector(2, suites)
                      + Vector(1, methods) + Vector(2, exts) + rest
            && |suites| % 2 == 0 && Holds16(suites, [0x13, 0x03])
            && Hello.Find(exts, 43).Some? && OffersVersion(Hello.Find(exts, 43).value)
            && Hello.Find(exts, 51).Some? && SharesKey(Hello.Find(exts, 51).value, h.key)
  {
    hide Get16, Put16, Take, TakeVector, Vector, Hello.ParseClientExtensions, Hello.ParseSuites, Holds16, SharesKey,
         OffersVersion;
    var v := Take(buf, 2, Truncated).value;
    var r := Take(v.tail, 32, Truncated).value;
    var i := TakeVector(r.tail, 1, Truncated, Truncated).value;
    var c := TakeVector(i.tail, 1, Truncated, Truncated).value;
    var s := TakeVector(c.tail, 2, Truncated, BadLength).value;
    var z := TakeVector(s.tail, 1, Truncated, Truncated).value;
    var x := TakeVector(z.tail, 2, Truncated, BadLength).value;
    VectorTaken(r.tail, 1, Truncated, Truncated);
    VectorTaken(i.tail, 1, Truncated, Truncated);
    VectorTaken(c.tail, 2, Truncated, BadLength);
    VectorTaken(s.tail, 1, Truncated, Truncated);
    VectorTaken(z.tail, 2, Truncated, BadLength);
    version, id, cookie, suites, methods, exts, rest := v.head, i.head, c.head, s.head, z.head, x.head, x.tail;
    SuitesParsed(suites);
    ClientExtensionsParsed(exts);
    assert buf == v.head + (r.head + (Vector(1, id) + (Vector(1, cookie) + (Vector(2, suites)
                  + (Vector(1, methods) + (Vector(2, exts) + rest))))));
  }

  lemma SuitesParsed(list: Bytes)
    ensures Hello.ParseSuites(list).Ok? <==> |list| % 2 == 0 && Holds16(list, [0x13, 0x03])
  {
    hide Holds16;
    assert Put16(0x1303) == [0x13, 0x03];
    if |list| % 2 == 0 {
      ContainsMeans(list, 0x1303);
    }
  }

  lemma VersionsParsed(data: Bytes)
    ensures Hello.ParseVersions(data).Ok? <==> OffersVersion(data)
  {
    hide Holds16;
    assert Put16(0xFEFC) == [0xFE, 0xFC];
    if |data| >= 1 && data[0] as int + 1 == |data| && data[0] % 2 == 0 {
      ContainsMeans(data[1..], 0xFEFC);
    }
  }

  function WrittenShares(shares: seq<Hello.Share>): Bytes {
    if |shares| == 0 then [] else Put16(shares[0].group) + Vector(2, shares[0].key) + WrittenShares(shares[1..])
  }

  predicate IsX25519(s: Hello.Share) {
    s.group == 0x001D && |s.key| == 32
  }

  /** The key of the last x25519 share, if there is one. */
  function LastKey(shares: seq<Hello.Share>, found: Hello.Option<Bytes>): Hello.Option<Bytes> {
    if |shares| == 0 then found
    else LastKey(shares[1..], if IsX25519(shares[0]) then Hello.Some(shares[0].key) else found)
  }

  lemma {:induction false} LastKeyIs(shares: seq<Hello.Share>, found: Hello.Option<Bytes>, i: nat)
    requires i < |shares| && IsX25519(shares[i]) && forall k :: i < k < |shares| ==> !IsX25519(shares[k])
    ensures LastKey(shares, found) == Hello.Some(shares[i].key)
    decreases |shares|
  {
    var next := if IsX25519(shares[0]) then Hello.Some(shares[0].key) else found;
    if i == 0 {
      NoKey(shares[1..], next);
    } else {
      LastKeyIs(shares[1..], next, i - 1);
    }
  }

  lemma {:induction false} NoKey(shares: seq<Hello.Share>, found: Hello.Option<Bytes>)
    requires forall k :: 0 <= k < |shares| ==> !IsX25519(shares[k])
    ensures LastKey(shares, found) == found
    decreases |shares|
  {
    if |shares| > 0 {
      NoKey(shares[1..], found);
    }
  }

  lemma {:induction false} SharesRead(list: Bytes, found: Hello.Option<Bytes>) returns (shares: seq<Hello.Share>)
    requires Hello.LastShare(list, found).Ok?
    ensures list == WrittenShares(shares) && Hello.LastShare(list, found) == Ok(LastKey(shares, found))
    decreases |list|
  {
    hide Get16, Put16, Take, TakeVector, Vector;
    if |list| == 0 {
      shares := [];
    } else {
      var group := Take(list, 2, Unsupported).value;
      var key := TakeVector(group.tail, 2, Unsupported, Unsupported).value;
      FieldOf(group.head, 0, 2);
      VectorTaken(group.tail, 2, Unsupported, Unsupported);
      var x := Hello.Share(Get16(group.head, 0), key.head);
      var next := if IsX25519(x) then Hello.Some(x.key) else found;
      shares := SharesRead(key.tail, next);
      shares := [x] + shares;
      assert shares[1..] == shares[1..];
      assert list == group.head + (Vector(2, x.key) + key.tail);
    }
  }

  /** data begins with a list of shares, the last x25519 share of which is this key. */
  ghost predicate SharesKey(data: Bytes, key: Bytes) {
    exists shares: seq<Hello.Share>, rest: Bytes ::
      data == Vector(2, WrittenShares(shares)) + rest && LastKey(shares, Hello.None) == Hello.Some(key)
  }

  lemma ClientExtensionsParsed(block: Bytes)
    requires Hello.ParseClientExtensions(block).Ok?
    ensures Hello.Find(block, 43).Some? && OffersVersion(Hello.Find(block, 43).value)
    ensures Hello.Find(block, 51).Some?
    ensures SharesKey(Hello.Find(block, 51).value, Hello.ParseClientExtensions(block).value)
  {
    hide Hello.Find, Get16, Put16, Take, TakeVector, Vector, OffersVersion, Hello.ParseVersions, Hello.LastShare,
         WrittenShares, LastKey;
    VersionsParsed(Hello.Find(block, 43).value);
    var data := Hello.Find(block, 51).value;
    VectorTaken(data, 2, Unsupported, Unsupported);
    var list := TakeVector(data, 2, Unsupported, Unsupported).value;
    var shares := SharesRead(list.head, Hello.None);
  }

  // ----- certificates and signatures: sections 4.3.1, 4.4.2 and 4.4.3 of RFC 8446

  /** Accepted if and only if the two length bytes count exactly what follows. */
  lemma EncryptedExtensionsParsed(buf: Bytes)
    ensures ParseEncryptedExtensions(buf).Ok? <==> |buf| >= 2 && BE(buf[..2]) == |buf| - 2
  {
    hide Get16;
    if |buf| >= 2 {
      FieldsAreBigEndian(buf[..2], 0);
      assert buf[..2][0..2] == buf[..2];
    }
  }

  /** Empty context, the length of the list, and for each certificate its length, its bytes and an
      empty list of extensions. */
  lemma CertificateLayout(certs: seq<Bytes>)
    ensures var b := CertificateBody(certs);
            && b[0] == 0 && BE(b[1..4]) == |Entries(certs)| % 0x100_0000 && b[4..] == Entries(certs)
    ensures forall der: Bytes :: der in certs ==>
              && BE(Entry(der)[..3]) == |der| % 0x100_0000 && Entry(der)[3..3 + |der|] == der
              && Entry(der)[3 + |der|..] == [0, 0]
  {
    hide BE, Entries, Vector;
    assert Pow(256, 3) == 0x100_0000;
    VectorLayout(3, Entries(certs));
    var v := Vector(3, Entries(certs));
    assert CertificateBody(certs)[1..4] == v[..3] && CertificateBody(certs)[4..] == v[3..];
    forall der: Bytes | der in certs
      ensures BE(Entry(der)[..3]) == |der| % 0x100_0000 && Entry(der)[3..3 + |der|] == der
      ensures Entry(der)[3 + |der|..] == [0, 0]
    {
      VectorLayout(3, der);
      NoExtensions();
      var d := Vector(3, der);
      assert Entry(der)[..3] == d[..3] && Entry(der)[3..3 + |der|] == d[3..];
    }
  }

  lemma NoExtensions()
    ensures Vector(2, []) == [0, 0]
  {
  }

  function WrittenEntries(certs: seq<Bytes>, exts: seq<Bytes>): Bytes
    requires |certs| == |exts|
  {
    if |certs| == 0 then [] else Vector(3, certs[0]) + Vector(2, exts[0]) + WrittenEntries(certs[1..], exts[1..])
  }

  lemma {:induction false} EntriesParsed(list: Bytes, count: nat) returns (exts: seq<Bytes>)
    requires ParseEntries(list, count).Ok?
    ensures var certs := ParseEntries(list, count).value;
            |exts| == |certs| && list == WrittenEntries(certs, exts) && (certs != [] ==> count + |certs| <= 4)
    decreases |list|
  {
    hide TakeVector, Vector;
    if |list| == 0 {
      exts := [];
    } else {
      var cert := TakeVector(list, 3, Truncated, BadLength).value;
      var x := TakeVector(cert.tail, 2, Truncated, BadLength).value;
      VectorTaken(list, 3, Truncated, BadLength);
      VectorTaken(cert.tail, 2, Truncated, BadLength);
      var more := ParseEntries(x.tail, count + 1).value;
      exts := EntriesParsed(x.tail, count + 1);
      exts := [x.head] + exts;
      assert ([cert.head] + more)[1..] == more && exts[1..] == exts[1..];
      assert list == Vector(3, cert.head) + (Vector(2, x.head) + x.tail);
    }
  }

  /** A Certificate body is accepted only as a context, a list of one to four certificates, each
      with some extensions, and possibly more bytes. */
  lemma CertificateParsed(buf: Bytes) returns (context: Bytes, exts: seq<Bytes>, rest: Bytes)
    requires ParseCertificate(buf).Ok?
    ensures var certs := ParseCertificate(buf).value;
            && 1 <= |certs| <= 4 && |exts| == |certs|
            && buf == Vector(1, context) + Vector(3, WrittenEntries(certs, exts)) + rest
  {
    hide TakeVector, Vector, ParseEntries, WrittenEntries;
    var c := TakeVector(buf, 1, Truncated, BadLength).value;
    var l := TakeVector(c.tail, 3, Truncated, BadLength).value;
    VectorTaken(buf, 1, Truncated, BadLength);
    VectorTaken(c.tail, 3, Truncated, BadLength);
    context, rest := c.head, l.tail;
    exts := EntriesParsed(l.head, 0);
  }

  lemma CertificateVerifyLayout(signature: Bytes)
    requires |signature| < 0x1_0000
    ensures CertificateVerifyBody(signature) == [4, 3, |signature| / 256, |signature| % 256] + signature
  {
  }

  /** A CertificateVerify body is accepted only if nothing follows the signature. */
  lemma CertificateVerifyParsed(buf: Bytes)
    requires ParseCertificateVerify(buf).Ok?
    ensures var cv := ParseCertificateVerify(buf).value; buf == Put16(cv.algorithm) + Vector(2, cv.signature)
  {
    hide Get16, Put16, Vector, Take, TakeVector;
    var a := Take(buf, 2, Truncated).value;
    var s := TakeVector(a.tail, 2, Truncated, BadLength).value;
    VectorTaken(a.tail, 2, Truncated, BadLength);
    FieldOf(a.head, 0, 2);
    assert s.tail == [] && Vector(2, s.head) + [] == Vector(2, s.head);
  }

  /** 64 spaces, the 33 characters of the server's context string, a zero byte, the hash. */
  lemma SignedContentLayout(hash: Bytes)
    ensures var b := CertificateVerifyContent(Handshake.ServerContext(), hash);
            && |b| == 98 + |hash| && (forall i :: 0 <= i < 64 ==> b[i] == 0x20)
            && b[64..97] == KeySchedule.Ascii("TLS 1.3, server CertificateVerify") && b[97] == 0 && b[98..] == hash
  {
  }

  /** Epoch 0, number 0, content type 22, version 0xFEFD. */
  lemma PlainLayout(message: Bytes)
    requires |message| < 0x1_0000
    ensures Handshake.Plain(message)
         == [22, 0xFE, 0xFD, 0, 0, 0, 0, 0, 0, 0, 0, |message| / 256, |message| % 256] + message
  {
  }

  /** An unfragmented handshake message. */
  lemma FramedLayout(kind: uint8, messageSeq: uint16, body: Bytes)
    requires |body| <= 0xFFFF
    ensures var n := |body|;
            Handshake.Framed(kind, messageSeq, body)
            == [kind, 0, n / 256, n % 256, messageSeq / 256, messageSeq % 256, 0, 0, 0, 0, n / 256, n % 256] + body
  {
  }

  /** The signature is over the hash of that content, which ends in the transcript's hash. */
  lemma SignedHashMeans(s: Handshake.Suite, transcript: Bytes)
    ensures Handshake.SignedHash(s, transcript)
         == s.Hash(seq(64, _ => 0x20) + KeySchedule.Ascii("TLS 1.3, server CertificateVerify") + [0]
                   + s.Hash(transcript))
  {
    hide KeySchedule.Ascii;
  }

  /** The client's Finished: message number 1, the MAC of the whole transcript under the client's
      secret, in record 0 of epoch 2 under the client's key. */
  lemma ClientFinishedLayout(s: Handshake.Suite, n: Handshake.Session)
    ensures Handshake.ClientFinishedMessage(s, n)
         == [20, 0, 0, 32, 0, 1, 0, 0, 0, 0, 0, 32]
            + KeySchedule.Finished(s.mac, n.keys.clientSecret, s.Hash(n.transcript))
    ensures Handshake.ClientFinishedRecord(s, n)
         == RecordProtect.RecordOf(s.block, RecordProtect.SendState(n.keys.clientKey, n.keys.clientIv, 0, 2), 22,
                                   Handshake.ClientFinishedMessage(s, n))
  {
    hide KeySchedule.Finished, RecordProtect.RecordOf, Handshake.Framed;
    FramedLayout(20, 1, KeySchedule.Finished(s.mac, n.keys.clientSecret, s.Hash(n.transcript)));
  }

  /** A protected record: 0x2C plus the epoch's low bits, 16 bits of number, the length, and the
      ciphertext of the text and its type, sealed with these five bytes as additional data. */
  lemma RecordLayout(block: ChaCha20.BlockFunction, w: RecordProtect.SendState, contentType: uint8, text: Bytes)
    requires |text| + 17 < 0x1_0000
    ensures var b, n := RecordProtect.RecordOf(block, w, contentType, text), |text| + 17;
            && |b| == 5 + n && b[0] == 0x2C + w.epoch % 4 && BE(b[1..3]) == w.next % 0x1_0000 && BE(b[3..5]) == n
            && var sealed := Aead.Seal(block, w.key, RecordProtect.Nonce(w.iv, w.next), b[..5], text + [contentType]);
            && b[5..] == sealed.ct + sealed.tag
  {
    hide BE, Get16, Put16, Aead.Seal, RecordProtect.Nonce;
    var b := RecordProtect.RecordOf(block, w, contentType, text);
    var q, l := Put16(w.next % 0x1_0000), Put16(|text| + 17);
    var header := RecordProtect.FixedHeader(w.epoch, w.next, |text| + 17);
    assert header[1..3] == q && header[3..5] == l;
    assert b[..5] == header && b[1..3] == header[1..3] && b[3..5] == header[3..5];
    FieldsAreBigEndian(q, 0);
    FieldsAreBigEndian(l, 0);
    assert q[0..2] == q && l[0..2] == l;
  }
}
