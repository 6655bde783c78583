/** The DER subset of src/x509/asn1.c: TLV parsing, the reader, and ECDSA-Sig-Value. */
module Asn1 {
  import opened Machine
  import opened Arithmetic
  import opened Limbs
  import opened ByteOps

  const TAG_INTEGER: uint8 := 0x02
  const TAG_SEQUENCE: uint8 := 0x30

  datatype Tlv = Tlv(tag: uint8, constructed: bool, headerLen: nat, value: Bytes) {
    function Len(): nat {
      headerLen + |value|
    }
  }

  // ----- one TLV

  datatype LengthField = LengthField(pos: nat, valueLen: nat)

  function ParseLength(buf: Bytes): (r: Result<LengthField>)
    requires |buf| >= 2
    ensures r.Ok? ==> 2 <= r.value.pos <= |buf|
  {
    if buf[1] < 0x80 then Ok(LengthField(2, buf[1]))
    else
      var n := buf[1] % 0x80;
      if n == 0 then Err(Unsupported)
      else if n > 8 then Err(BadLength)
      else if 2 + n as int > |buf| then Err(Truncated)
      else
        BENonNegative(buf[2..2 + n as int]);
        Ok(LengthField(2 + n, BE(buf[2..2 + n as int])))
  }

  function ParseTlv(buf: Bytes): (r: Result<Tlv>)
    ensures r.Ok? ==> 2 <= r.value.headerLen && r.value.Len() <= |buf|
    ensures r.Ok? ==> r.value.value == buf[r.value.headerLen..r.value.Len()]
  {
    if |buf| < 2 then Err(Truncated)
    else if buf[0] % 0x20 == 0x1F then Err(Unsupported)
    else
      var l :- ParseLength(buf);
      if l.pos + l.valueLen > |buf| then Err(BadLength)
      else Ok(Tlv(buf[0], buf[0] / 0x20 % 2 == 1, l.pos, buf[l.pos..l.pos + l.valueLen]))
  }

  lemma {:induction false} BENonNegative(b: Bytes)
    ensures BE(b) >= 0
    decreases |b|
  {
    if |b| > 0 {
      BENonNegative(b[..|b| - 1]);
    }
  }

  lemma {:induction false} BEBound(b: Bytes)
    ensures 0 <= BE(b) < Pow(256, |b|)
    decreases |b|
  {
    if |b| > 0 {
      BEBound(b[..|b| - 1]);
    }
  }

  lemma EightByteBound(i: nat)
    requires i <= 8
    ensures Pow(256, i) <= 0x1_0000_0000_0000_0000
  {
    assert Pow(256, 4) == 0x1_0000_0000;
    PowAdd(256, 4, 4);
    PowAdd(256, i, 8 - i);
    PowPositive(256, i);
    PowPositive(256, 8 - i);
    MulMono(1, Pow(256, 8 - i), Pow(256, i));
  }

  /** The length bytes accumulate in a 64-bit word without loss, and the guard against the sum
      wrapping catches every length the buffer cannot hold. */
  method ParseTlvFrom(buf: Bytes) returns (r: Result<Tlv>)
    requires |buf| < 0x1_0000_0000_0000_0000
    ensures r == ParseTlv(buf)
  {
    hide BE, Pow;
    if |buf| < 2 {
      return Err(Truncated);
    }
    var tag := buf[0];
    if tag % 0x20 == 0x1F {
      return Err(Unsupported);
    }
    var pos: uint64 := 2;
    var len0 := buf[1];
    var valueLen: uint64 := 0;
    if len0 < 0x80 {
      valueLen := len0;
    } else {
      var n := len0 % 0x80;
      if n == 0 {
        return Err(Unsupported);
      }
      if n > 8 {
        return Err(BadLength);
      }
      if 2 + n as int > |buf| {
        return Err(Truncated);
      }
      EmptyBE(buf[2..2]);
      for i := 0 to n
        invariant pos == 2 + i && valueLen == BE(buf[2..2 + i as int])
      {
        BEStep(buf, i);
        valueLen := valueLen as int * 256 + buf[pos];
        pos := pos + 1;
      }
    }
    var sum: uint64 := (pos as int + valueLen) % 0x1_0000_0000_0000_0000;
    if sum < pos {
      return Err(BadLength);
    }
    if sum > |buf| {
      return Err(BadLength);
    }
    return Ok(Tlv(tag, tag / 0x20 % 2 == 1, pos, buf[pos..sum]));
  }

  lemma EmptyBE(b: Bytes)
    requires |b| == 0
    ensures BE(b) == 0
  {
  }

  lemma BEStep(buf: Bytes, i: nat)
    requires i < 8 && 2 + i < |buf|
    ensures BE(buf[2..2 + i + 1]) == BE(buf[2..2 + i]) * 256 + buf[2 + i]
    ensures 0 <= BE(buf[2..2 + i + 1]) < 0x1_0000_0000_0000_0000
  {
    var b := buf[2..2 + i + 1];
    assert b[..i] == buf[2..2 + i];
    BEBound(b);
    EightByteBound(i + 1);
  }

  // ----- the reader

  class Reader {
    const buf: Bytes
    var pos: nat

    constructor (b: Bytes)
      ensures buf == b && pos == 0
    {
      buf := b;
      pos := 0;
    }

    /** Moves past exactly the bytes of what it returns, and nowhere otherwise. */
    method Next() returns (r: Result<Tlv>)
      requires |buf| < 0x1_0000_0000_0000_0000 && pos <= |buf|
      modifies this
      ensures pos <= |buf|
      ensures r == (if old(pos) >= |buf| then Err(Truncated) else ParseTlv(buf[old(pos)..]))
      ensures pos == (if r.Ok? then old(pos) + r.value.Len() else old(pos))
      ensures r.Ok? ==> pos > old(pos)
    {
      if pos >= |buf| {
        return Err(Truncated);
      }
      r := ParseTlvFrom(buf[pos..]);
      if r.Ok? {
        pos := pos + r.value.headerLen + |r.value.value|;
      }
    }
  }

  /** Where piece i of a list laid end to end starts. */
  function Offset(pieces: seq<Tlv>, i: nat): nat
    requires i <= |pieces|
  {
    if i == 0 then 0 else Offset(pieces, i - 1) + pieces[i - 1].Len()
  }

  /** Piece i is what parses at the end of the pieces before it, and it ends further on, inside buf. */
  ghost predicate Placed(buf: Bytes, pieces: seq<Tlv>, i: nat)
    requires i < |pieces|
  {
    var start := Offset(pieces, i);
    start < start + pieces[i].Len() <= |buf| && ParseTlv(buf[start..]) == Ok(pieces[i])
  }

  ghost predicate Tiles(buf: Bytes, pieces: seq<Tlv>) {
    forall i :: 0 <= i < |pieces| ==> Placed(buf, pieces, i)
  }

  lemma {:induction false} OffsetPrefix(pieces: seq<Tlv>, t: Tlv, i: nat)
    requires i <= |pieces|
    ensures Offset(pieces + [t], i) == Offset(pieces, i)
  {
    if i > 0 {
      OffsetPrefix(pieces, t, i - 1);
    }
  }

  /** Repeated steps tile the consumed prefix, and stop at the end or where no TLV parses. */
  method Walk(buf: Bytes) returns (pieces: seq<Tlv>, pos: nat)
    requires |buf| < 0x1_0000_0000_0000_0000
    ensures Tiles(buf, pieces) && pos == Offset(pieces, |pieces|) <= |buf|
    ensures pos == |buf| || ParseTlv(buf[pos..]).Err?
  {
    hide ParseTlv;
    var reader := new Reader(buf);
    pieces := [];
    while reader.pos < |buf|
      invariant reader.buf == buf && reader.pos == Offset(pieces, |pieces|) <= |buf| && Tiles(buf, pieces)
      decreases |buf| - reader.pos
    {
      var r := reader.Next();
      if r.Err? {
        return pieces, reader.pos;
      }
      Extend(buf, pieces, r.value);
      pieces := pieces + [r.value];
    }
    pos := reader.pos;
  }

  lemma Extend(buf: Bytes, pieces: seq<Tlv>, t: Tlv)
    requires Tiles(buf, pieces) && Offset(pieces, |pieces|) <= |buf|
    requires ParseTlv(buf[Offset(pieces, |pieces|)..]) == Ok(t)
    ensures Tiles(buf, pieces + [t])
    ensures Offset(pieces + [t], |pieces| + 1) == Offset(pieces, |pieces|) + t.Len()
  {
    hide ParseTlv;
    var all := pieces + [t];
    OffsetPrefix(pieces, t, |pieces|);
    forall i | 0 <= i < |all|
      ensures Placed(buf, all, i)
    {
      OffsetPrefix(pieces, t, i);
      assert i < |pieces| ==> Placed(buf, pieces, i);
    }
  }

  // ----- INTEGER

  function ReadUintFixed(t: Tlv, outLen: nat): Result<Bytes> {
    if t.tag != TAG_INTEGER then Err(BadArg)
    else if |t.value| == 0 then Err(BadLength)
    else
      var stripped := |t.value| > 1 && t.value[0] == 0;
      var p := if stripped then t.value[1..] else t.value;
      if |p| > outLen then Err(BadLength)
      else if !stripped && p[0] >= 0x80 then Err(Unsupported)
      else Ok(Zeros(outLen - |p|) + p)
  }

  method ReadUint(t: Tlv, outLen: nat) returns (r: Result<Bytes>)
    ensures r == ReadUintFixed(t, outLen)
  {
    if t.tag != TAG_INTEGER {
      return Err(BadArg);
    }
    var start, n := 0, |t.value|;
    if n == 0 {
      return Err(BadLength);
    }
    var stripped := false;
    if n > 1 && t.value[0] == 0 {
      start, n, stripped := 1, n - 1, true;
    }
    if n == 0 || n > outLen {
      return Err(BadLength);
    }
    if !stripped && t.value[start] >= 0x80 {
      return Err(Unsupported);
    }
    var pad := outLen - n;
    var out := new uint8[outLen];
    for i := 0 to pad
      invariant forall k :: 0 <= k < i ==> out[k] == 0
    {
      out[i] := 0;
    }
    var p := t.value[start..];
    for i := 0 to n
      invariant forall k :: 0 <= k < pad ==> out[k] == 0
      invariant forall k :: pad <= k < pad + i ==> out[k] == p[k - pad]
    {
      out[pad + i] := p[i];
    }
    assert out[..] == Zeros(pad) + p;
    return Ok(out[..]);
  }

  /** Index of the first byte to keep: at least one byte stays. */
  function FirstKept(val: Bytes, i: nat): (s: nat)
    requires |val| == 32 && i <= 31 && forall k :: 0 <= k < i ==> val[k] == 0
    ensures i <= s <= 31 && (forall k :: 0 <= k < s ==> val[k] == 0) && (s < 31 ==> val[s] != 0)
    decreases 31 - i
  {
    if i < 31 && val[i] == 0 then FirstKept(val, i + 1) else i
  }

  /** Minimal contents: leading zeros dropped, one zero put back before a set top bit. */
  function Content(val: Bytes): (c: Bytes)
    requires |val| == 32
    ensures 1 <= |c| <= 33
  {
    var start := FirstKept(val, 0);
    (if val[start] >= 0x80 then [0] else []) + val[start..]
  }

  function EncodeUint(val: Bytes): Bytes
    requires |val| == 32
  {
    [TAG_INTEGER, |Content(val)|] + Content(val)
  }

  method DerEncode(val: Bytes) returns (out: Bytes)
    requires |val| == 32
    ensures out == EncodeUint(val)
  {
    var start := 0;
    while start < 31 && val[start] == 0
      invariant 0 <= start <= 31 && forall k :: 0 <= k < start ==> val[k] == 0
      invariant FirstKept(val, 0) == FirstKept(val, start)
    {
      start := start + 1;
    }
    var n := 32 - start;
    var needPad := val[start] >= 0x80;
    var len := n + (if needPad then 1 else 0);
    out := [TAG_INTEGER, len];
    if needPad {
      out := out + [0];
    }
    out := out + val[start..];
    assert out == [TAG_INTEGER, len] + Content(val);
  }

  /** Reading an encoded integer at its own width gives it back. */
  lemma ReadEncoded(val: Bytes)
    requires |val| == 32
    ensures ReadUintFixed(Tlv(TAG_INTEGER, false, 2, Content(val)), 32) == Ok(val)
  {
    var start := FirstKept(val, 0);
    var c := Content(val);
    var kept := val[start..];
    assert val == Zeros(start) + kept;
    if val[start] >= 0x80 {
      assert c[1..] == kept;
    } else {
      assert c == kept;
    }
  }

  lemma EncodedParses(val: Bytes, rest: Bytes)
    requires |val| == 32
    ensures ParseTlv(EncodeUint(val) + rest) == Ok(Tlv(TAG_INTEGER, false, 2, Content(val)))
  {
    hide Content;
    var c := Content(val);
    var b := EncodeUint(val) + rest;
    assert b[0] == TAG_INTEGER && b[1] == |c| && b[2..2 + |c|] == c;
  }

  // ----- what integers mean

  lemma {:induction false} LeadingZeros(n: nat, b: Bytes)
    ensures BE(Zeros(n) + b) == BE(b)
    decreases |b|
  {
    var all := Zeros(n) + b;
    if |b| == 0 {
      AllZeros(n);
      assert all == Zeros(n);
    } else {
      assert all[..|all| - 1] == Zeros(n) + b[..|b| - 1];
      LeadingZeros(n, b[..|b| - 1]);
    }
  }

  lemma {:induction false} AllZeros(n: nat)
    ensures BE(Zeros(n)) == 0
  {
    if n > 0 {
      assert Zeros(n)[..n - 1] == Zeros(n - 1);
      AllZeros(n - 1);
    }
  }

  /** Tag 2, one length byte, and the number itself: never negative, and no byte more than DER
      allows. */
  lemma EncodedMeans(val: Bytes)
    requires |val| == 32
    ensures var c := Content(val);
            && EncodeUint(val) == [0x02, |c|] + c
            && BE(c) == BE(val) && c[0] < 0x80 && (|c| == 1 || c[0] != 0 || c[1] >= 0x80)
  {
    hide BE;
    var start := FirstKept(val, 0);
    var kept := val[start..];
    assert val == Zeros(start) + kept;
    LeadingZeros(start, kept);
    if val[start] >= 0x80 {
      LeadingZeros(1, kept);
      assert Content(val) == Zeros(1) + kept;
    } else {
      assert Content(val) == kept;
    }
  }

  /** An integer is read if and only if it is not negative and fits, and then it is that number. */
  lemma ReadMeans(t: Tlv, outLen: nat)
    ensures var r := ReadUintFixed(t, outLen);
            && (r.Ok? <==> t.tag == 0x02 && |t.value| > 0 && t.value[0] < 0x80
                           && |t.value| <= outLen + (if |t.value| > 1 && t.value[0] == 0 then 1 else 0))
            && (r.Ok? ==> |r.value| == outLen && BE(r.value) == BE(t.value))
  {
    hide BE;
    var r := ReadUintFixed(t, outLen);
    if r.Ok? {
      var stripped := |t.value| > 1 && t.value[0] == 0;
      var p := if stripped then t.value[1..] else t.value;
      LeadingZeros(outLen - |p|, p);
      if stripped {
        LeadingZeros(1, p);
        assert t.value == Zeros(1) + p;
      }
    }
  }

  // ----- every length form

  /** A value of any length parses back behind any of its length forms: one byte below 128, or 1 to
      8 big-endian bytes. */
  lemma TlvRoundTrip(tag: uint8, k: nat, value: Bytes, rest: Bytes)
    requires tag % 0x20 != 0x1F && k <= 8 && |value| < if k == 0 then 0x80 else Pow2(8 * k)
    ensures var head := if k == 0 then [tag, |value|] else [tag, 0x80 + k] + BigBytes(|value|, k);
            ParseTlv(head + value + rest) == Ok(Tlv(tag, tag / 0x20 % 2 == 1, 2 + k, value))
  {
    hide BE, BigBytes, Pow2;
    var head: Bytes := if k == 0 then [tag, |value|] else [tag, 0x80 + k] + BigBytes(|value|, k);
    var b := head + value + rest;
    assert b[0] == tag && b[2 + k..2 + k + |value|] == value;
    if k > 0 {
      assert b[1] == 0x80 + k && b[2..2 + k] == BigBytes(|value|, k);
      BigBytesValue(|value|, k);
      SmallMod(|value|, Pow2(8 * k));
    }
  }

  // ----- ECDSA-Sig-Value

  /** At most 70 bytes of body, so the one-byte length always holds it. */
  function WriteSig(r: Bytes, s: Bytes, cap: nat): Result<Bytes>
    requires |r| == 32 && |s| == 32
  {
    var body := EncodeUint(r) + EncodeUint(s);
    if 2 + |body| > cap then Err(BadLength)
    else Ok([TAG_SEQUENCE, |body|] + body)
  }

  method WriteEcdsaSig(r: Bytes, s: Bytes, cap: nat) returns (sig: Result<Bytes>)
    requires |r| == 32 && |s| == 32
    ensures sig == WriteSig(r, s, cap)
  {
    hide EncodeUint;
    EncodedLen(r);
    EncodedLen(s);
    var rBytes := DerEncode(r);
    var sBytes := DerEncode(s);
    var body := rBytes + sBytes;
    if 2 + |body| > cap {
      return Err(BadLength);
    }
    return Ok([TAG_SEQUENCE, |body|] + body);
  }

  datatype Signature = Signature(r: Bytes, s: Bytes)

  /** How a CertificateVerify signature is taken apart (src/handshake/messages.c). */
  function ReadSig(sig: Bytes): Result<Signature> {
    var outer :- ParseTlv(sig);
    if outer.tag != TAG_SEQUENCE then Err(BadArg)
    else if |outer.value| == 0 then Err(Truncated)
    else
      var rTlv :- ParseTlv(outer.value);
      var rest := outer.value[rTlv.Len()..];
      if |rest| == 0 then Err(Truncated)
      else
        var sTlv :- ParseTlv(rest);
        var r :- ReadUintFixed(rTlv, 32);
        var s :- ReadUintFixed(sTlv, 32);
        Ok(Signature(r, s))
  }

  /** The same through the reader object. */
  method ReadEcdsaSig(sig: Bytes) returns (r: Result<Signature>)
    requires |sig| < 0x1_0000_0000_0000_0000
    ensures r == ReadSig(sig)
  {
    hide ParseTlv, ReadUintFixed;
    var outer :- ParseTlvFrom(sig);
    if outer.tag != TAG_SEQUENCE {
      return Err(BadArg);
    }
    var reader := new Reader(outer.value);
    assert outer.value[0..] == outer.value;
    var rTlv :- reader.Next();
    var sTlv :- reader.Next();
    var rBytes :- ReadUint(rTlv, 32);
    var sBytes :- ReadUint(sTlv, 32);
    return Ok(Signature(rBytes, sBytes));
  }

  /** The writer only refuses a buffer that is too small, and what it writes reads back. */
  lemma SigRoundTrip(r: Bytes, s: Bytes, cap: nat)
    requires |r| == 32 && |s| == 32
    ensures WriteSig(r, s, cap).Ok? <==> 2 + |EncodeUint(r)| + |EncodeUint(s)| <= cap
    ensures WriteSig(r, s, cap).Ok? ==> ReadSig(WriteSig(r, s, cap).value) == Ok(Signature(r, s))
  {
    hide EncodeUint, ParseTlv, ReadUintFixed, Content;
    EncodedLen(r);
    EncodedLen(s);
    if WriteSig(r, s, cap).Ok? {
      var body := EncodeUint(r) + EncodeUint(s);
      SequenceParses(body);
      EncodedParses(r, EncodeUint(s));
      EncodedParses(s, []);
      assert EncodeUint(s) + [] == EncodeUint(s);
      assert body[|EncodeUint(r)|..] == EncodeUint(s);
      ReadEncoded(r);
      ReadEncoded(s);
    }
  }

  /** A signature is read only from a SEQUENCE that begins with two INTEGERs, and is their values. */
  lemma SignatureMeans(sig: Bytes) returns (a: Tlv, b: Tlv)
    requires ReadSig(sig).Ok?
    ensures var g := ReadSig(sig).value;
            && ParseTlv(sig).Ok? && ParseTlv(sig).value.tag == 0x30
            && ParseTlv(ParseTlv(sig).value.value) == Ok(a) && a.tag == 0x02
            && ParseTlv(ParseTlv(sig).value.value[a.Len()..]) == Ok(b) && b.tag == 0x02
            && |g.r| == 32 && BE(g.r) == BE(a.value) && |g.s| == 32 && BE(g.s) == BE(b.value)
  {
    hide ParseTlv, ReadUintFixed, BE;
    var outer := ParseTlv(sig).value.value;
    a := ParseTlv(outer).value;
    b := ParseTlv(outer[a.Len()..]).value;
    ReadMeans(a, 32);
    ReadMeans(b, 32);
  }

  lemma EncodedLen(val: Bytes)
    requires |val| == 32
    ensures |EncodeUint(val)| == 2 + |Content(val)|
  {
  }

  lemma SequenceParses(body: Bytes)
    requires |body| <= 127
    ensures ParseTlv([TAG_SEQUENCE, |body|] + body) == Ok(Tlv(TAG_SEQUENCE, true, 2, body))
  {
    var b := [TAG_SEQUENCE, |body|] + body;
    assert b[0] == TAG_SEQUENCE && b[1] == |body| && b[2..2 + |body|] == body;
  }
}
