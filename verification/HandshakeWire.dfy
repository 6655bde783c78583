/** What each end makes of each datagram the other end sends. */
module HandshakeWire {
  import opened Machine
  import opened ByteOps
  import opened Record
  import opened HandshakeHeader
  import opened Reconstruct
  import opened RecordProtect
  import opened KeySchedule
  import opened Hello
  import opened Messages
  import opened Handshake
  import Aead
  import RecordRun
  import Wire

  // ----- epoch 0

  lemma FramedParses(kind: uint8, messageSeq: uint16, body: Bytes)
    requires |body| <= 0xFFFF
    ensures Parse(Framed(kind, messageSeq, body)) == Ok(Fragment(Whole(kind, messageSeq, body), body))
    ensures Expect(Fragment(Whole(kind, messageSeq, body), body), kind) == Ok(body)
  {
    hide Encode, Parse;
    var m := Framed(kind, messageSeq, body);
    RoundTrip(Whole(kind, messageSeq, body), body, |m|, []);
    assert m + [] == m;
  }

  lemma PlainArrives(kind: uint8, messageSeq: uint16, body: Bytes)
    requires |body| <= 0x1000
    ensures ReceivePlaintext(Plain(Framed(kind, messageSeq, body)))
         == Ok(Incoming(Fragment(Whole(kind, messageSeq, body), body), Framed(kind, messageSeq, body)))
  {
    hide Framed, Parse, ParsePlaintext, EncodePlaintext;
    var m := Framed(kind, messageSeq, body);
    FramedParses(kind, messageSeq, body);
    PlaintextRoundTrip(PlaintextHeader(CT_HANDSHAKE, 0xFEFD, 0, 0), m, 13 + |m|, []);
    assert Plain(m) + [] == Plain(m);
  }

  /** The server accepts the client's hello and reads the client's share out of it. */
  lemma HelloAccepted(s: Suite, c: ClientConfig)
    ensures AcceptHello(Plain(ClientHelloMessage(s, c))) == Ok(Accepted(ClientHelloMessage(s, c), s.base(c.priv)))
  {
    hide ReceivePlaintext, Plain, Framed, ParseClientHello, ClientHelloBody;
    var body := ClientHelloBody(c.random, s.base(c.priv));
    ClientHelloLen(c.random, s.base(c.priv));
    PlainArrives(CLIENT_HELLO, 0, body);
    FramedParses(CLIENT_HELLO, 0, body);
    ClientHelloRoundTrip(c.random, s.base(c.priv));
  }

  /** Diffie-Hellman with these two private keys agrees. */
  ghost predicate Commutes(s: Suite, c: ClientConfig, v: ServerConfig) {
    s.dh(c.priv, s.base(v.priv)) == s.dh(v.priv, s.base(c.priv))
  }

  function HelloTranscript(s: Suite, c: ClientConfig, v: ServerConfig): Bytes {
    ClientHelloMessage(s, c) + ServerHelloMessage(s, v)
  }

  function Secret(s: Suite, c: ClientConfig, v: ServerConfig): Bytes {
    s.dh(v.priv, s.base(c.priv))
  }

  /** The keys the server derives from the client's hello. */
  function SharedKeys(s: Suite, c: ClientConfig, v: ServerConfig): Keys {
    s.Keys(Secret(s, c, v), HelloTranscript(s, c, v))
  }

  function ReadAt(keys: Keys, highest: nat): ReadState
    requires highest < 4
  {
    ReadState(keys.serverKey, keys.serverIv, highest, 2)
  }

  /** The client makes of the server's hello the keys the server has. */
  lemma ServerHelloTaken(s: Suite, c: ClientConfig, v: ServerConfig)
    requires Commutes(s, c, v)
    ensures var keys, hello := SharedKeys(s, c, v), HelloTranscript(s, c, v);
            var i := ReceivePlaintext(Plain(ServerHelloMessage(s, v)));
            && i.Ok?
            && ClientSession(s, c, i.value) == if AllZero(Secret(s, c, v)) then Err(AuthFailed)
                                               else Ok(Session(keys, hello, [hello], ReadAt(keys, 0)))
  {
    hide ReceivePlaintext, Plain, Framed, ParseServerHello, ServerHelloBody, ClientHelloMessage, AllZero;
    var body := ServerHelloBody(v.random, s.base(v.priv));
    ServerHelloLen(v.random, s.base(v.priv));
    PlainArrives(SERVER_HELLO, 0, body);
    FramedParses(SERVER_HELLO, 0, body);
    ServerHelloRoundTrip(v.random, s.base(v.priv));
  }

  // ----- telling the two kinds of record apart

  /** A leftover hello fails the unified-header test, whatever the read state. */
  lemma PlainDoesNotOpen(s: Suite, u: ReadState, message: Bytes, cap: nat)
    ensures Unprotect(s.block, u, Plain(message), cap) == Err(NotUnified)
  {
    assert Plain(message)[0] == CT_HANDSHAKE;
  }

  lemma RecordIsNotPlain(s: Suite, w: SendState, message: Bytes)
    requires w.epoch == 2
    ensures ReceivePlaintext(RecordOf(s.block, w, CT_HANDSHAKE, message)).Err?
  {
    hide RecordOf, Parse;
    RecordFirstByte(s, w, message);
    FirstByteIsType(RecordOf(s.block, w, CT_HANDSHAKE, message));
  }

  lemma RecordFirstByte(s: Suite, w: SendState, message: Bytes)
    requires w.epoch == 2
    ensures var record := RecordOf(s.block, w, CT_HANDSHAKE, message); |record| > 0 && record[0] == 0x2E
  {
    hide Aead.Seal, Nonce;
  }

  lemma FirstByteIsType(datagram: Bytes)
    ensures ParsePlaintext(datagram).Ok? ==> ParsePlaintext(datagram).value.hdr.contentType == datagram[0]
  {
    hide Wire.Get16, Wire.Get48;
  }

  // ----- protected messages

  /** The i-th protected record of the server. */
  function Sealed(s: Suite, keys: Keys, i: nat, message: Bytes): Bytes
    requires i < 4
  {
    RecordOf(s.block, SendState(keys.serverKey, keys.serverIv, i, 2), CT_HANDSHAKE, message)
  }

  /** Fits one record and carries a whole handshake header. */
  predicate Sendable(message: Bytes) {
    |message| + 1 <= MAX_INNER && Parse(message).Ok?
  }

  lemma SealedOpens(s: Suite, keys: Keys, highest: nat, i: nat, message: Bytes)
    requires highest < 4 && i < 4 && Sendable(message)
    ensures ReceiveProtected(s, ReadAt(keys, highest), Sealed(s, keys, i, message))
         == Ok(Secured(Incoming(Parse(message).value, message), ReadAt(keys, if i > highest then i else highest)))
  {
    hide RecordOf, Unprotect, Parse, Recoverable;
    RecordRun.HalfWindowRecoverable(highest, i);
    UnprotectProtect(s.block, SendState(keys.serverKey, keys.serverIv, i, 2), ReadAt(keys, highest),
                     CT_HANDSHAKE, message, MAX_MSG);
  }

  // ----- the server's flight

  function Kind(i: nat): uint8
    requires i < 4
  {
    if i == 0 then ENCRYPTED_EXTENSIONS else if i == 1 then CERTIFICATE
    else if i == 2 then CERTIFICATE_VERIFY else FINISHED
  }

  /** The i-th message is of the i-th kind, and its record is sealed with number i. */
  ghost predicate InOrder(s: Suite, keys: Keys, out: seq<Bytes>, messages: seq<Bytes>, i: nat)
    requires i < |out| == |messages| <= 4
  {
    && Sendable(messages[i]) && Parse(messages[i]).value.hdr.msgType == Kind(i)
    && out[i] == Sealed(s, keys, i, messages[i])
  }

  /** An outbox holding the first messages of the flight. */
  ghost predicate Holds(s: Suite, keys: Keys, hello: Bytes, x: Outbox) {
    && |x.out| == |x.messages| <= 4
    && x.write == SendState(keys.serverKey, keys.serverIv, |x.out|, 2)
    && x.transcript == hello + Flatten(x.messages)
    && forall i :: 0 <= i < |x.out| ==> InOrder(s, keys, x.out, x.messages, i)
  }

  lemma EmitHolds(s: Suite, keys: Keys, hello: Bytes, x: Outbox, messageSeq: uint16, body: Result<Bytes>)
    requires Holds(s, keys, hello, x) && |x.out| < 4 && (body.Ok? ==> |body.value| <= 0xFFFF)
    ensures var stage := Emit(s, x, Kind(|x.out|), messageSeq, body);
            && Holds(s, keys, hello, stage.box)
            && (stage.Stopped? ==> stage.box == x)
            && (stage.Going? ==>
                  body.Ok? && stage.box.messages == x.messages + [Framed(Kind(|x.out|), messageSeq, body.value)])
  {
    hide RecordOf, Parse, Framed;
    var n := |x.out|;
    var stage := Emit(s, x, Kind(n), messageSeq, body);
    if stage.Going? {
      var message := Framed(Kind(n), messageSeq, body.value);
      WrapIsFramed(Kind(n), messageSeq, body.value);
      FramedParses(Kind(n), messageSeq, body.value);
      var y := stage.box;
      assert y.messages[..n] == x.messages;
      assert hello + Flatten(x.messages) + message == hello + (Flatten(x.messages) + message);
      forall i | 0 <= i < n + 1
        ensures InOrder(s, keys, y.out, y.messages, i)
      {
        assert i < n ==> InOrder(s, keys, x.out, x.messages, i);
      }
    }
  }

  lemma WrapIsFramed(kind: uint8, messageSeq: uint16, body: Bytes)
    requires |body| <= 0xFFFF
    ensures Wrap(kind, messageSeq, body, MAX_MSG).Ok? ==>
              Wrap(kind, messageSeq, body, MAX_MSG).value == Framed(kind, messageSeq, body)
  {
  }

  /** The transcript after the first j protected messages. */
  function Upto(hello: Bytes, messages: seq<Bytes>, j: nat): Bytes
    requires j <= |messages|
  {
    hello + Flatten(messages[..j])
  }

  /** The transcripts that have been hashed once j protected messages are in. */
  function Snapshots(hello: Bytes, messages: seq<Bytes>, j: nat): seq<Bytes>
    requires j <= |messages|
  {
    [hello] + (if j >= 2 then [Upto(hello, messages, 2)] else [])
    + (if j >= 3 then [Upto(hello, messages, 3)] else []) + (if j >= 4 then [Upto(hello, messages, 4)] else [])
  }

  /** What is known of the protected part of a plan. */
  ghost predicate Shaped(s: Suite, keys: Keys, hello: Bytes, plan: Plan) {
    && |plan.datagrams| == |plan.messages| <= 4
    && (forall i :: 0 <= i < |plan.messages| ==> InOrder(s, keys, plan.datagrams, plan.messages, i))
    && (plan.outcome.Ok? <==> |plan.messages| == 4)
    && (plan.outcome.Ok? ==>
          plan.outcome.value == Session(keys, Upto(hello, plan.messages, 4), Snapshots(hello, plan.messages, 4),
                                        ReadState(keys.clientKey, keys.clientIv, 0, 2)))
  }

  lemma StoppedIsShaped(s: Suite, keys: Keys, hello: Bytes, x: Outbox, e: Status)
    requires Holds(s, keys, hello, x) && |x.out| < 4
    ensures Shaped(s, keys, hello, Plan(x.out, x.messages, Err(e)))
  {
    hide InOrder;
  }

  lemma CompleteIsShaped(s: Suite, keys: Keys, hello: Bytes, cert: Outbox, cv: Outbox, fin: Outbox)
    requires Holds(s, keys, hello, cert) && Holds(s, keys, hello, cv) && Holds(s, keys, hello, fin)
    requires |cert.messages| == 2 && |cv.messages| == 3 && |fin.messages| == 4
    requires cert.messages == cv.messages[..2] && cv.messages == fin.messages[..3]
    ensures Shaped(s, keys, hello,
                   Plan(fin.out, fin.messages,
                        Ok(Session(keys, fin.transcript, [hello, cert.transcript, cv.transcript, fin.transcript],
                                   ReadState(keys.clientKey, keys.clientIv, 0, 2)))))
  {
    hide InOrder, Flatten;
    var m := fin.messages;
    assert m[..2] == m[..3][..2] && m[..4] == m;
  }

  lemma SignedIsShaped(s: Suite, v: ServerConfig, keys: Keys, hello: Bytes, cert: Outbox)
    requires Holds(s, keys, hello, cert) && |cert.out| == |cert.messages| == 2
    ensures Shaped(s, keys, hello, SignedPlan(s, v, keys, hello, cert))
  {
    hide Emit, Holds, Shaped, Framed, Finished, VerifyBody;
    var body := VerifyBody(s, v, cert.transcript);
    EmitHolds(s, keys, hello, cert, 3, body);
    var cv := Emit(s, cert, CERTIFICATE_VERIFY, 3, body);
    if cv.Stopped? {
      StoppedIsShaped(s, keys, hello, cert, cv.status);
    } else {
      HoldsLength(s, keys, hello, cv.box);
      var last := Ok(Finished(s.mac, keys.serverSecret, s.Hash(cv.box.transcript)));
      EmitHolds(s, keys, hello, cv.box, 4, last);
      var fin := Emit(s, cv.box, FINISHED, 4, last);
      if fin.Stopped? {
        StoppedIsShaped(s, keys, hello, cv.box, fin.status);
      } else {
        CompleteIsShaped(s, keys, hello, cert, cv.box, fin.box);
      }
    }
  }

  lemma HoldsLength(s: Suite, keys: Keys, hello: Bytes, x: Outbox)
    requires Holds(s, keys, hello, x)
    ensures |x.out| == |x.messages|
  {
    hide InOrder;
  }

  lemma PlanIsShaped(s: Suite, v: ServerConfig, keys: Keys, hello: Bytes)
    ensures Shaped(s, keys, hello, ProtectedPlan(s, v, keys, hello))
  {
    hide Emit, Holds, Shaped, Framed, SerializeCertificate, SignedPlan;
    var start := Outbox([], [], SendState(keys.serverKey, keys.serverIv, 0, 2), hello);
    StartHolds(s, keys, hello);
    EmitHolds(s, keys, hello, start, 1, Ok(EMPTY_EXTENSIONS));
    var ee := Emit(s, start, ENCRYPTED_EXTENSIONS, 1, Ok(EMPTY_EXTENSIONS));
    if ee.Stopped? {
      StoppedIsShaped(s, keys, hello, start, ee.status);
    } else {
      HoldsLength(s, keys, hello, ee.box);
      CertificateIsShort(v.certs);
      var body := SerializeCertificate(v.certs, MAX_MSG);
      EmitHolds(s, keys, hello, ee.box, 2, body);
      var cert := Emit(s, ee.box, CERTIFICATE, 2, body);
      if cert.Stopped? {
        StoppedIsShaped(s, keys, hello, ee.box, cert.status);
      } else {
        HoldsLength(s, keys, hello, cert.box);
        SignedIsShaped(s, v, keys, hello, cert.box);
      }
    }
  }

  lemma StartHolds(s: Suite, keys: Keys, hello: Bytes)
    ensures Holds(s, keys, hello, Outbox([], [], SendState(keys.serverKey, keys.serverIv, 0, 2), hello))
  {
    assert hello + Flatten([]) == hello;
  }

  lemma CertificateIsShort(certs: seq<Bytes>)
    ensures SerializeCertificate(certs, MAX_MSG).Ok? ==> |SerializeCertificate(certs, MAX_MSG).value| <= 0xFFFF
  {
  }
}
