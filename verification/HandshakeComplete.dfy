/** When nothing is lost and the client accepts the server's certificate and signature, the
    handshake completes on both sides; with four hellos repeated it need not. */
module HandshakeComplete {
  import opened Machine
  import opened ByteOps
  import opened HandshakeHeader
  import opened RecordProtect
  import opened KeySchedule
  import opened Hello
  import opened Messages
  import opened Handshake
  import opened HandshakeWire
  import opened HandshakeRun
  import opened HandshakeProgress
  import HandshakeSafety
  import Asn1
  import Codec

  /** The bodies of a complete flight. */
  ghost predicate Bodies(s: Suite, v: ServerConfig, keys: Keys, hello: Bytes, messages: seq<Bytes>) {
    && |messages| == 4 && 1 <= |v.certs| <= MAX_CERTS && |CertificateBody(v.certs)| <= MAX_MSG
    && messages[0] == Framed(ENCRYPTED_EXTENSIONS, 1, EMPTY_EXTENSIONS)
    && messages[1] == Framed(CERTIFICATE, 2, CertificateBody(v.certs))
    && VerifyBody(s, v, Upto(hello, messages, 2)).Ok?
    && messages[2] == Framed(CERTIFICATE_VERIFY, 3, VerifyBody(s, v, Upto(hello, messages, 2)).value)
    && messages[3] == Framed(FINISHED, 4, Finished(s.mac, keys.serverSecret, s.Hash(Upto(hello, messages, 3))))
  }

  lemma SignedBodies(s: Suite, v: ServerConfig, keys: Keys, hello: Bytes, cert: Outbox)
    requires Holds(s, keys, hello, cert) && |cert.out| == |cert.messages| == 2
    requires SignedPlan(s, v, keys, hello, cert).outcome.Ok?
    ensures var m := SignedPlan(s, v, keys, hello, cert).messages;
            && |m| == 4 && m[..2] == cert.messages
            && VerifyBody(s, v, Upto(hello, m, 2)).Ok?
            && m[2] == Framed(CERTIFICATE_VERIFY, 3, VerifyBody(s, v, Upto(hello, m, 2)).value)
            && m[3] == Framed(FINISHED, 4, Finished(s.mac, keys.serverSecret, s.Hash(Upto(hello, m, 3))))
  {
    hide Emit, Holds, Framed, Finished, VerifyBody;
    HoldsTranscript(s, keys, hello, cert);
    var body := VerifyBody(s, v, cert.transcript);
    EmitHolds(s, keys, hello, cert, 3, body);
    var cv := Emit(s, cert, CERTIFICATE_VERIFY, 3, body).box;
    HoldsLength(s, keys, hello, cv);
    HoldsTranscript(s, keys, hello, cv);
    EmitHolds(s, keys, hello, cv, 4, Ok(Finished(s.mac, keys.serverSecret, s.Hash(cv.transcript))));
    var m := SignedPlan(s, v, keys, hello, cert).messages;
    assert m[..3] == cv.messages && m[..2] == cert.messages;
  }

  lemma HoldsTranscript(s: Suite, keys: Keys, hello: Bytes, x: Outbox)
    requires Holds(s, keys, hello, x)
    ensures x.transcript == hello + Flatten(x.messages)
  {
    hide InOrder;
  }

  lemma CompleteBodies(s: Suite, v: ServerConfig, keys: Keys, hello: Bytes)
    requires ProtectedPlan(s, v, keys, hello).outcome.Ok?
    ensures Bodies(s, v, keys, hello, ProtectedPlan(s, v, keys, hello).messages)
  {
    hide Emit, Holds, Framed, Finished, CertificateBody, SignedPlan, VerifyBody, Upto;
    var start := Outbox([], [], SendState(keys.serverKey, keys.serverIv, 0, 2), hello);
    StartHolds(s, keys, hello);
    EmitHolds(s, keys, hello, start, 1, Ok(EMPTY_EXTENSIONS));
    var ee := Emit(s, start, ENCRYPTED_EXTENSIONS, 1, Ok(EMPTY_EXTENSIONS)).box;
    HoldsLength(s, keys, hello, ee);
    var body := SerializeCertificate(v.certs, MAX_MSG);
    CertificateIsShort(v.certs);
    EmitHolds(s, keys, hello, ee, 2, body);
    var cert := Emit(s, ee, CERTIFICATE, 2, body).box;
    HoldsLength(s, keys, hello, cert);
    SignedBodies(s, v, keys, hello, cert);
    var m := ProtectedPlan(s, v, keys, hello).messages;
    assert m[0] == m[..2][0] && m[1] == m[..2][1];
  }

  lemma AnswerBodies(s: Suite, c: ClientConfig, v: ServerConfig)
    requires Answer(s, c, v).outcome.Ok?
    ensures Bodies(s, v, SharedKeys(s, c, v), HelloTranscript(s, c, v), Answer(s, c, v).messages)
    ensures !AllZero(Secret(s, c, v)) && |Answer(s, c, v).datagrams| == 5
  {
    hide AcceptHello, Plain, ProtectedPlan, AllZero, Bodies, ClientHelloMessage, ServerHelloMessage, Shaped;
    HelloAccepted(s, c);
    AnswerShape(s, c, v);
    CompleteBodies(s, v, SharedKeys(s, c, v), HelloTranscript(s, c, v));
    BodiesLength(s, v, SharedKeys(s, c, v), HelloTranscript(s, c, v), Answer(s, c, v).messages);
  }

  lemma BodiesLength(s: Suite, v: ServerConfig, keys: Keys, hello: Bytes, messages: seq<Bytes>)
    requires Bodies(s, v, keys, hello, messages)
    ensures |messages| == 4 && 1 <= |v.certs| <= MAX_CERTS
  {
    hide Framed, CertificateBody, VerifyBody, Finished;
  }

  lemma PublicBodies(s: Suite, v: ServerConfig, keys: Keys, hello: Bytes, messages: seq<Bytes>)
    requires Bodies(s, v, keys, hello, messages)
    ensures |messages| == 4 && 1 <= |v.certs| <= MAX_CERTS && |CertificateBody(v.certs)| <= MAX_MSG
    ensures messages[0] == Framed(ENCRYPTED_EXTENSIONS, 1, EMPTY_EXTENSIONS)
    ensures messages[1] == Framed(CERTIFICATE, 2, CertificateBody(v.certs))
  {
    hide Framed, CertificateBody, VerifyBody, Finished;
  }

  // ----- when the server can answer in full

  /** A message is sent if and only if its body was built and fits the 2048 bytes of one record
      together with its header and its content type. */
  lemma EmitGoes(s: Suite, x: Outbox, kind: uint8, messageSeq: uint16, body: Result<Bytes>)
    requires body.Ok? ==> |body.value| <= 0xFFFF
    ensures Emit(s, x, kind, messageSeq, body).Going? <==> body.Ok? && |body.value| <= 2035
  {
    hide RecordOf, Encode;
  }

  lemma DerLength(r: Bytes, t: Bytes)
    requires |r| == 32 && |t| == 32
    ensures Asn1.WriteSig(r, t, 80).Ok? && |Asn1.WriteSig(r, t, 80).value| <= 72
  {
    hide Asn1.EncodeUint;
    Asn1.EncodedLen(r);
    Asn1.EncodedLen(t);
  }

  /** Building CertificateVerify fails only if the signer does: every signature fits. */
  lemma VerifyBodyIff(s: Suite, v: ServerConfig, transcript: Bytes)
    ensures VerifyBody(s, v, transcript).Ok? <==> v.sign(SignedHash(s, transcript)).Ok?
    ensures VerifyBody(s, v, transcript).Err? ==>
              VerifyBody(s, v, transcript) == Err(v.sign(SignedHash(s, transcript)).status)
  {
    hide SignedHash, Asn1.WriteSig;
    var signature := v.sign(SignedHash(s, transcript));
    if signature.Ok? {
      DerLength(signature.value.r, signature.value.s);
    }
  }

  /** The transcript up to Certificate, which the server signs. */
  function ToBeSigned(hello: Bytes, certs: seq<Bytes>): Bytes
    requires |CertificateBody(certs)| <= 0xFFFF
  {
    hello + Framed(ENCRYPTED_EXTENSIONS, 1, EMPTY_EXTENSIONS) + Framed(CERTIFICATE, 2, CertificateBody(certs))
  }

  /** One to four certificates that fit one record, and a signer that signs this transcript. */
  ghost predicate Presentable(s: Suite, v: ServerConfig, hello: Bytes) {
    && 1 <= |v.certs| <= 4 && |CertificateBody(v.certs)| <= 2035
    && v.sign(SignedHash(s, ToBeSigned(hello, v.certs))).Ok?
  }

  lemma SignedCompletes(s: Suite, v: ServerConfig, keys: Keys, hello: Bytes, cert: Outbox)
    ensures SignedPlan(s, v, keys, hello, cert).outcome.Ok? <==> v.sign(SignedHash(s, cert.transcript)).Ok?
  {
    hide Emit, Finished, VerifyBody, SignedHash;
    var body := VerifyBody(s, v, cert.transcript);
    VerifyBodyIff(s, v, cert.transcript);
    EmitGoes(s, cert, CERTIFICATE_VERIFY, 3, body);
    var cv := Emit(s, cert, CERTIFICATE_VERIFY, 3, body);
    if cv.Going? {
      EmitGoes(s, cv.box, FINISHED, 4, Ok(Finished(s.mac, keys.serverSecret, s.Hash(cv.box.transcript))));
    }
  }

  lemma EmitTranscript(s: Suite, x: Outbox, kind: uint8, messageSeq: uint16, body: Bytes)
    requires |body| <= 0xFFFF
    ensures var stage := Emit(s, x, kind, messageSeq, Ok(body));
            stage.Going? ==> stage.box.transcript == x.transcript + Framed(kind, messageSeq, body)
  {
    hide Framed, RecordOf;
    WrapIsFramed(kind, messageSeq, body);
  }

  /** The whole flight is built if and only if the configuration is presentable. */
  lemma PlanCompletes(s: Suite, v: ServerConfig, keys: Keys, hello: Bytes)
    ensures ProtectedPlan(s, v, keys, hello).outcome.Ok? <==> Presentable(s, v, hello)
  {
    hide Emit, Framed, CertificateBody, SignedPlan, SignedHash;
    var start := Outbox([], [], SendState(keys.serverKey, keys.serverIv, 0, 2), hello);
    EmitGoes(s, start, ENCRYPTED_EXTENSIONS, 1, Ok(EMPTY_EXTENSIONS));
    EmitTranscript(s, start, ENCRYPTED_EXTENSIONS, 1, EMPTY_EXTENSIONS);
    var ee := Emit(s, start, ENCRYPTED_EXTENSIONS, 1, Ok(EMPTY_EXTENSIONS)).box;
    var body := SerializeCertificate(v.certs, MAX_MSG);
    CertificateIsShort(v.certs);
    EmitGoes(s, ee, CERTIFICATE, 2, body);
    if body.Ok? {
      EmitTranscript(s, ee, CERTIFICATE, 2, body.value);
    }
    var cert := Emit(s, ee, CERTIFICATE, 2, body);
    if cert.Going? {
      SignedCompletes(s, v, keys, hello, cert.box);
    }
  }

  /** Any datagram is answered in full if and only if it is a whole ClientHello that parses, the
      secret shared with the key in it is not all zero, and the configuration is presentable over
      this hello and the server's own. */
  lemma AnsweredInFullIff(s: Suite, v: ServerConfig, d: Bytes)
    ensures ServerPlan(s, v, d).outcome.Ok? <==>
              && ReceivePlaintext(d).Ok?
              && var i := ReceivePlaintext(d).value;
              && HandshakeSafety.IsWhole(i.fragment, CLIENT_HELLO) && ParseClientHello(i.fragment.body).Ok?
              && !AllZero(s.dh(v.priv, ParseClientHello(i.fragment.body).value.key))
              && Presentable(s, v, i.message + ServerHelloMessage(s, v))
  {
    hide ReceivePlaintext, ParseClientHello, Plain, ProtectedPlan, AllZero, Presentable, ServerHelloMessage;
    if AcceptHello(d).Ok? {
      var hello := AcceptHello(d).value;
      var t := hello.message + ServerHelloMessage(s, v);
      PlanCompletes(s, v, s.Keys(s.dh(v.priv, hello.key), t), t);
    }
  }

  /** The server answers this client in full if and only if its configuration is presentable and
      the shared secret is not all zero. */
  lemma AnswerCompletes(s: Suite, c: ClientConfig, v: ServerConfig)
    ensures Answer(s, c, v).outcome.Ok?
       <==> !AllZero(Secret(s, c, v)) && Presentable(s, v, HelloTranscript(s, c, v))
  {
    hide AcceptHello, Plain, ProtectedPlan, AllZero, Presentable, ClientHelloMessage, ServerHelloMessage;
    HelloAccepted(s, c);
    PlanCompletes(s, v, SharedKeys(s, c, v), HelloTranscript(s, c, v));
  }

  /** The server answers in full, and the client accepts its chain and the signature over the
      transcript up to Certificate. */
  ghost predicate Acceptable(s: Suite, c: ClientConfig, v: ServerConfig) {
    && !AllZero(Secret(s, c, v)) && Presentable(s, v, HelloTranscript(s, c, v))
    && var hash := SignedHash(s, ToBeSigned(HelloTranscript(s, c, v), v.certs));
    && s.chain(v.certs).Ok? && s.verify(s.chain(v.certs).value, hash, v.sign(hash).value) == Ok(())
  }

  lemma AcceptableAnswers(s: Suite, c: ClientConfig, v: ServerConfig)
    requires Acceptable(s, c, v)
    ensures Answer(s, c, v).outcome.Ok?
  {
    hide Answer, AllZero, SignedHash, ToBeSigned, HelloTranscript, Secret, Presentable;
    AnswerCompletes(s, c, v);
  }

  /** What was signed is what the flight's first two messages make of the transcript. */
  lemma SignedTranscript(s: Suite, v: ServerConfig, keys: Keys, hello: Bytes, messages: seq<Bytes>)
    requires Bodies(s, v, keys, hello, messages)
    ensures |messages| == 4 && |CertificateBody(v.certs)| <= 0xFFFF
    ensures Upto(hello, messages, 2) == ToBeSigned(hello, v.certs)
  {
    hide Framed, CertificateBody, VerifyBody, Finished;
    var two := messages[..2];
    assert two[..1] == messages[..1] && two[1] == messages[1];
    assert Flatten(messages[..1]) == messages[0];
    assert Flatten(two) == messages[0] + messages[1];
  }

  // ----- each message is accepted in its turn

  /** The j-th record, opened by a client that waits for it. */
  lemma RecordTaken(s: Suite, c: ClientConfig, v: ServerConfig, n: Session, j: nat, messageSeq: uint16, body: Bytes)
    requires j < 4 && Follows(s, c, v, n, j) && Answer(s, c, v).outcome.Ok? && |Answer(s, c, v).datagrams| == 5
    requires j < |Answer(s, c, v).messages| && |body| <= 0xFFFF
    requires Answer(s, c, v).messages[j] == Framed(Kind(j), messageSeq, body)
    ensures var r := ReceiveProtected(s, n.read, Answer(s, c, v).datagrams[j + 1]);
            && r.Ok? && Expect(r.value.incoming.fragment, Kind(j)) == Ok(body)
  {
    hide Answer, SharedKeys, HelloTranscript, Framed, Sealed, Parse, Unprotect, AllZero, Expect, Snapshots, Upto;
    var d := Answer(s, c, v).datagrams[j + 1];
    var i := Which(s, c, v, d);
    AnswerShape(s, c, v);
    var a := Answer(s, c, v);
    assert InOrder(s, SharedKeys(s, c, v), a.datagrams[1..], a.messages, j);
    SealedOpens(s, SharedKeys(s, c, v), if j == 0 then 0 else j - 1, j, a.messages[j]);
    FramedParses(Kind(j), messageSeq, body);
  }

  lemma ExtensionsTaken(s: Suite, c: ClientConfig, v: ServerConfig, n: Session)
    requires Follows(s, c, v, n, 0) && Answer(s, c, v).outcome.Ok?
    ensures |Answer(s, c, v).datagrams| == 5 && TakeExtensions(s, n, Answer(s, c, v).datagrams[1]).Ok?
  {
    hide Answer, Follows, ReceiveProtected, Framed, Bodies, AllZero, Expect, SharedKeys, HelloTranscript, Secret,
         ParseEncryptedExtensions;
    AnswerBodies(s, c, v);
    PublicBodies(s, v, SharedKeys(s, c, v), HelloTranscript(s, c, v), Answer(s, c, v).messages);
    RecordTaken(s, c, v, n, 0, 1, EMPTY_EXTENSIONS);
    EmptyParses();
  }

  lemma EmptyParses()
    ensures ParseEncryptedExtensions(EMPTY_EXTENSIONS) == Ok(())
  {
    assert Codec.Vector(2, []) + [] == EMPTY_EXTENSIONS;
    Codec.TakeVectorFirst(2, [], [], Truncated, BadLength);
  }

  lemma CertificateTaken(s: Suite, c: ClientConfig, v: ServerConfig, n: Session)
    requires Follows(s, c, v, n, 1) && Answer(s, c, v).outcome.Ok? && s.chain(v.certs).Ok?
    ensures |Answer(s, c, v).datagrams| == 5
    ensures var r := TakeCertificate(s, n, Answer(s, c, v).datagrams[2]);
            r.Ok? && r.value.leaf == s.chain(v.certs).value
  {
    hide Answer, Follows, ReceiveProtected, Framed, CertificateBody, Bodies, AllZero, Expect, ParseCertificate,
         SharedKeys, HelloTranscript, Secret;
    AnswerBodies(s, c, v);
    PublicBodies(s, v, SharedKeys(s, c, v), HelloTranscript(s, c, v), Answer(s, c, v).messages);
    RecordTaken(s, c, v, n, 1, 2, CertificateBody(v.certs));
    ShortListParses(v.certs);
  }

  lemma ShortListParses(certs: seq<Bytes>)
    requires 1 <= |certs| <= MAX_CERTS && |CertificateBody(certs)| <= MAX_MSG
    ensures ParseCertificate(CertificateBody(certs)) == Ok(certs)
  {
    hide Entries, ParseCertificate;
    CertificateRoundTrip(certs);
  }

  lemma VerifyTaken(s: Suite, c: ClientConfig, v: ServerConfig, n: Session, leaf: Leaf)
    requires Follows(s, c, v, n, 2) && Answer(s, c, v).outcome.Ok?
    requires Acceptable(s, c, v) && leaf == s.chain(v.certs).value
    ensures |Answer(s, c, v).datagrams| == 5 && TakeVerify(s, n, leaf, Answer(s, c, v).datagrams[3]).Ok?
  {
    hide Answer, ReceiveProtected, Framed, CertificateBody, AllZero, Expect, ParseCertificateVerify, SignedHash,
         Snapshots, Upto, CheckVerify, VerifyBody;
    AnswerBodies(s, c, v);
    SignedTranscript(s, v, SharedKeys(s, c, v), HelloTranscript(s, c, v), Answer(s, c, v).messages);
    VerifyLength(s, v, n.transcript);
    RecordTaken(s, c, v, n, 2, 3, VerifyBody(s, v, n.transcript).value);
    SignatureChecks(s, v, leaf, n.transcript);
  }

  lemma VerifyLength(s: Suite, v: ServerConfig, transcript: Bytes)
    ensures VerifyBody(s, v, transcript).Ok? ==> |VerifyBody(s, v, transcript).value| <= 0xFFFF
  {
  }

  /** The signature the server writes is the one the client checks. */
  lemma SignatureChecks(s: Suite, v: ServerConfig, leaf: Leaf, transcript: Bytes)
    requires VerifyBody(s, v, transcript).Ok?
    ensures var signature := v.sign(SignedHash(s, transcript));
            && signature.Ok?
            && ParseCertificateVerify(VerifyBody(s, v, transcript).value).Ok?
            && CheckVerify(s, ParseCertificateVerify(VerifyBody(s, v, transcript).value).value, leaf, transcript)
               == s.verify(leaf, SignedHash(s, transcript), signature.value)
  {
    hide SignedHash, ParseCertificateVerify, CertificateVerifyBody, Asn1.WriteSig, Asn1.ReadSig;
    var signature := v.sign(SignedHash(s, transcript)).value;
    var der := Asn1.WriteSig(signature.r, signature.s, 80).value;
    Asn1.SigRoundTrip(signature.r, signature.s, 80);
    DerIsShort(signature.r, signature.s, der);
    CertificateVerifyRoundTrip(der);
    assert Asn1.Signature(signature.r, signature.s) == signature;
  }

  lemma DerIsShort(r: Bytes, t: Bytes, der: Bytes)
    requires |r| == 32 && |t| == 32 && Asn1.WriteSig(r, t, 80) == Ok(der)
    ensures |der| <= 80
  {
  }

  lemma FinishedTaken(s: Suite, c: ClientConfig, v: ServerConfig, n: Session)
    requires Follows(s, c, v, n, 3) && Answer(s, c, v).outcome.Ok?
    ensures |Answer(s, c, v).datagrams| == 5 && TakeFinished(s, n, Answer(s, c, v).datagrams[4]).Ok?
  {
    hide Answer, ReceiveProtected, Framed, CertificateBody, AllZero, Expect, VerifyBody, Snapshots, Upto, Finished;
    AnswerBodies(s, c, v);
    RecordTaken(s, c, v, n, 3, 4, Finished(s.mac, n.keys.serverSecret, s.Hash(n.transcript)));
  }

  // ----- the whole run

  /** The phase of a client that has heard exactly the first k datagrams. */
  ghost predicate HasHeard(s: Suite, v: ServerConfig, p: ClientPhase, k: nat) {
    match k
    case 0 => p.AwaitServerHello?
    case 1 => p.AwaitExtensions?
    case 2 => p.AwaitCertificate?
    case 3 => p.AwaitVerify? && Ok(p.leaf) == s.chain(v.certs)
    case 4 => p.AwaitFinished?
    case _ => p.Reply?
  }

  lemma Hears(s: Suite, c: ClientConfig, v: ServerConfig, p: ClientPhase, k: nat)
    requires Commutes(s, c, v) && ClientInv(s, c, v, p) && HasHeard(s, v, p, k) && k < 5
    requires Answer(s, c, v).outcome.Ok? && Acceptable(s, c, v)
    ensures ClientListens(p) && |Answer(s, c, v).datagrams| == 5
    ensures HasHeard(s, v, ClientTakes(s, c, p, Answer(s, c, v).datagrams[k]), k + 1)
  {
    hide Answer, Follows, TakeExtensions, TakeCertificate, TakeVerify, TakeFinished, AllZero, ClientSession,
         ReceivePlaintext, Bodies, Shaped, Presentable, SignedHash, ToBeSigned, SharedKeys, HelloTranscript, Secret;
    AnswerBodies(s, c, v);
    if k == 0 {
      AnswerShape(s, c, v);
      ServerHelloTaken(s, c, v);
    } else if k == 1 {
      ExtensionsTaken(s, c, v, p.session);
    } else if k == 2 {
      CertificateTaken(s, c, v, p.session);
    } else if k == 3 {
      VerifyTaken(s, c, v, p.session, p.leaf);
    } else {
      FinishedTaken(s, c, v, p.session);
    }
  }

  /** The client has heard the first k datagrams and the server has sent no more than them; these
      are still on their way to the server. */
  ghost predicate Exchanged(s: Suite, c: ClientConfig, v: ServerConfig, a: System, k: nat, pending: multiset<Bytes>)
    requires k <= |Answer(s, c, v).datagrams|
  {
    && HasHeard(s, v, a.client, k) && a.toServer == pending && a.toClient == multiset{}
    && a.server == Launch(Answer(s, c, v).datagrams[k..], Answer(s, c, v).outcome)
  }

  lemma FirstExchange(s: Suite, c: ClientConfig, v: ServerConfig) returns (steps: seq<Step>)
    requires ServerStart(v) == AwaitClientHello
    ensures Run(s, c, v, steps).Some? && Exchanged(s, c, v, Run(s, c, v, steps).value, 0, multiset{})
    ensures Run(s, c, v, steps).value.repeats == 0
  {
    hide HelloDatagram, Run, ServerPlan, ClientOutput;
    var h, plan := HelloDatagram(s, c), Answer(s, c, v);
    steps := [];
    NoSteps(s, c, v, h);
    HelloOutput(s, c, 0);
    steps := Then(s, c, v, steps, ClientSends(Ok(())));
    assert multiset{} + multiset{h} - multiset{h} == multiset{};
    steps := Then(s, c, v, steps, ServerHears(h));
    assert plan.datagrams[0..] == plan.datagrams;
  }

  /** From any first exchange the server can send and the client hear the rest, k datagrams in all. */
  lemma {:induction false} Exchange(s: Suite, c: ClientConfig, v: ServerConfig, k: nat, before: seq<Step>,
                                    pending: multiset<Bytes>)
    returns (steps: seq<Step>)
    requires Commutes(s, c, v) && k <= 5 && Answer(s, c, v).outcome.Ok? && Acceptable(s, c, v)
    requires Run(s, c, v, before).Some? && Exchanged(s, c, v, Run(s, c, v, before).value, 0, pending)
    ensures |Answer(s, c, v).datagrams| == 5
    ensures Run(s, c, v, steps).Some? && Exchanged(s, c, v, Run(s, c, v, steps).value, k, pending)
    ensures Run(s, c, v, steps).value.repeats == Run(s, c, v, before).value.repeats
    decreases k
  {
    hide Answer, Run, Acceptable, Exchanged, Bodies, AllZero;
    AnswerBodies(s, c, v);
    if k == 0 {
      steps := before;
    } else {
      steps := Exchange(s, c, v, k - 1, before, pending);
      Reachable(s, c, v, steps);
      steps := OneExchange(s, c, v, k - 1, steps, pending);
    }
  }

  /** The server sends its next datagram and the client hears it. */
  lemma OneExchange(s: Suite, c: ClientConfig, v: ServerConfig, k: nat, before: seq<Step>, pending: multiset<Bytes>)
    returns (steps: seq<Step>)
    requires Commutes(s, c, v) && k < 5 && |Answer(s, c, v).datagrams| == 5
    requires Answer(s, c, v).outcome.Ok? && Acceptable(s, c, v)
    requires Run(s, c, v, before).Some? && Inv(s, c, v, Run(s, c, v, before).value)
    requires Exchanged(s, c, v, Run(s, c, v, before).value, k, pending)
    ensures Run(s, c, v, steps).Some? && Exchanged(s, c, v, Run(s, c, v, steps).value, k + 1, pending)
    ensures Run(s, c, v, steps).value.repeats == Run(s, c, v, before).value.repeats
  {
    hide Answer, Run, Acceptable, HasHeard, ClientTakes, ClientInv, ServerInv, NetInv;
    var plan, a := Answer(s, c, v), Run(s, c, v, before).value;
    var d := plan.datagrams[k];
    assert plan.datagrams[k..][0] == d && plan.datagrams[k..][1..] == plan.datagrams[k + 1..];
    Hears(s, c, v, a.client, k);
    steps := Then(s, c, v, before, ServerSends(Ok(())));
    assert multiset{} + multiset{d} - multiset{d} == multiset{};
    steps := Then(s, c, v, steps, ClientHears(d));
  }

  /** The client that has heard everything sends its Finished and is done. */
  lemma Replies(s: Suite, c: ClientConfig, v: ServerConfig, before: seq<Step>, pending: multiset<Bytes>)
    returns (steps: seq<Step>, d: Bytes)
    requires |Answer(s, c, v).datagrams| == 5 && Answer(s, c, v).outcome.Ok?
    requires Run(s, c, v, before).Some? && Inv(s, c, v, Run(s, c, v, before).value)
    requires Exchanged(s, c, v, Run(s, c, v, before).value, 5, pending)
    ensures Run(s, c, v, steps).Some?
    ensures var a := Run(s, c, v, steps).value;
            && a.client.ClientDone? && Follows(s, c, v, a.client.session, 4)
            && d == ClientFinishedRecord(s, a.client.session) && a.toServer == pending + multiset{d}
            && a.server == AwaitClientFinished(Answer(s, c, v).outcome.value, 0)
            && a.repeats == Run(s, c, v, before).value.repeats
  {
    hide Answer, Run, Follows, ClientFinishedRecord, NetInv, ServerInv;
    d := ClientFinishedRecord(s, Run(s, c, v, before).value.client.session);
    steps := Then(s, c, v, before, ClientSends(Ok(())));
  }

  /** An undisturbed run exists that ends with both sides done. */
  lemma Completes(s: Suite, c: ClientConfig, v: ServerConfig) returns (steps: seq<Step>)
    requires Commutes(s, c, v) && Acceptable(s, c, v)
    ensures Run(s, c, v, steps).Some?
    ensures var a := Run(s, c, v, steps).value; a.client.ClientDone? && a.server.ServerDone? && a.repeats == 0
  {
    hide Answer, Run, Acceptable, Bodies, AllZero, Inv, Exchanged, SharedKeys, HelloTranscript, Secret, Follows,
         ServerTakes, ClientFinishedRecord;
    AcceptableAnswers(s, c, v);
    AnswerBodies(s, c, v);
    BodiesLength(s, v, SharedKeys(s, c, v), HelloTranscript(s, c, v), Answer(s, c, v).messages);
    steps := FirstExchange(s, c, v);
    steps := Exchange(s, c, v, 5, steps, multiset{});
    Reachable(s, c, v, steps);
    var d;
    steps, d := Replies(s, c, v, steps, multiset{});
    var a := Run(s, c, v, steps).value;
    FinishedAccepted(s, c, v, a.client.session, a.server.session, 0);
    steps := Then(s, c, v, steps, ServerHears(d));
  }

  // ----- four repeats are enough to miss a Finished

  lemma OneLess(h: Bytes, d: Bytes, k: nat)
    requires h != d && k > 0
    ensures h in Copies(h, k) + multiset{d}
    ensures Copies(h, k) + multiset{d} - multiset{h} == Copies(h, k - 1) + multiset{d}
  {
  }

  /** The client gave up on five answers, four of its hellos were repeated, and the server takes the
      first of the nine. */
  lemma Flooded(s: Suite, c: ClientConfig, v: ServerConfig) returns (steps: seq<Step>)
    requires ServerStart(v) == AwaitClientHello
    ensures Run(s, c, v, steps).Some? && Run(s, c, v, steps).value.repeats == 4
    ensures Exchanged(s, c, v, Run(s, c, v, steps).value, 0, Copies(HelloDatagram(s, c), 8))
  {
    hide HelloDatagram, ServerPlan, Run, Copies;
    var h, plan := HelloDatagram(s, c), Answer(s, c, v);
    steps := Repeats(s, c, v, 4);
    OneMore(h, 8);
    steps := Then(s, c, v, steps, ServerHears(h));
    assert plan.datagrams[0..] == plan.datagrams;
  }

  /** The client is done and its Finished d is on its way, behind eight stale hellos of which the
      server has skipped k. */
  lemma {:induction false} Skipping(s: Suite, c: ClientConfig, v: ServerConfig, before: seq<Step>, d: Bytes, k: nat)
    returns (steps: seq<Step>)
    requires k < 8 && Run(s, c, v, before).Some? && Answer(s, c, v).outcome.Ok? && d != HelloDatagram(s, c)
    requires var a := Run(s, c, v, before).value;
             && a.toServer == Copies(HelloDatagram(s, c), 8) + multiset{d}
             && a.server == AwaitClientFinished(Answer(s, c, v).outcome.value, 0)
    ensures Run(s, c, v, steps).Some?
    ensures var a, b := Run(s, c, v, before).value, Run(s, c, v, steps).value;
            && b.client == a.client && b.repeats == a.repeats
            && b.toServer == Copies(HelloDatagram(s, c), 8 - k) + multiset{d}
            && b.server == AwaitClientFinished(Answer(s, c, v).outcome.value, k)
    decreases k
  {
    hide HelloDatagram, ServerPlan, ServerTakes, Run, Copies;
    if k == 0 {
      steps := before;
    } else {
      steps := Skipping(s, c, v, before, d, k - 1);
      OneLess(HelloDatagram(s, c), d, 9 - k);
      StaleSkipped(s, c, v, Answer(s, c, v).outcome.value, k - 1);
      steps := Then(s, c, v, steps, ServerHears(HelloDatagram(s, c)));
    }
  }

  /** The bound on repeats is sharp: with four of them there is a run in which the client is done
      and its Finished is on its way, but stale hellos have used up the server's wait. */
  lemma FourRepeatsExhaust(s: Suite, c: ClientConfig, v: ServerConfig) returns (steps: seq<Step>)
    requires Commutes(s, c, v) && Acceptable(s, c, v)
    ensures Run(s, c, v, steps).Some?
    ensures var a := Run(s, c, v, steps).value;
            && a.repeats == 4 && a.server == ServerFailed(NotUnified)
            && a.client.ClientDone? && ClientFinishedRecord(s, a.client.session) in a.toServer
  {
    hide Answer, Run, Acceptable, Bodies, AllZero, Inv, Exchanged, SharedKeys, HelloTranscript, Secret, Follows,
         ServerTakes, ClientFinishedRecord, HelloDatagram, Copies;
    AcceptableAnswers(s, c, v);
    AnswerBodies(s, c, v);
    BodiesLength(s, v, SharedKeys(s, c, v), HelloTranscript(s, c, v), Answer(s, c, v).messages);
    var h := HelloDatagram(s, c);
    steps := Flooded(s, c, v);
    steps := Exchange(s, c, v, 5, steps, Copies(h, 8));
    Reachable(s, c, v, steps);
    var d;
    steps, d := Replies(s, c, v, steps, Copies(h, 8));
    NotAHello(s, c, Run(s, c, v, steps).value.client.session);
    steps := Skipping(s, c, v, steps, d, 7);
    OneLess(h, d, 1);
    StaleSkipped(s, c, v, Answer(s, c, v).outcome.value, 7);
    steps := Then(s, c, v, steps, ServerHears(h));
  }
}
