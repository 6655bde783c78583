/** The two ends of the handshake as machines that react to the outcome of each send and each
    receive: src/handshake/client.c and src/handshake/server.c. */
module Handshake {
  import opened Machine
  import opened Record
  import opened HandshakeHeader
  import opened RecordProtect
  import opened KeySchedule
  import opened Hello
  import opened Messages
  import Asn1
  import ChaCha20
  import Hkdf
  import Sha256

  const CT_HANDSHAKE: uint8 := 22
  const MAX_MSG: nat := 4096
  const MAX_HELLO_ATTEMPTS: nat := 5
  const MAX_FINISHED_RECEIVES: nat := 8

  const CLIENT_HELLO: uint8 := 1
  const SERVER_HELLO: uint8 := 2
  const ENCRYPTED_EXTENSIONS: uint8 := 8
  const CERTIFICATE: uint8 := 11
  const CERTIFICATE_VERIFY: uint8 := 15
  const FINISHED: uint8 := 20

  function ServerContext(): Bytes {
    Ascii("TLS 1.3, server CertificateVerify")
  }

  /** The public key of a verified leaf certificate. */
  datatype Leaf = Leaf(qx: Bytes, qy: Bytes)

  /** What the handshake takes from the rest of the library. chain stands for parsing the
      certificates and verifying them against the trust anchor at the caller's time. */
  datatype Suite = Suite(
    block: ChaCha20.BlockFunction,
    compress: Sha256.Compression,
    mac: Hkdf.Mac,
    base: Bytes -> Bytes32,
    dh: (Bytes, Bytes) -> Bytes32,
    chain: seq<Bytes> -> Result<Leaf>,
    verify: (Leaf, Bytes, Asn1.Signature) -> Result<()>)
  {
    function Hash(msg: Bytes): (h: Bytes)
      ensures |h| == 32
    {
      Sha256.Digest(compress, msg)
    }

    function Keys(secret: Bytes, hello: Bytes): Keys {
      DeriveKeys(mac, Hash([]), secret, Hash(hello))
    }
  }

  /** Randomness is drawn before the run. */
  datatype ClientConfig = ClientConfig(random: Bytes32, priv: Bytes32)

  type Signer = f: Bytes -> Result<Asn1.Signature>
    | forall h :: f(h).Ok? ==> |f(h).value.r| == 32 && |f(h).value.s| == 32
    witness h => Err(Unsupported)

  datatype ServerConfig = ServerConfig(random: Bytes32, priv: Bytes32, certs: seq<Bytes>, sign: Signer)

  // ----- messages on the wire

  function Wrap(kind: uint8, messageSeq: uint16, body: Bytes, cap: nat): Result<Bytes>
    requires |body| <= 0xFFFF
  {
    Serialize(Whole(kind, messageSeq, body), body, cap)
  }

  function Framed(kind: uint8, messageSeq: uint16, body: Bytes): (b: Bytes)
    requires |body| <= 0xFFFF
    ensures |b| == 12 + |body|
  {
    Encode(Whole(kind, messageSeq, body), body)
  }

  /** An epoch-0 record with sequence number 0. */
  function Plain(message: Bytes): Bytes {
    EncodePlaintext(PlaintextHeader(CT_HANDSHAKE, 0xFEFD, 0, 0), message)
  }

  function ClientHelloMessage(s: Suite, c: ClientConfig): Bytes {
    ClientHelloLen(c.random, s.base(c.priv));
    Framed(CLIENT_HELLO, 0, ClientHelloBody(c.random, s.base(c.priv)))
  }

  function ServerHelloMessage(s: Suite, v: ServerConfig): Bytes {
    ServerHelloLen(v.random, s.base(v.priv));
    Framed(SERVER_HELLO, 0, ServerHelloBody(v.random, s.base(v.priv)))
  }

  lemma ClientHelloLen(random: Bytes32, key: Bytes32)
    ensures |ClientHelloBody(random, key)| == 113
  {
    ClientExtensionsLen(key);
  }

  lemma ServerHelloLen(random: Bytes32, key: Bytes32)
    ensures |ServerHelloBody(random, key)| == 86
  {
    ServerExtensionsLen(key);
  }

  /** The client never fails to build its first flight. */
  lemma ClientHelloFits(s: Suite, c: ClientConfig)
    ensures var body := ClientHelloBody(c.random, s.base(c.priv));
            && |body| <= 0xFFFF && Fit(body, 512) == Ok(body)
            && Wrap(CLIENT_HELLO, 0, body, 524) == Ok(ClientHelloMessage(s, c))
            && SerializePlaintext(PlaintextHeader(CT_HANDSHAKE, 0xFEFD, 0, 0), ClientHelloMessage(s, c), MAX_MSG)
               == Ok(Plain(ClientHelloMessage(s, c)))
  {
    hide ClientHelloBody, Encode, EncodePlaintext;
    ClientHelloLen(c.random, s.base(c.priv));
  }

  datatype Incoming = Incoming(fragment: Fragment, message: Bytes)

  function ReceivePlaintext(datagram: Bytes): Result<Incoming> {
    var rec :- ParsePlaintext(datagram);
    if rec.hdr.contentType != CT_HANDSHAKE then Err(Unsupported)
    else
      var fragment :- Parse(rec.fragment);
      Ok(Incoming(fragment, rec.fragment))
  }

  datatype Secured = Secured(incoming: Incoming, read: ReadState)

  function ReceiveProtected(s: Suite, u: ReadState, datagram: Bytes): Result<Secured> {
    var record :- Unprotect(s.block, u, datagram, MAX_MSG);
    if record.contentType != CT_HANDSHAKE then Err(Unsupported)
    else
      var fragment :- Parse(record.text);
      Ok(Secured(Incoming(fragment, record.text), record.state))
  }

  /** The body of a message of the expected kind that came in one piece. */
  function Expect(fragment: Fragment, kind: uint8): Result<Bytes> {
    var h := fragment.hdr;
    if h.msgType != kind then Err(Unsupported)
    else if h.fragmentOffset != 0 || h.fragmentLength != h.length then Err(Unsupported)
    else Ok(fragment.body)
  }

  predicate AllZero(b: Bytes) {
    forall i :: 0 <= i < |b| ==> b[i] == 0
  }

  method IsZero(secret: Bytes) returns (allZero: bool)
    requires |secret| == 32
    ensures allZero == AllZero(secret)
  {
    allZero := true;
    for k := 0 to 32
      invariant allZero <==> forall l :: 0 <= l < k ==> secret[l] == 0
    {
      if secret[k] != 0 {
        allZero := false;
      }
    }
  }

  /** Keys, the transcript so far, the transcripts hashed so far, and the read side. */
  datatype Session = Session(keys: Keys, transcript: Bytes, snapshots: seq<Bytes>, read: ReadState) {
    function Add(message: Bytes): Session {
      this.(transcript := transcript + message)
    }

    function Snapshot(): Session {
      this.(snapshots := snapshots + [transcript])
    }
  }

  // ----- the client

  datatype ClientPhase =
    | Hello(attempt: nat)
    | AwaitServerHello(attempt: nat)
    | AwaitExtensions(session: Session)
    | AwaitCertificate(session: Session)
    | AwaitVerify(session: Session, leaf: Leaf)
    | AwaitFinished(session: Session, leaf: Leaf)
    | Reply(session: Session, leaf: Leaf)
    | ClientDone(session: Session, leaf: Leaf)
    | ClientFailed(status: Status)

  /** The keys after ServerHello, from the client's private key and the server's share. */
  function ClientSession(s: Suite, c: ClientConfig, i: Incoming): Result<Session> {
    var body :- Expect(i.fragment, SERVER_HELLO);
    var transcript := ClientHelloMessage(s, c) + i.message;
    var hello :- ParseServerHello(body);
    if hello.suite != CHACHA20_POLY1305_SHA256 then Err(Unsupported)
    else
      var secret := s.dh(c.priv, hello.key);
      if AllZero(secret) then Err(AuthFailed)
      else
        var keys := s.Keys(secret, transcript);
        Ok(Session(keys, transcript, [transcript], ReadState(keys.serverKey, keys.serverIv, 0, 2)))
  }

  function Retry(attempt: nat, e: Status): ClientPhase {
    if attempt + 1 < MAX_HELLO_ATTEMPTS then Hello(attempt + 1) else ClientFailed(e)
  }

  function TakeExtensions(s: Suite, n: Session, datagram: Bytes): Result<Session> {
    var m :- ReceiveProtected(s, n.read, datagram);
    var body :- Expect(m.incoming.fragment, ENCRYPTED_EXTENSIONS);
    var _ :- ParseEncryptedExtensions(body);
    Ok(n.(read := m.read).Add(m.incoming.message))
  }

  datatype Verified = Verified(session: Session, leaf: Leaf)

  function TakeCertificate(s: Suite, n: Session, datagram: Bytes): Result<Verified> {
    var m :- ReceiveProtected(s, n.read, datagram);
    var body :- Expect(m.incoming.fragment, CERTIFICATE);
    var certs :- ParseCertificate(body);
    var leaf :- s.chain(certs);
    Ok(Verified(n.(read := m.read).Add(m.incoming.message).Snapshot(), leaf))
  }

  /** What the signature in CertificateVerify is over. */
  function SignedHash(s: Suite, transcript: Bytes): Bytes {
    s.Hash(CertificateVerifyContent(ServerContext(), s.Hash(transcript)))
  }

  function CheckVerify(s: Suite, cv: CertificateVerify, leaf: Leaf, transcript: Bytes): Result<()> {
    if cv.algorithm != ECDSA_SECP256R1_SHA256 then Err(Unsupported)
    else
      var signature :- Asn1.ReadSig(cv.signature);
      s.verify(leaf, SignedHash(s, transcript), signature)
  }

  function TakeVerify(s: Suite, n: Session, leaf: Leaf, datagram: Bytes): Result<Session> {
    var m :- ReceiveProtected(s, n.read, datagram);
    var body :- Expect(m.incoming.fragment, CERTIFICATE_VERIFY);
    var cv :- ParseCertificateVerify(body);
    var _ :- CheckVerify(s, cv, leaf, n.transcript);
    Ok(n.(read := m.read).Add(m.incoming.message).Snapshot())
  }

  function CheckFinished(s: Suite, baseKey: Bytes, transcript: Bytes, body: Bytes): Result<()> {
    if |body| != 32 then Err(BadLength)
    else if body != Finished(s.mac, baseKey, s.Hash(transcript)) then Err(AuthFailed)
    else Ok(())
  }

  function TakeFinished(s: Suite, n: Session, datagram: Bytes): Result<Session> {
    var m :- ReceiveProtected(s, n.read, datagram);
    var body :- Expect(m.incoming.fragment, FINISHED);
    var _ :- CheckFinished(s, n.keys.serverSecret, n.transcript, body);
    Ok(n.(read := m.read).Add(m.incoming.message).Snapshot())
  }

  /** The client's own Finished, its second message. */
  function ClientFinishedMessage(s: Suite, n: Session): (b: Bytes)
    ensures |b| == 44
  {
    Framed(FINISHED, 1, Finished(s.mac, n.keys.clientSecret, s.Hash(n.transcript)))
  }

  function ClientFinishedRecord(s: Suite, n: Session): Bytes {
    RecordOf(s.block, SendState(n.keys.clientKey, n.keys.clientIv, 0, 2), CT_HANDSHAKE, ClientFinishedMessage(s, n))
  }

  /** What the client hands to the socket when it is about to send. */
  function ClientOutput(s: Suite, c: ClientConfig, p: ClientPhase): Bytes
    requires p.Hello? || p.Reply?
  {
    if p.Hello? then Plain(ClientHelloMessage(s, c)) else ClientFinishedRecord(s, p.session)
  }

  function ClientSent(p: ClientPhase, r: Result<()>): ClientPhase
    requires p.Hello? || p.Reply?
  {
    match p
    case Hello(attempt) => if r.Ok? then AwaitServerHello(attempt) else Retry(attempt, r.status)
    case Reply(n, leaf) => if r.Ok? then ClientDone(n, leaf) else ClientFailed(r.status)
  }

  predicate ClientListens(p: ClientPhase) {
    p.AwaitServerHello? || p.AwaitExtensions? || p.AwaitCertificate? || p.AwaitVerify? || p.AwaitFinished?
  }

  function ClientTakes(s: Suite, c: ClientConfig, p: ClientPhase, datagram: Bytes): ClientPhase
    requires ClientListens(p)
  {
    match p
    case AwaitServerHello(attempt) =>
      (match ReceivePlaintext(datagram)
       case Err(e) => Retry(attempt, e)
       case Ok(i) =>
         match ClientSession(s, c, i)
         case Err(e) => ClientFailed(e)
         case Ok(n) => AwaitExtensions(n))
    case AwaitExtensions(n) =>
      (match TakeExtensions(s, n, datagram)
       case Err(e) => ClientFailed(e)
       case Ok(m) => AwaitCertificate(m))
    case AwaitCertificate(n) =>
      (match TakeCertificate(s, n, datagram)
       case Err(e) => ClientFailed(e)
       case Ok(v) => AwaitVerify(v.session, v.leaf))
    case AwaitVerify(n, leaf) =>
      (match TakeVerify(s, n, leaf, datagram)
       case Err(e) => ClientFailed(e)
       case Ok(m) => AwaitFinished(m, leaf))
    case AwaitFinished(n, leaf) =>
      (match TakeFinished(s, n, datagram)
       case Err(e) => ClientFailed(e)
       case Ok(m) => Reply(m, leaf))
  }

  /** A failed receive is retried only while the client still waits for its first answer. */
  function ClientReceived(s: Suite, c: ClientConfig, p: ClientPhase, r: Result<Bytes>): ClientPhase
    requires ClientListens(p)
  {
    match r
    case Ok(datagram) => ClientTakes(s, c, p, datagram)
    case Err(e) => if p.AwaitServerHello? then Retry(p.attempt, e) else ClientFailed(e)
  }

  // ----- the server

  datatype ServerPhase =
    | AwaitClientHello
    | Flight(rest: seq<Bytes>, outcome: Result<Session>)
    | AwaitClientFinished(session: Session, received: nat)
    | ServerDone(session: Session)
    | ServerFailed(status: Status)

  /** A server without certificates, or with too many, never starts. */
  function ServerStart(v: ServerConfig): ServerPhase {
    if 1 <= |v.certs| <= MAX_CERTS then AwaitClientHello else ServerFailed(BadArg)
  }

  /** Sending and the transcript move together. */
  datatype Outbox = Outbox(out: seq<Bytes>, messages: seq<Bytes>, write: SendState, transcript: Bytes)

  function SendProtected(s: Suite, x: Outbox, kind: uint8, messageSeq: uint16, body: Bytes): Result<Outbox>
    requires |body| <= 0xFFFF
  {
    var message :- Wrap(kind, messageSeq, body, MAX_MSG);
    var sent :- Protect(s.block, x.write, CT_HANDSHAKE, message, MAX_MSG);
    Ok(Outbox(x.out + [sent.record], x.messages + [message], sent.state, x.transcript + message))
  }

  /** What is sent, the protected messages inside it, and what comes after. */
  datatype Plan = Plan(datagrams: seq<Bytes>, messages: seq<Bytes>, outcome: Result<Session>)

  /** A flight under way, or what was sent of it before building the next message failed. */
  datatype Stage = Going(box: Outbox) | Stopped(box: Outbox, status: Status) {
    predicate IsFailure() {
      Stopped?
    }

    function PropagateFailure(): Plan
      requires Stopped?
    {
      Plan(box.out, box.messages, Err(status))
    }

    function Extract(): Outbox
      requires Going?
    {
      box
    }
  }

  function Emit(s: Suite, x: Outbox, kind: uint8, messageSeq: uint16, body: Result<Bytes>): Stage
    requires body.Ok? ==> |body.value| <= 0xFFFF
  {
    match body
    case Err(e) => Stopped(x, e)
    case Ok(b) =>
      match SendProtected(s, x, kind, messageSeq, b)
      case Err(e) => Stopped(x, e)
      case Ok(y) => Going(y)
  }

  /** A DER signature over the transcript, in the 80 bytes the server reserves for it. */
  function VerifyBody(s: Suite, v: ServerConfig, transcript: Bytes): (r: Result<Bytes>)
    ensures r.Ok? ==> |r.value| <= 84
  {
    var signature :- v.sign(SignedHash(s, transcript));
    var der :- Asn1.WriteSig(signature.r, signature.s, 80);
    Ok(CertificateVerifyBody(der))
  }

  /** The four protected messages, and the session if all of them were built. */
  function ProtectedPlan(s: Suite, v: ServerConfig, keys: Keys, hello: Bytes): Plan {
    var ee :- Emit(s, Outbox([], [], SendState(keys.serverKey, keys.serverIv, 0, 2), hello),
                   ENCRYPTED_EXTENSIONS, 1, Ok(EMPTY_EXTENSIONS));
    var cert :- Emit(s, ee, CERTIFICATE, 2, SerializeCertificate(v.certs, MAX_MSG));
    SignedPlan(s, v, keys, hello, cert)
  }

  /** The two messages that depend on the transcript. */
  function SignedPlan(s: Suite, v: ServerConfig, keys: Keys, hello: Bytes, cert: Outbox): Plan {
    var cv :- Emit(s, cert, CERTIFICATE_VERIFY, 3, VerifyBody(s, v, cert.transcript));
    var fin :- Emit(s, cv, FINISHED, 4, Ok(Finished(s.mac, keys.serverSecret, s.Hash(cv.transcript))));
    Plan(fin.out, fin.messages,
         Ok(Session(keys, fin.transcript, [hello, cert.transcript, cv.transcript, fin.transcript],
                    ReadState(keys.clientKey, keys.clientIv, 0, 2))))
  }

  /** Everything the server does in answer to a datagram that should be a ClientHello: the
      datagrams it sends in order, and how it goes on after the last of them. */
  function ServerPlan(s: Suite, v: ServerConfig, datagram: Bytes): Plan {
    match AcceptHello(datagram)
    case Err(e) => Plan([], [], Err(e))
    case Ok(hello) => AnswerTo(s, v, hello)
  }

  /** The server's hello goes out before the shared secret is looked at. */
  function AnswerTo(s: Suite, v: ServerConfig, hello: Accepted): Plan {
    var transcript := hello.message + ServerHelloMessage(s, v);
    var first := Plain(ServerHelloMessage(s, v));
    var secret := s.dh(v.priv, hello.key);
    if AllZero(secret) then Plan([first], [], Err(AuthFailed))
    else
      var rest := ProtectedPlan(s, v, s.Keys(secret, transcript), transcript);
      Plan([first] + rest.datagrams, rest.messages, rest.outcome)
  }

  datatype Accepted = Accepted(message: Bytes, key: Bytes)

  function AcceptHello(datagram: Bytes): Result<Accepted> {
    var i :- ReceivePlaintext(datagram);
    var body :- Expect(i.fragment, CLIENT_HELLO);
    var hello :- ParseClientHello(body);
    Ok(Accepted(i.message, hello.key))
  }

  /** The next thing the server does with a flight: send, or go on to its outcome. */
  function Launch(rest: seq<Bytes>, outcome: Result<Session>): ServerPhase {
    if |rest| > 0 then Flight(rest, outcome)
    else match outcome
         case Ok(n) => AwaitClientFinished(n, 0)
         case Err(e) => ServerFailed(e)
  }

  function ServerSent(p: ServerPhase, r: Result<()>): ServerPhase
    requires p.Flight? && |p.rest| > 0
  {
    if r.Ok? then Launch(p.rest[1..], p.outcome) else ServerFailed(r.status)
  }

  function TakeClientFinished(s: Suite, n: Session, record: Opened): Result<()> {
    if record.contentType != CT_HANDSHAKE then Err(Unsupported)
    else
      var fragment :- Parse(record.text);
      var body :- Expect(fragment, FINISHED);
      CheckFinished(s, n.keys.clientSecret, n.transcript, body)
  }

  predicate ServerListens(p: ServerPhase) {
    p.AwaitClientHello? || p.AwaitClientFinished?
  }

  /** What does not open is skipped, up to a bound; what opens must be the client's Finished. */
  function ServerTakes(s: Suite, v: ServerConfig, p: ServerPhase, datagram: Bytes): ServerPhase
    requires ServerListens(p)
  {
    match p
    case AwaitClientHello => var plan := ServerPlan(s, v, datagram); Launch(plan.datagrams, plan.outcome)
    case AwaitClientFinished(n, received) =>
      match Unprotect(s.block, n.read, datagram, MAX_MSG)
      case Err(e) =>
        if received + 1 < MAX_FINISHED_RECEIVES then AwaitClientFinished(n, received + 1) else ServerFailed(e)
      case Ok(record) =>
        match TakeClientFinished(s, n, record)
        case Err(e) => ServerFailed(e)
        case Ok(_) => ServerDone(n)
  }

  function ServerReceived(s: Suite, v: ServerConfig, p: ServerPhase, r: Result<Bytes>): ServerPhase
    requires ServerListens(p)
  {
    match r
    case Ok(datagram) => ServerTakes(s, v, p, datagram)
    case Err(e) => ServerFailed(e)
  }
}
