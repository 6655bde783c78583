/** The blocking client of src/handshake/client.c: it does what the client machine does with the
    same outcomes of its sends and receives. */
module Client {
  import opened Machine
  import opened Record
  import opened HandshakeHeader
  import opened RecordProtect
  import opened KeySchedule
  import opened Hello
  import opened Messages
  import opened Handshake
  import opened Sockets
  import Asn1
  import RecordRun
  import Sha256
  import Transcript

  // ----- the machine, run on given outcomes

  datatype End = End(phase: ClientPhase, io: Io)

  /** Bounds the number of calls still to be made. */
  function Rank(p: ClientPhase): nat {
    match p
    case Hello(attempt) => 7 + 2 * (if attempt < 4 then 4 - attempt else 0)
    case AwaitServerHello(attempt) => 6 + 2 * (if attempt < 4 then 4 - attempt else 0)
    case AwaitExtensions(_) => 5
    case AwaitCertificate(_) => 4
    case AwaitVerify(_, _) => 3
    case AwaitFinished(_, _) => 2
    case Reply(_, _) => 1
    case _ => 0
  }

  /** The next call and its effect. */
  function Call(s: Suite, c: ClientConfig, net: Net, p: ClientPhase, io: Io): End {
    if p.Hello? || p.Reply? then End(ClientSent(p, net.send(io.sends)), io.Sent(ClientOutput(s, c, p)))
    else if ClientListens(p) then End(ClientReceived(s, c, p, net.recv(io.recvs)), io.Heard())
    else End(p, io)
  }

  function Run(s: Suite, c: ClientConfig, net: Net, p: ClientPhase, io: Io): End
    decreases Rank(p)
  {
    if Rank(p) == 0 then End(p, io)
    else
      CallRanked(s, c, net, p, io);
      var e := Call(s, c, net, p, io);
      Run(s, c, net, e.phase, e.io)
  }

  lemma CallRanked(s: Suite, c: ClientConfig, net: Net, p: ClientPhase, io: Io)
    requires Rank(p) > 0
    ensures Rank(Call(s, c, net, p, io).phase) < Rank(p)
  {
    hide ClientOutput, ClientReceived;
    if ClientListens(p) {
      Ranked(s, c, p, net.recv(io.recvs));
    }
  }

  lemma Ranked(s: Suite, c: ClientConfig, p: ClientPhase, r: Result<Bytes>)
    requires ClientListens(p)
    ensures Rank(ClientReceived(s, c, p, r)) < Rank(p)
  {
    hide ReceivePlaintext, ClientSession, TakeExtensions, TakeCertificate, TakeVerify, TakeFinished;
  }

  /** Every run ends, in at most as many calls as its rank says: fifteen from the start. */
  lemma {:induction false} RunEnds(s: Suite, c: ClientConfig, net: Net, p: ClientPhase, io: Io)
    ensures var e := Run(s, c, net, p, io);
            && (e.phase.ClientDone? || e.phase.ClientFailed?)
            && e.io.sends + e.io.recvs <= io.sends + io.recvs + Rank(p)
    decreases Rank(p)
  {
    hide ClientOutput, ClientReceived, ClientSent;
    if Rank(p) > 0 {
      CallRanked(s, c, net, p, io);
      var e := Call(s, c, net, p, io);
      RunEnds(s, c, net, e.phase, e.io);
    }
  }

  lemma Calls(s: Suite, c: ClientConfig, net: Net, p: ClientPhase, io: Io)
    requires Rank(p) > 0
    ensures Run(s, c, net, p, io) == Run(s, c, net, Call(s, c, net, p, io).phase, Call(s, c, net, p, io).io)
  {
    hide Call, Rank;
    CallRanked(s, c, net, p, io);
  }

  lemma Ends(s: Suite, c: ClientConfig, net: Net, p: ClientPhase, io: Io)
    requires Rank(p) == 0
    ensures Run(s, c, net, p, io) == End(p, io)
  {
    hide Call;
  }

  // ----- the code

  /** The running transcript and the read side hold what the session says. */
  ghost predicate Linked(s: Suite, t: Transcript.Transcript, u: RecordRun.RecordUnprotection, n: Session)
    reads t, t.ctx, t.ctx.buf, u
  {
    t.Valid() && t.ctx.compress == s.compress && t.ctx.msg == n.transcript && u.State() == n.read
  }

  /** One datagram, opened and parsed. */
  method ReceiveHandshake(s: Suite, sock: Socket, u: RecordRun.RecordUnprotection) returns (r: Result<Incoming>)
    modifies sock, u`highest
    ensures sock.State() == old(sock.State()).Heard()
    ensures match sock.net.recv(old(sock.recvs))
            case Err(e) => r == Err(e)
            case Ok(d) =>
              match ReceiveProtected(s, old(u.State()), d)
              case Err(e) => r == Err(e)
              case Ok(m) => r == Ok(m.incoming) && u.State() == m.read
  {
    hide Unprotect, Parse;
    var d :- sock.Recv();
    var m :- u.UnprotectFrom(s.block, d, MAX_MSG);
    if m.contentType != CT_HANDSHAKE {
      return Err(Unsupported);
    }
    var fragment :- Parse(m.text);
    return Ok(Incoming(fragment, m.text));
  }

  method TakeServerExtensions(s: Suite, sock: Socket, t: Transcript.Transcript, u: RecordRun.RecordUnprotection,
                              ghost n: Session)
    returns (r: Result<()>)
    requires Linked(s, t, u, n)
    modifies sock, t.ctx, t.ctx.buf, u`highest
    ensures sock.State() == old(sock.State()).Heard()
    ensures match sock.net.recv(old(sock.recvs))
            case Err(e) => r == Err(e)
            case Ok(d) =>
              match TakeExtensions(s, n, d)
              case Err(e) => r == Err(e)
              case Ok(m) => r == Ok(()) && Linked(s, t, u, m)
  {
    hide ReceiveProtected, Sha256.Represents, ParseEncryptedExtensions;
    var i :- ReceiveHandshake(s, sock, u);
    var body :- Expect(i.fragment, ENCRYPTED_EXTENSIONS);
    var _ :- ParseEncryptedExtensions(body);
    t.Add(i.message);
    return Ok(());
  }

  method TakeServerCertificate(s: Suite, sock: Socket, t: Transcript.Transcript, u: RecordRun.RecordUnprotection,
                               ghost n: Session)
    returns (r: Result<Leaf>)
    requires Linked(s, t, u, n)
    modifies sock, t.ctx, t.ctx.buf, u`highest
    ensures sock.State() == old(sock.State()).Heard()
    ensures match sock.net.recv(old(sock.recvs))
            case Err(e) => r == Err(e)
            case Ok(d) =>
              match TakeCertificate(s, n, d)
              case Err(e) => r == Err(e)
              case Ok(m) => r == Ok(m.leaf) && Linked(s, t, u, m.session)
  {
    hide ReceiveProtected, Sha256.Represents, ParseCertificate;
    var i :- ReceiveHandshake(s, sock, u);
    var body :- Expect(i.fragment, CERTIFICATE);
    var certs :- ReadCertificate(body);
    var leaf :- s.chain(certs);
    t.Add(i.message);
    return Ok(leaf);
  }

  method TakeServerVerify(s: Suite, sock: Socket, t: Transcript.Transcript, u: RecordRun.RecordUnprotection,
                          leaf: Leaf, ghost n: Session)
    returns (r: Result<()>)
    requires Linked(s, t, u, n)
    modifies sock, t.ctx, t.ctx.buf, u`highest
    ensures sock.State() == old(sock.State()).Heard()
    ensures match sock.net.recv(old(sock.recvs))
            case Err(e) => r == Err(e)
            case Ok(d) =>
              match TakeVerify(s, n, leaf, d)
              case Err(e) => r == Err(e)
              case Ok(m) => r == Ok(()) && Linked(s, t, u, m)
  {
    hide ReceiveProtected, Sha256.Represents, Sha256.Digest, ParseCertificateVerify, Asn1.ReadSig,
         CertificateVerifyContent, ServerContext;
    var hash := t.Snapshot();
    var i :- ReceiveHandshake(s, sock, u);
    var body :- Expect(i.fragment, CERTIFICATE_VERIFY);
    var cv :- ParseCertificateVerify(body);
    if cv.algorithm != ECDSA_SECP256R1_SHA256 {
      return Err(Unsupported);
    }
    var content := CertificateVerifyContent(ServerContext(), hash);
    var signature :- Asn1.ReadSig(cv.signature);
    var _ :- s.verify(leaf, s.Hash(content), signature);
    t.Add(i.message);
    return Ok(());
  }

  method TakeServerFinished(s: Suite, sock: Socket, t: Transcript.Transcript, u: RecordRun.RecordUnprotection,
                            secret: Bytes, ghost n: Session)
    returns (r: Result<()>)
    requires Linked(s, t, u, n) && secret == n.keys.serverSecret
    modifies sock, t.ctx, t.ctx.buf, u`highest
    ensures sock.State() == old(sock.State()).Heard()
    ensures match sock.net.recv(old(sock.recvs))
            case Err(e) => r == Err(e)
            case Ok(d) =>
              match TakeFinished(s, n, d)
              case Err(e) => r == Err(e)
              case Ok(m) => r == Ok(()) && Linked(s, t, u, m)
  {
    hide ReceiveProtected, Sha256.Represents, Sha256.Digest, Finished;
    var hash := t.Snapshot();
    var i :- ReceiveHandshake(s, sock, u);
    var body :- Expect(i.fragment, FINISHED);
    if |body| != 32 {
      return Err(BadLength);
    }
    var _ :- VerifyFinished(s.mac, secret, hash, body);
    t.Add(i.message);
    return Ok(());
  }

  /** Where a parsed reply takes the machine. */
  function Replied(s: Suite, c: ClientConfig, i: Incoming): ClientPhase {
    match ClientSession(s, c, i)
    case Err(e) => ClientFailed(e)
    case Ok(n) => AwaitExtensions(n)
  }

  /** The retransmission loop: send, wait, and try again until something parses. */
  method ExchangeHello(s: Suite, c: ClientConfig, sock: Socket, datagram: Bytes) returns (r: Result<Incoming>)
    requires datagram == Plain(ClientHelloMessage(s, c))
    modifies sock
    ensures Run(s, c, sock.net, ClientPhase.Hello(0), old(sock.State()))
         == Run(s, c, sock.net, if r.Ok? then Replied(s, c, r.value) else ClientFailed(r.status), sock.State())
  {
    hide Run, Plain, ClientHelloMessage, ReceivePlaintext, ClientSession;
    r := Err(Truncated);
    var attempt := 0;
    while attempt < MAX_HELLO_ATTEMPTS
      invariant 0 <= attempt <= MAX_HELLO_ATTEMPTS && r.Err?
      invariant Run(s, c, sock.net, ClientPhase.Hello(0), old(sock.State()))
             == Run(s, c, sock.net,
                    if attempt < MAX_HELLO_ATTEMPTS then ClientPhase.Hello(attempt) else ClientFailed(r.status),
                    sock.State())
    {
      Calls(s, c, sock.net, ClientPhase.Hello(attempt), sock.State());
      var sent := sock.Send(datagram);
      if sent.Err? {
        r := Err(sent.status);
      } else {
        Calls(s, c, sock.net, AwaitServerHello(attempt), sock.State());
        r := ReceiveReply(sock);
        if r.Ok? {
          return;
        }
      }
      attempt := attempt + 1;
    }
  }

  method ReceiveReply(sock: Socket) returns (r: Result<Incoming>)
    modifies sock
    ensures sock.State() == old(sock.State()).Heard()
    ensures match sock.net.recv(old(sock.recvs))
            case Err(e) => r == Err(e)
            case Ok(d) => r == ReceivePlaintext(d)
  {
    hide ReceivePlaintext;
    var d :- sock.Recv();
    return ReceivePlaintext(d);
  }

  method StartSession(s: Suite, c: ClientConfig, t: Transcript.Transcript, i: Incoming) returns (r: Result<Keys>)
    requires t.Valid() && t.ctx.compress == s.compress && t.ctx.msg == ClientHelloMessage(s, c)
    modifies t.ctx, t.ctx.buf
    ensures t.Valid()
    ensures match ClientSession(s, c, i)
            case Err(e) => r == Err(e)
            case Ok(n) => r == Ok(n.keys) && t.ctx.msg == n.transcript
  {
    hide ParseServerHello, ClientHelloMessage, Sha256.Represents, Sha256.Digest, DeriveKeys;
    var body :- Expect(i.fragment, SERVER_HELLO);
    t.Add(i.message);
    var hello :- ReadServerHello(body);
    if hello.suite != CHACHA20_POLY1305_SHA256 {
      return Err(Unsupported);
    }
    var secret := s.dh(c.priv, hello.key);
    var zero := IsZero(secret);
    if zero {
      return Err(AuthFailed);
    }
    var hash := t.Snapshot();
    return Ok(DeriveKeys(s.mac, s.Hash([]), secret, hash));
  }

  /** The client's Finished, protected with a fresh write side. */
  method BuildFinished(s: Suite, t: Transcript.Transcript, keys: Keys, ghost n: Session) returns (record: Bytes)
    requires t.Valid() && t.ctx.compress == s.compress && t.ctx.msg == n.transcript && keys == n.keys
    modifies t.ctx, t.ctx.buf
    ensures record == ClientFinishedRecord(s, n)
  {
    hide Sha256.Represents, Sha256.Digest, Finished, RecordOf, Encode;
    var hash := t.Snapshot();
    var verifyData := Finished(s.mac, keys.clientSecret, hash);
    var message := Framed(FINISHED, 1, verifyData);
    assert Wrap(FINISHED, 1, verifyData, 44) == Ok(message);
    t.Add(message);
    var write := new RecordRun.RecordProtection(keys.clientKey, keys.clientIv, 2);
    var out := new uint8[MAX_MSG];
    var sent := write.ProtectInto(s.block, CT_HANDSHAKE, message, out);
    record := out[..sent.value];
  }

  datatype ClientResult = ClientResult(keys: Keys, leaf: Leaf)

  /** What the caller is told. */
  function Told(p: ClientPhase): Result<ClientResult>
    requires p.ClientDone? || p.ClientFailed?
  {
    match p
    case ClientDone(n, leaf) => Ok(ClientResult(n.keys, leaf))
    case ClientFailed(e) => Err(e)
  }

  ghost predicate Reports(e: End, io: Io, r: Result<ClientResult>) {
    (e.phase.ClientDone? || e.phase.ClientFailed?) && io == e.io && r == Told(e.phase)
  }

  /** The blocking client sends what the machine sends and returns what the machine ends with. */
  method ClientHandshake(s: Suite, c: ClientConfig, sock: Socket) returns (r: Result<ClientResult>)
    modifies sock
    ensures Reports(Run(s, c, sock.net, ClientPhase.Hello(0), old(sock.State())), sock.State(), r)
  {
    hide Run, ClientHelloMessage, ClientHelloBody, ClientSession, Sha256.Represents, Plain, Encode;
    var t := new Transcript.Transcript(s.compress);
    var body := SerializeClientHello(c.random, s.base(c.priv), 512);
    ClientHelloFits(s, c);
    var message := Wrap(CLIENT_HELLO, 0, body.value, 524).value;
    t.Add(message);
    assert t.ctx.msg == message;
    var datagram := SerializePlaintext(PlaintextHeader(CT_HANDSHAKE, 0xFEFD, 0, 0), message, MAX_MSG).value;
    var reply := ExchangeHello(s, c, sock, datagram);
    if reply.Err? {
      Ends(s, c, sock.net, ClientFailed(reply.status), sock.State());
      return Err(reply.status);
    }
    var keys := StartSession(s, c, t, reply.value);
    if keys.Err? {
      Ends(s, c, sock.net, ClientFailed(keys.status), sock.State());
      return Err(keys.status);
    }
    FreshRead(s, c, reply.value);
    r := Secured(s, c, sock, t, keys.value, ClientSession(s, c, reply.value).value);
  }

  lemma FreshRead(s: Suite, c: ClientConfig, i: Incoming)
    requires ClientSession(s, c, i).Ok?
    ensures var n := ClientSession(s, c, i).value; n.read == ReadState(n.keys.serverKey, n.keys.serverIv, 0, 2)
  {
    hide ParseServerHello, ClientHelloMessage, Expect, AllZero;
  }

  /** The protected half: four messages in, one out. */
  method Secured(s: Suite, c: ClientConfig, sock: Socket, t: Transcript.Transcript, keys: Keys, ghost n: Session)
    returns (r: Result<ClientResult>)
    requires t.Valid() && t.ctx.compress == s.compress && t.ctx.msg == n.transcript
    requires keys == n.keys && n.read == ReadState(keys.serverKey, keys.serverIv, 0, 2)
    modifies sock, t.ctx, t.ctx.buf
    ensures Reports(Run(s, c, sock.net, AwaitExtensions(n), old(sock.State())), sock.State(), r)
  {
    hide Run, Sha256.Represents, TakeExtensions, TakeCertificate;
    var u := new RecordRun.RecordUnprotection(keys.serverKey, keys.serverIv, 2);
    Calls(s, c, sock.net, AwaitExtensions(n), sock.State());
    ghost var first := sock.net.recv(sock.recvs);
    var extensions := TakeServerExtensions(s, sock, t, u, n);
    if extensions.Err? {
      Ends(s, c, sock.net, ClientFailed(extensions.status), sock.State());
      return Err(extensions.status);
    }
    ghost var m := TakeExtensions(s, n, first.value).value;
    Calls(s, c, sock.net, AwaitCertificate(m), sock.State());
    ghost var second := sock.net.recv(sock.recvs);
    var leaf := TakeServerCertificate(s, sock, t, u, m);
    if leaf.Err? {
      Ends(s, c, sock.net, ClientFailed(leaf.status), sock.State());
      return Err(leaf.status);
    }
    SameKeys(s, n, m, first.value, second.value);
    r := Authenticated(s, c, sock, t, u, keys, leaf.value, TakeCertificate(s, m, second.value).value.session);
  }

  lemma SameKeys(s: Suite, n: Session, m: Session, d: Bytes, e: Bytes)
    requires TakeExtensions(s, n, d) == Ok(m)
    ensures m.keys == n.keys
    ensures TakeCertificate(s, m, e).Ok? ==> TakeCertificate(s, m, e).value.session.keys == n.keys
  {
    hide ReceiveProtected, ParseEncryptedExtensions, ParseCertificate;
  }

  /** From CertificateVerify on. */
  method Authenticated(s: Suite, c: ClientConfig, sock: Socket, t: Transcript.Transcript,
                       u: RecordRun.RecordUnprotection,
                       keys: Keys, leaf: Leaf, ghost n: Session)
    returns (r: Result<ClientResult>)
    requires Linked(s, t, u, n) && keys == n.keys
    modifies sock, t.ctx, t.ctx.buf, u`highest
    ensures Reports(Run(s, c, sock.net, AwaitVerify(n, leaf), old(sock.State())), sock.State(), r)
  {
    hide Run, Sha256.Represents, TakeVerify, TakeFinished, ClientFinishedRecord;
    Calls(s, c, sock.net, AwaitVerify(n, leaf), sock.State());
    ghost var first := sock.net.recv(sock.recvs);
    var verified := TakeServerVerify(s, sock, t, u, leaf, n);
    if verified.Err? {
      Ends(s, c, sock.net, ClientFailed(verified.status), sock.State());
      return Err(verified.status);
    }
    ghost var m := TakeVerify(s, n, leaf, first.value).value;
    Calls(s, c, sock.net, AwaitFinished(m, leaf), sock.State());
    ghost var second := sock.net.recv(sock.recvs);
    SameKeysLater(s, n, m, leaf, first.value);
    var finished := TakeServerFinished(s, sock, t, u, keys.serverSecret, m);
    if finished.Err? {
      Ends(s, c, sock.net, ClientFailed(finished.status), sock.State());
      return Err(finished.status);
    }
    ghost var l := TakeFinished(s, m, second.value).value;
    SameKeysLast(s, m, l, second.value);
    Calls(s, c, sock.net, Reply(l, leaf), sock.State());
    var record := BuildFinished(s, t, keys, l);
    var sent := sock.Send(record);
    if sent.Err? {
      Ends(s, c, sock.net, ClientFailed(sent.status), sock.State());
      return Err(sent.status);
    }
    Ends(s, c, sock.net, ClientDone(l, leaf), sock.State());
    return Ok(ClientResult(keys, leaf));
  }

  lemma SameKeysLater(s: Suite, n: Session, m: Session, leaf: Leaf, d: Bytes)
    requires TakeVerify(s, n, leaf, d) == Ok(m)
    ensures m.keys == n.keys
  {
    hide ReceiveProtected, ParseCertificateVerify, CheckVerify;
  }

  lemma SameKeysLast(s: Suite, n: Session, m: Session, d: Bytes)
    requires TakeFinished(s, n, d) == Ok(m)
    ensures m.keys == n.keys
  {
    hide ReceiveProtected, CheckFinished;
  }
}
