/** The blocking server of src/handshake/server.c: it does what the server machine does with the
    same outcomes of its sends and receives. */
module Server {
  import opened Machine
  import opened Record
  import opened HandshakeHeader
  import opened RecordProtect
  import opened KeySchedule
  import opened Hello
  import opened Messages
  import opened Handshake
  import opened Sockets
  import Asn1
  import HandshakeWire
  import RecordRun
  import Sha256
  import Transcript

  // ----- the machine, run on given outcomes

  datatype End = End(phase: ServerPhase, io: Io)

  /** Bounds the number of calls still to be made. */
  function Rank(p: ServerPhase): nat {
    match p
    case AwaitClientHello => 14
    case Flight(rest, _) => if |rest| > 0 then 8 + |rest| else 0
    case AwaitClientFinished(_, received) =>
      if received < MAX_FINISHED_RECEIVES then MAX_FINISHED_RECEIVES - received else 1
    case _ => 0
  }

  /** The next call and its effect. */
  function Call(s: Suite, v: ServerConfig, net: Net, p: ServerPhase, io: Io): End {
    if p.Flight? && |p.rest| > 0 then End(ServerSent(p, net.send(io.sends)), io.Sent(p.rest[0]))
    else if ServerListens(p) then End(ServerReceived(s, v, p, net.recv(io.recvs)), io.Heard())
    else End(p, io)
  }

  function Run(s: Suite, v: ServerConfig, net: Net, p: ServerPhase, io: Io): End
    decreases Rank(p)
  {
    if Rank(p) == 0 then End(p, io)
    else
      CallRanked(s, v, net, p, io);
      var e := Call(s, v, net, p, io);
      Run(s, v, net, e.phase, e.io)
  }

  lemma CallRanked(s: Suite, v: ServerConfig, net: Net, p: ServerPhase, io: Io)
    requires Rank(p) > 0
    ensures Rank(Call(s, v, net, p, io).phase) < Rank(p)
  {
    hide ServerPlan, Unprotect, TakeClientFinished;
    if p.AwaitClientHello? && net.recv(io.recvs).Ok? {
      PlanIsShort(s, v, net.recv(io.recvs).value);
    }
  }

  lemma PlanIsShort(s: Suite, v: ServerConfig, d: Bytes)
    ensures |ServerPlan(s, v, d).datagrams| <= 5
  {
    hide AcceptHello, ProtectedPlan, Plain, AllZero, HandshakeWire.InOrder;
    var hello := AcceptHello(d);
    if hello.Ok? {
      var transcript := hello.value.message + ServerHelloMessage(s, v);
      HandshakeWire.PlanIsShaped(s, v, s.Keys(s.dh(v.priv, hello.value.key), transcript), transcript);
    }
  }

  /** Every run ends, in at most as many calls as its rank says: fourteen from the start. */
  lemma {:induction false} RunEnds(s: Suite, v: ServerConfig, net: Net, p: ServerPhase, io: Io)
    requires p.Flight? ==> |p.rest| > 0
    ensures var e := Run(s, v, net, p, io);
            && (e.phase.ServerDone? || e.phase.ServerFailed?)
            && e.io.sends + e.io.recvs <= io.sends + io.recvs + Rank(p)
    decreases Rank(p)
  {
    hide ServerPlan, Unprotect, TakeClientFinished;
    if Rank(p) > 0 {
      CallRanked(s, v, net, p, io);
      var e := Call(s, v, net, p, io);
      RunEnds(s, v, net, e.phase, e.io);
    }
  }

  lemma Calls(s: Suite, v: ServerConfig, net: Net, p: ServerPhase, io: Io)
    requires Rank(p) > 0
    ensures Run(s, v, net, p, io) == Run(s, v, net, Call(s, v, net, p, io).phase, Call(s, v, net, p, io).io)
  {
    hide Call, Rank;
    CallRanked(s, v, net, p, io);
  }

  lemma Ends(s: Suite, v: ServerConfig, net: Net, p: ServerPhase, io: Io)
    requires Rank(p) == 0
    ensures Run(s, v, net, p, io) == End(p, io)
  {
    hide Call;
  }

  // ----- what a plan still holds

  /** A plan whose next message is this stage. */
  ghost predicate Continues(q: Plan, x: Outbox, stage: Stage) {
    match stage
    case Stopped(_, e) => q == Plan(x.out, x.messages, Err(e))
    case Going(y) => |x.out| < |y.out| <= |q.datagrams| && q.datagrams[|x.out|] == y.out[|x.out|]
  }

  lemma EmitGrows(s: Suite, x: Outbox, kind: uint8, messageSeq: uint16, body: Result<Bytes>)
    requires body.Ok? ==> |body.value| <= 0xFFFF
    ensures var stage := Emit(s, x, kind, messageSeq, body);
            if stage.Stopped? then stage.box == x
            else |stage.box.out| == |x.out| + 1 && stage.box.out[..|x.out|] == x.out
  {
    hide RecordOf, Encode;
  }

  // ----- the code

  ghost predicate Linked(s: Suite, t: Transcript.Transcript, w: RecordRun.RecordProtection, x: Outbox)
    reads t, t.ctx, t.ctx.buf, w
  {
    t.Valid() && t.ctx.compress == s.compress && t.ctx.msg == x.transcript && w.State() == x.write
  }

  method BuildProtected(s: Suite, t: Transcript.Transcript, w: RecordRun.RecordProtection,
                        kind: uint8, messageSeq: uint16, body: Bytes, ghost x: Outbox)
    returns (r: Result<Bytes>)
    requires Linked(s, t, w, x) && |body| <= 0xFFFF
    modifies t.ctx, t.ctx.buf, w`next
    ensures match SendProtected(s, x, kind, messageSeq, body)
            case Err(e) => r == Err(e)
            case Ok(y) => |y.out| == |x.out| + 1 && r == Ok(y.out[|x.out|]) && Linked(s, t, w, y)
  {
    hide RecordOf, Encode, Sha256.Represents;
    var message :- Wrap(kind, messageSeq, body, MAX_MSG);
    t.Add(message);
    var out := new uint8[MAX_MSG];
    var len := w.ProtectInto(s.block, CT_HANDSHAKE, message, out);
    if len.Err? {
      return Err(len.status);
    }
    return Ok(out[..len.value]);
  }

  /** Wraps, adds to the transcript, protects and sends one message. */
  method SendMessage(s: Suite, v: ServerConfig, sock: Socket, t: Transcript.Transcript, w: RecordRun.RecordProtection,
                     kind: uint8, messageSeq: uint16, body: Result<Bytes>, ghost x: Outbox, ghost q: Plan)
    returns (r: Result<()>)
    requires Linked(s, t, w, x) && (body.Ok? ==> |body.value| <= 0xFFFF)
    requires |x.out| <= |q.datagrams| && Continues(q, x, Emit(s, x, kind, messageSeq, body))
    modifies sock, t.ctx, t.ctx.buf, w`next
    ensures r.Ok? ==> |x.out| < |q.datagrams|
    ensures Run(s, v, sock.net, Launch(q.datagrams[|x.out|..], q.outcome), old(sock.State()))
         == if r.Ok? then Run(s, v, sock.net, Launch(q.datagrams[|x.out| + 1..], q.outcome), sock.State())
            else Run(s, v, sock.net, ServerFailed(r.status), sock.State())
    ensures r.Ok? ==> var stage := Emit(s, x, kind, messageSeq, body); stage.Going? && Linked(s, t, w, stage.box)
  {
    hide Run, SendProtected, Sha256.Represents;
    var b :- body;
    var record :- BuildProtected(s, t, w, kind, messageSeq, b, x);
    ghost var rest := q.datagrams[|x.out|..];
    assert rest[0] == record && rest[1..] == q.datagrams[|x.out| + 1..];
    Calls(s, v, sock.net, Flight(rest, q.outcome), sock.State());
    r := sock.Send(record);
  }

  /** The bounded wait: what does not open is skipped. */
  method AwaitFinished(s: Suite, v: ServerConfig, sock: Socket, t: Transcript.Transcript, keys: Keys, ghost n: Session)
    returns (r: Result<Keys>)
    requires t.Valid() && t.ctx.compress == s.compress && t.ctx.msg == n.transcript
    requires keys == n.keys && n.read == ReadState(keys.clientKey, keys.clientIv, 0, 2)
    modifies sock
    ensures Reports(Run(s, v, sock.net, AwaitClientFinished(n, 0), old(sock.State())), sock.State(), r)
  {
    hide Run, Unprotect, Sha256.Represents, Sha256.Digest, TakeClientFinished;
    var hash := t.Snapshot();
    var u := new RecordRun.RecordUnprotection(keys.clientKey, keys.clientIv, 2);
    var attempt := 0;
    var st := Truncated;
    while attempt < MAX_FINISHED_RECEIVES
      invariant 0 <= attempt <= MAX_FINISHED_RECEIVES && fresh(u) && u.State() == n.read
      invariant Run(s, v, sock.net, AwaitClientFinished(n, 0), old(sock.State()))
             == Run(s, v, sock.net,
                    if attempt < MAX_FINISHED_RECEIVES then AwaitClientFinished(n, attempt) else ServerFailed(st),
                    sock.State())
    {
      Calls(s, v, sock.net, AwaitClientFinished(n, attempt), sock.State());
      var received := sock.Recv();
      if received.Err? {
        Ends(s, v, sock.net, ServerFailed(received.status), sock.State());
        return Err(received.status);
      }
      var m := u.UnprotectFrom(s.block, received.value, MAX_MSG);
      if m.Ok? {
        ghost var record := Unprotect(s.block, n.read, received.value, MAX_MSG).value;
        var checked := CheckClientFinished(s, keys.clientSecret, hash, m.value, n, record);
        if checked.Err? {
          Ends(s, v, sock.net, ServerFailed(checked.status), sock.State());
          return Err(checked.status);
        }
        Ends(s, v, sock.net, ServerDone(n), sock.State());
        return Ok(keys);
      }
      st := m.status;
      attempt := attempt + 1;
    }
    Ends(s, v, sock.net, ServerFailed(st), sock.State());
    return Err(st);
  }

  method CheckClientFinished(s: Suite, secret: Bytes, hash: Bytes, m: RecordRun.Message, ghost n: Session,
                             ghost record: Opened)
    returns (r: Result<()>)
    requires secret == n.keys.clientSecret && hash == s.Hash(n.transcript)
    requires m.contentType == record.contentType && m.text == record.text
    ensures r == TakeClientFinished(s, n, record)
  {
    hide Parse, Finished, Sha256.Digest;
    if m.contentType != CT_HANDSHAKE {
      return Err(Unsupported);
    }
    var fragment :- Parse(m.text);
    var body :- Expect(fragment, FINISHED);
    if |body| != 32 {
      return Err(BadLength);
    }
    r := VerifyFinished(s.mac, secret, hash, body);
  }

  /** What the caller is told. */
  function Told(p: ServerPhase): Result<Keys>
    requires p.ServerDone? || p.ServerFailed?
  {
    match p
    case ServerDone(n) => Ok(n.keys)
    case ServerFailed(e) => Err(e)
  }

  ghost predicate Reports(e: End, io: Io, r: Result<Keys>) {
    (e.phase.ServerDone? || e.phase.ServerFailed?) && io == e.io && r == Told(e.phase)
  }

  /** Certificate is out: CertificateVerify, Finished and the wait for the client's. */
  method Signed(s: Suite, v: ServerConfig, sock: Socket, t: Transcript.Transcript, w: RecordRun.RecordProtection,
                keys: Keys, ghost hello: Bytes, ghost cert: Outbox)
    returns (r: Result<Keys>)
    requires Linked(s, t, w, cert) && |cert.out| == 2
    requires |SignedPlan(s, v, keys, hello, cert).datagrams| >= 2
    modifies sock, t.ctx, t.ctx.buf, w`next
    ensures var q := SignedPlan(s, v, keys, hello, cert);
            Reports(Run(s, v, sock.net, Launch(q.datagrams[2..], q.outcome), old(sock.State())), sock.State(), r)
  {
    hide Run, Emit, VerifyBody, Finished, Sha256.Represents, Sha256.Digest;
    ghost var q := SignedPlan(s, v, keys, hello, cert);
    var certHash := t.Snapshot();
    var body := BuildVerify(s, v, certHash, cert.transcript);
    SignedGrows(s, v, keys, hello, cert);
    var sent := SendMessage(s, v, sock, t, w, CERTIFICATE_VERIFY, 3, body, cert, q);
    if sent.Err? {
      Ends(s, v, sock.net, ServerFailed(sent.status), sock.State());
      return Err(sent.status);
    }
    ghost var cv := Emit(s, cert, CERTIFICATE_VERIFY, 3, body).box;
    var hash := t.Snapshot();
    var last := Ok(Finished(s.mac, keys.serverSecret, hash));
    sent := SendMessage(s, v, sock, t, w, FINISHED, 4, last, cv, q);
    if sent.Err? {
      Ends(s, v, sock.net, ServerFailed(sent.status), sock.State());
      return Err(sent.status);
    }
    assert q.datagrams[4..] == [];
    r := AwaitFinished(s, v, sock, t, keys, q.outcome.value);
  }

  lemma SignedGrows(s: Suite, v: ServerConfig, keys: Keys, hello: Bytes, cert: Outbox)
    requires |cert.out| == 2
    ensures var q := SignedPlan(s, v, keys, hello, cert);
            var cv := Emit(s, cert, CERTIFICATE_VERIFY, 3, VerifyBody(s, v, cert.transcript));
            && Continues(q, cert, cv)
            && (cv.Going? ==>
                  && |cv.box.out| == 3 <= |q.datagrams|
                  && var last := Emit(s, cv.box, FINISHED, 4,
                                  Ok(Finished(s.mac, keys.serverSecret, s.Hash(cv.box.transcript))));
                  && Continues(q, cv.box, last)
                  && (last.Going? ==> |q.datagrams| == 4))
  {
    hide Emit, VerifyBody, Finished, Sha256.Digest;
    EmitGrows(s, cert, CERTIFICATE_VERIFY, 3, VerifyBody(s, v, cert.transcript));
    var cv := Emit(s, cert, CERTIFICATE_VERIFY, 3, VerifyBody(s, v, cert.transcript));
    if cv.Going? {
      var body := Ok(Finished(s.mac, keys.serverSecret, s.Hash(cv.box.transcript)));
      EmitGrows(s, cv.box, FINISHED, 4, body);
      var last := Emit(s, cv.box, FINISHED, 4, body);
      if last.Going? {
        assert last.box.out[2] == last.box.out[..3][2];
      }
    }
  }

  /** Signs the transcript hash and writes the DER signature into 80 bytes. */
  method BuildVerify(s: Suite, v: ServerConfig, certHash: Bytes, ghost transcript: Bytes) returns (r: Result<Bytes>)
    requires certHash == s.Hash(transcript)
    ensures r == VerifyBody(s, v, transcript)
  {
    hide Sha256.Digest, CertificateVerifyContent, ServerContext;
    var content := CertificateVerifyContent(ServerContext(), certHash);
    var signature :- v.sign(s.Hash(content));
    var der :- Asn1.WriteSig(signature.r, signature.s, 80);
    return Ok(CertificateVerifyBody(der));
  }

  lemma ProtectedGrows(s: Suite, v: ServerConfig, keys: Keys, hello: Bytes)
    ensures var start := Outbox([], [], SendState(keys.serverKey, keys.serverIv, 0, 2), hello);
            var q := ProtectedPlan(s, v, keys, hello);
            var ee := Emit(s, start, ENCRYPTED_EXTENSIONS, 1, Ok(EMPTY_EXTENSIONS));
            && Continues(q, start, ee)
            && (ee.Going? ==>
                  && |ee.box.out| == 1 <= |q.datagrams|
                  && var cert := Emit(s, ee.box, CERTIFICATE, 2, SerializeCertificate(v.certs, MAX_MSG));
                  && Continues(q, ee.box, cert)
                  && (cert.Going? ==>
                        |cert.box.out| == 2 <= |q.datagrams| && q == SignedPlan(s, v, keys, hello, cert.box)))
  {
    hide Emit, SerializeCertificate, SignedPlan, Continues;
    var start := Outbox([], [], SendState(keys.serverKey, keys.serverIv, 0, 2), hello);
    HandshakeWire.CertificateIsShort(v.certs);
    EmitGrows(s, start, ENCRYPTED_EXTENSIONS, 1, Ok(EMPTY_EXTENSIONS));
    var ee := Emit(s, start, ENCRYPTED_EXTENSIONS, 1, Ok(EMPTY_EXTENSIONS));
    if ee.Going? {
      EmitGrows(s, ee.box, CERTIFICATE, 2, SerializeCertificate(v.certs, MAX_MSG));
      var cert := Emit(s, ee.box, CERTIFICATE, 2, SerializeCertificate(v.certs, MAX_MSG));
      if cert.Going? {
        SignedPrefix(s, v, keys, hello, cert.box);
        assert cert.box.out[0] == cert.box.out[..1][0];
      }
    }
    ProtectedContinues(s, v, keys, hello);
  }

  /** What was sent up to Certificate is how the whole plan begins. */
  lemma SignedPrefix(s: Suite, v: ServerConfig, keys: Keys, hello: Bytes, cert: Outbox)
    requires |cert.out| == 2
    ensures var q := SignedPlan(s, v, keys, hello, cert); |q.datagrams| >= 2 && q.datagrams[..2] == cert.out
  {
    hide Emit, VerifyBody, Finished, Sha256.Digest;
    EmitGrows(s, cert, CERTIFICATE_VERIFY, 3, VerifyBody(s, v, cert.transcript));
    var cv := Emit(s, cert, CERTIFICATE_VERIFY, 3, VerifyBody(s, v, cert.transcript));
    if cv.Going? {
      var body := Ok(Finished(s.mac, keys.serverSecret, s.Hash(cv.box.transcript)));
      EmitGrows(s, cv.box, FINISHED, 4, body);
      var last := Emit(s, cv.box, FINISHED, 4, body);
      if last.Going? {
        assert last.box.out[..2] == last.box.out[..3][..2];
      }
    }
  }

  lemma ProtectedContinues(s: Suite, v: ServerConfig, keys: Keys, hello: Bytes)
    ensures var start := Outbox([], [], SendState(keys.serverKey, keys.serverIv, 0, 2), hello);
            var q := ProtectedPlan(s, v, keys, hello);
            var ee := Emit(s, start, ENCRYPTED_EXTENSIONS, 1, Ok(EMPTY_EXTENSIONS));
            && Continues(q, start, ee)
            && (ee.Going? ==>
                  Continues(q, ee.box, Emit(s, ee.box, CERTIFICATE, 2, SerializeCertificate(v.certs, MAX_MSG))))
  {
    hide Emit, SerializeCertificate, SignedPlan;
    var start := Outbox([], [], SendState(keys.serverKey, keys.serverIv, 0, 2), hello);
    HandshakeWire.CertificateIsShort(v.certs);
    EmitGrows(s, start, ENCRYPTED_EXTENSIONS, 1, Ok(EMPTY_EXTENSIONS));
    var ee := Emit(s, start, ENCRYPTED_EXTENSIONS, 1, Ok(EMPTY_EXTENSIONS));
    if ee.Going? {
      EmitGrows(s, ee.box, CERTIFICATE, 2, SerializeCertificate(v.certs, MAX_MSG));
      var cert := Emit(s, ee.box, CERTIFICATE, 2, SerializeCertificate(v.certs, MAX_MSG));
      if cert.Going? {
        SignedPrefix(s, v, keys, hello, cert.box);
        var q := ProtectedPlan(s, v, keys, hello);
        assert q.datagrams[0] == q.datagrams[..2][0] && q.datagrams[1] == q.datagrams[..2][1];
        assert cert.box.out[0] == cert.box.out[..1][0];
      }
    }
  }

  /** Keys are derived: everything from EncryptedExtensions on. */
  method Secured(s: Suite, v: ServerConfig, sock: Socket, t: Transcript.Transcript, keys: Keys, ghost hello: Bytes)
    returns (r: Result<Keys>)
    requires t.Valid() && t.ctx.compress == s.compress && t.ctx.msg == hello
    modifies sock, t.ctx, t.ctx.buf
    ensures var q := ProtectedPlan(s, v, keys, hello);
            Reports(Run(s, v, sock.net, Launch(q.datagrams, q.outcome), old(sock.State())), sock.State(), r)
  {
    hide Run, Emit, SerializeCertificate, SignedPlan, ProtectedPlan, Sha256.Represents, Continues;
    var w := new RecordRun.RecordProtection(keys.serverKey, keys.serverIv, 2);
    ghost var start := Outbox([], [], SendState(keys.serverKey, keys.serverIv, 0, 2), hello);
    ghost var q := ProtectedPlan(s, v, keys, hello);
    ProtectedGrows(s, v, keys, hello);
    assert q.datagrams[0..] == q.datagrams;
    var sent := SendMessage(s, v, sock, t, w, ENCRYPTED_EXTENSIONS, 1, Ok(EMPTY_EXTENSIONS), start, q);
    if sent.Err? {
      Ends(s, v, sock.net, ServerFailed(sent.status), sock.State());
      return Err(sent.status);
    }
    ghost var ee := Emit(s, start, ENCRYPTED_EXTENSIONS, 1, Ok(EMPTY_EXTENSIONS)).box;
    var body := WriteCertificate(v.certs, MAX_MSG);
    HandshakeWire.CertificateIsShort(v.certs);
    sent := SendMessage(s, v, sock, t, w, CERTIFICATE, 2, body, ee, q);
    if sent.Err? {
      Ends(s, v, sock.net, ServerFailed(sent.status), sock.State());
      return Err(sent.status);
    }
    r := Signed(s, v, sock, t, w, keys, hello, Emit(s, ee, CERTIFICATE, 2, body).box);
  }

  method Accept(s: Suite, t: Transcript.Transcript, datagram: Bytes) returns (r: Result<Bytes>)
    requires t.Valid() && t.ctx.msg == []
    modifies t.ctx, t.ctx.buf
    ensures t.Valid()
    ensures match AcceptHello(datagram)
            case Err(e) => r == Err(e)
            case Ok(a) => r == Ok(a.key) && t.ctx.msg == a.message
  {
    hide ParsePlaintext, Parse, ParseClientHello, Sha256.Represents;
    var rec :- ParsePlaintext(datagram);
    if rec.hdr.contentType != CT_HANDSHAKE {
      return Err(Unsupported);
    }
    var fragment :- Parse(rec.fragment);
    var body :- Expect(fragment, CLIENT_HELLO);
    t.Add(rec.fragment);
    assert [] + rec.fragment == rec.fragment;
    var hello :- ReadClientHello(body);
    return Ok(hello.key);
  }

  /** The server's hello always fits the buffers it is built in. */
  lemma ServerHelloFits(s: Suite, v: ServerConfig)
    ensures var body := ServerHelloBody(v.random, s.base(v.priv));
            && |body| <= 0xFFFF && Fit(body, 512) == Ok(body)
            && Wrap(SERVER_HELLO, 0, body, 524) == Ok(ServerHelloMessage(s, v))
            && SerializePlaintext(PlaintextHeader(CT_HANDSHAKE, 0xFEFD, 0, 0), ServerHelloMessage(s, v), MAX_MSG)
               == Ok(Plain(ServerHelloMessage(s, v)))
  {
    hide ServerHelloBody, Encode, EncodePlaintext;
    ServerHelloLen(v.random, s.base(v.priv));
  }

  method BuildHello(s: Suite, v: ServerConfig, t: Transcript.Transcript) returns (datagram: Bytes)
    requires t.Valid()
    modifies t.ctx, t.ctx.buf
    ensures t.Valid() && t.ctx.msg == old(t.ctx.msg) + ServerHelloMessage(s, v)
    ensures datagram == Plain(ServerHelloMessage(s, v))
  {
    hide ServerHelloMessage, ServerHelloBody, Plain, Encode, Sha256.Represents;
    var body := SerializeServerHello(v.random, s.base(v.priv), 512);
    ServerHelloFits(s, v);
    var message := Wrap(SERVER_HELLO, 0, body.value, 524).value;
    t.Add(message);
    datagram := SerializePlaintext(PlaintextHeader(CT_HANDSHAKE, 0xFEFD, 0, 0), message, MAX_MSG).value;
  }

  /** A ClientHello was accepted: answer it. */
  method Respond(s: Suite, v: ServerConfig, sock: Socket, t: Transcript.Transcript, ghost hello: Accepted, key: Bytes)
    returns (r: Result<Keys>)
    requires t.Valid() && t.ctx.compress == s.compress && t.ctx.msg == hello.message && key == hello.key
    modifies sock, t.ctx, t.ctx.buf
    ensures var p := AnswerTo(s, v, hello);
            Reports(Run(s, v, sock.net, Launch(p.datagrams, p.outcome), old(sock.State())), sock.State(), r)
  {
    hide Run, ProtectedPlan, Plain, ServerHelloMessage, AllZero, Sha256.Represents, Sha256.Digest, DeriveKeys;
    var first := BuildHello(s, v, t);
    ghost var p := AnswerTo(s, v, hello);
    Calls(s, v, sock.net, Flight(p.datagrams, p.outcome), sock.State());
    var sent := sock.Send(first);
    if sent.Err? {
      Ends(s, v, sock.net, ServerFailed(sent.status), sock.State());
      return Err(sent.status);
    }
    var secret := s.dh(v.priv, key);
    var zero := IsZero(secret);
    if zero {
      assert p.datagrams[1..] == [];
      Ends(s, v, sock.net, ServerFailed(AuthFailed), sock.State());
      return Err(AuthFailed);
    }
    var hash := t.Snapshot();
    ghost var transcript := t.ctx.msg;
    var keys := DeriveKeys(s.mac, s.Hash([]), secret, hash);
    assert p.datagrams[1..] == ProtectedPlan(s, v, keys, transcript).datagrams;
    r := Secured(s, v, sock, t, keys, transcript);
  }

  /** The blocking server sends what the machine sends and returns what the machine ends with. */
  method ServerHandshake(s: Suite, v: ServerConfig, sock: Socket) returns (r: Result<Keys>)
    modifies sock
    ensures Reports(Run(s, v, sock.net, ServerStart(v), old(sock.State())), sock.State(), r)
  {
    hide Run, AcceptHello, AnswerTo, Sha256.Represents;
    if |v.certs| == 0 || |v.certs| > MAX_CERTS {
      Ends(s, v, sock.net, ServerFailed(BadArg), sock.State());
      return Err(BadArg);
    }
    var t := new Transcript.Transcript(s.compress);
    Calls(s, v, sock.net, AwaitClientHello, sock.State());
    var received := sock.Recv();
    if received.Err? {
      Ends(s, v, sock.net, ServerFailed(received.status), sock.State());
      return Err(received.status);
    }
    var key := Accept(s, t, received.value);
    if key.Err? {
      Ends(s, v, sock.net, ServerFailed(key.status), sock.State());
      return Err(key.status);
    }
    r := Respond(s, v, sock, t, AcceptHello(received.value).value, key.value);
  }
}
