/** What either end may conclude from finishing, whatever datagrams it was sent: nothing here
    assumes an honest peer or network. */
module HandshakeSafety {
  import opened Machine
  import opened Record
  import opened HandshakeHeader
  import opened RecordProtect
  import opened KeySchedule
  import opened Hello
  import opened Messages
  import opened Handshake
  import opened Sockets
  import Asn1
  import Client
  import HandshakeWire
  import Server
  import Sha256

  predicate IsWhole(f: Fragment, kind: uint8) {
    f.hdr.msgType == kind && f.hdr.fragmentOffset == 0 && f.hdr.fragmentLength == f.hdr.length
  }

  // ----- what counts as a handshake message

  /** A plaintext record of content type 22 with a handshake header that its datagram covers. */
  lemma PlaintextMeans(d: Bytes)
    ensures var r := ReceivePlaintext(d);
            && (r.Ok? <==> && ParsePlaintext(d).Ok? && d[0] == 22 && Parse(ParsePlaintext(d).value.fragment).Ok?)
            && (r.Ok? ==> && r.value.message == ParsePlaintext(d).value.fragment
                          && Parse(r.value.message) == Ok(r.value.fragment))
  {
    hide Parse;
    HandshakeWire.FirstByteIsType(d);
  }

  /** The same for a protected record: the type and the message are what it opens to. */
  lemma ProtectedMeans(s: Suite, u: ReadState, d: Bytes)
    ensures var r, o := ReceiveProtected(s, u, d), Unprotect(s.block, u, d, MAX_MSG);
            && (r.Ok? <==> && o.Ok? && o.value.contentType == 22 && Parse(o.value.text).Ok?)
            && (r.Ok? ==> && r.value.incoming.message == o.value.text && r.value.read == o.value.state
                          && Parse(o.value.text) == Ok(r.value.incoming.fragment))
  {
    hide Parse, Unprotect;
  }

  /** Two sessions with equal traffic secrets share the secret and the hash of both hellos, unless the
      MAC has collided. */
  lemma KeysBind(s: Suite, secret: Bytes, hello: Bytes, secret': Bytes, hello': Bytes) returns (c: Collision)
    requires var k, k' := s.Keys(secret, hello), s.Keys(secret', hello');
             k.clientSecret == k'.clientSecret || k.serverSecret == k'.serverSecret
    ensures (secret == secret' && s.Hash(hello) == s.Hash(hello')) || c.Valid(s.mac)
  {
    hide DeriveKeys, Sha256.Digest;
    c := Collision([], [], [], []);
    if secret != secret' || s.Hash(hello) != s.Hash(hello') {
      c := SessionsSeparate(s.mac, s.Hash([]), secret, s.Hash(hello), secret', s.Hash(hello'));
    }
  }

  // ----- what the client made of each datagram

  /** d holds a ServerHello in the clear; n has the keys of the secret shared with the key in it,
      over the client's own hello and this message. */
  ghost predicate Greets(s: Suite, c: ClientConfig, d: Bytes, n: Session) {
    && ReceivePlaintext(d).Ok?
    && var i := ReceivePlaintext(d).value;
    && IsWhole(i.fragment, SERVER_HELLO)
    && ParseServerHello(i.fragment.body).Ok?
    && var hello := ParseServerHello(i.fragment.body).value;
    && var secret, t := s.dh(c.priv, hello.key), ClientHelloMessage(s, c) + i.message;
    && hello.suite == CHACHA20_POLY1305_SHA256 && !AllZero(secret)
    && n.keys == s.Keys(secret, t) && n.transcript == t && n.snapshots == [t]
    && n.read == ReadState(n.keys.serverKey, n.keys.serverIv, 0, 2)
  }

  /** d opens on n's read side to a whole message of this kind, and m is n with it added. */
  ghost predicate Extends(s: Suite, n: Session, d: Bytes, kind: uint8, m: Session) {
    && ReceiveProtected(s, n.read, d).Ok?
    && var r := ReceiveProtected(s, n.read, d).value;
    && IsWhole(r.incoming.fragment, kind)
    && m.keys == n.keys && m.transcript == n.transcript + r.incoming.message && m.read == r.read
  }

  /** The body of the message d opens to. */
  ghost function Body(s: Suite, n: Session, d: Bytes): Bytes
    requires ReceiveProtected(s, n.read, d).Ok?
  {
    ReceiveProtected(s, n.read, d).value.incoming.fragment.body
  }

  ghost predicate Announces(s: Suite, n: Session, d: Bytes, m: Session) {
    && Extends(s, n, d, ENCRYPTED_EXTENSIONS, m) && m.snapshots == n.snapshots
    && ParseEncryptedExtensions(Body(s, n, d)).Ok?
  }

  /** The certificates in this message verified, with this leaf. */
  ghost predicate Certifies(s: Suite, n: Session, d: Bytes, leaf: Leaf, m: Session) {
    && Extends(s, n, d, CERTIFICATE, m) && m.snapshots == n.snapshots + [m.transcript]
    && ParseCertificate(Body(s, n, d)).Ok?
    && s.chain(ParseCertificate(Body(s, n, d)).value) == Ok(leaf)
  }

  /** The signature in this message verified under the leaf, over the transcript before it. */
  ghost predicate Signs(s: Suite, n: Session, d: Bytes, leaf: Leaf, m: Session) {
    && Extends(s, n, d, CERTIFICATE_VERIFY, m) && m.snapshots == n.snapshots + [m.transcript]
    && ParseCertificateVerify(Body(s, n, d)).Ok?
    && var cv := ParseCertificateVerify(Body(s, n, d)).value;
    && cv.algorithm == ECDSA_SECP256R1_SHA256 && Asn1.ReadSig(cv.signature).Ok?
    && s.verify(leaf, SignedHash(s, n.transcript), Asn1.ReadSig(cv.signature).value).Ok?
  }

  /** This message is the server's MAC of the transcript before it. */
  ghost predicate Confirms(s: Suite, n: Session, d: Bytes, m: Session) {
    && Extends(s, n, d, FINISHED, m) && m.snapshots == n.snapshots + [m.transcript]
    && Body(s, n, d) == Finished(s.mac, n.keys.serverSecret, s.Hash(n.transcript))
  }

  // ----- a client's run

  /** The sessions the client went through, one for each of the last datagrams it received before
      receive number k. */
  ghost predicate Trail(s: Suite, c: ClientConfig, net: Net, k: nat, leaf: Leaf, trail: seq<Session>) {
    var j := |trail|;
    && 1 <= j <= 5 && j <= k && (forall i :: k - j <= i < k ==> net.recv(i).Ok?)
    && Greets(s, c, net.recv(k - j).value, trail[0])
    && (j >= 2 ==> Announces(s, trail[0], net.recv(k - j + 1).value, trail[1]))
    && (j >= 3 ==> Certifies(s, trail[1], net.recv(k - j + 2).value, leaf, trail[2]))
    && (j >= 4 ==> Signs(s, trail[2], net.recv(k - j + 3).value, leaf, trail[3]))
    && (j >= 5 ==> Confirms(s, trail[3], net.recv(k - j + 4).value, trail[4]))
  }

  /** How many datagrams a phase has behind it since the server's hello. */
  function Stage(p: ClientPhase): nat {
    match p
    case AwaitExtensions(_) => 1
    case AwaitCertificate(_) => 2
    case AwaitVerify(_, _) => 3
    case AwaitFinished(_, _) => 4
    case Reply(_, _) => 5
    case ClientDone(_, _) => 5
    case _ => 0
  }

  /** The phase was earned by datagrams received since receive number `since`. */
  ghost predicate Earned(s: Suite, c: ClientConfig, net: Net, since: nat, p: ClientPhase, k: nat, trail: seq<Session>) {
    && since + Stage(p) <= k
    && (Stage(p) > 0 ==>
          && |trail| == Stage(p) && trail[Stage(p) - 1] == p.session
          && Trail(s, c, net, k, if Stage(p) >= 3 then p.leaf else Leaf([], []), trail))
  }

  // ----- each predicate is exactly what the client checks

  lemma GreetsIff(s: Suite, c: ClientConfig, d: Bytes, n: Session)
    ensures Greets(s, c, d, n)
       <==> ReceivePlaintext(d).Ok? && ClientSession(s, c, ReceivePlaintext(d).value) == Ok(n)
  {
    hide ReceivePlaintext, ClientHelloMessage, AllZero, ParseServerHello;
    assert n == Session(n.keys, n.transcript, n.snapshots, n.read);
  }

  lemma AnnouncesIff(s: Suite, n: Session, d: Bytes, m: Session)
    ensures Announces(s, n, d, m) <==> TakeExtensions(s, n, d) == Ok(m)
  {
    hide ReceiveProtected, ParseEncryptedExtensions;
    assert m == Session(m.keys, m.transcript, m.snapshots, m.read);
  }

  lemma CertifiesIff(s: Suite, n: Session, d: Bytes, leaf: Leaf, m: Session)
    ensures Certifies(s, n, d, leaf, m) <==> TakeCertificate(s, n, d) == Ok(Verified(m, leaf))
  {
    hide ReceiveProtected, ParseCertificate;
    assert m == Session(m.keys, m.transcript, m.snapshots, m.read);
  }

  lemma SignsIff(s: Suite, n: Session, d: Bytes, leaf: Leaf, m: Session)
    ensures Signs(s, n, d, leaf, m) <==> TakeVerify(s, n, leaf, d) == Ok(m)
  {
    hide ReceiveProtected, ParseCertificateVerify, SignedHash, Asn1.ReadSig;
    assert m == Session(m.keys, m.transcript, m.snapshots, m.read);
  }

  lemma ConfirmsIff(s: Suite, n: Session, d: Bytes, m: Session)
    ensures Confirms(s, n, d, m) <==> TakeFinished(s, n, d) == Ok(m)
  {
    hide ReceiveProtected, Finished;
    assert m == Session(m.keys, m.transcript, m.snapshots, m.read);
  }

  /** One more datagram, one more session; until the certificate is in, the leaf is open. */
  lemma Longer(s: Suite, c: ClientConfig, net: Net, k: nat, was: Leaf, leaf: Leaf, trail: seq<Session>, m: Session)
    requires Trail(s, c, net, k, was, trail) && |trail| < 5 && (|trail| >= 3 ==> was == leaf) && net.recv(k).Ok?
    requires var n, d := trail[|trail| - 1], net.recv(k).value;
             match |trail|
             case 1 => Announces(s, n, d, m)
             case 2 => Certifies(s, n, d, leaf, m)
             case 3 => Signs(s, n, d, leaf, m)
             case _ => Confirms(s, n, d, m)
    ensures Trail(s, c, net, k + 1, leaf, trail + [m])
  {
    hide Greets, Announces, Certifies, Signs, Confirms;
  }

  /** Whoever sent the datagram, it moves the client on only if the check of that stage passed. */
  lemma TakesEarned(s: Suite, c: ClientConfig, net: Net, since: nat, p: ClientPhase, k: nat, trail: seq<Session>)
    returns (more: seq<Session>)
    requires ClientListens(p) && Earned(s, c, net, since, p, k, trail) && net.recv(k).Ok?
    ensures Earned(s, c, net, since, ClientTakes(s, c, p, net.recv(k).value), k + 1, more)
  {
    hide Greets, Announces, Certifies, Signs, Confirms, Trail, ReceivePlaintext, ClientSession, TakeExtensions,
         TakeCertificate, TakeVerify, TakeFinished;
    var d := net.recv(k).value;
    var none := Leaf([], []);
    more := trail;
    match p
    case AwaitServerHello(_) =>
      if ReceivePlaintext(d).Ok? && ClientSession(s, c, ReceivePlaintext(d).value).Ok? {
        more := FirstSession(s, c, net, k);
      }
    case AwaitExtensions(n) =>
      if TakeExtensions(s, n, d).Ok? {
        AnnouncesIff(s, n, d, TakeExtensions(s, n, d).value);
        more := trail + [TakeExtensions(s, n, d).value];
        Longer(s, c, net, k, none, none, trail, TakeExtensions(s, n, d).value);
      }
    case AwaitCertificate(n) =>
      if TakeCertificate(s, n, d).Ok? {
        var v := TakeCertificate(s, n, d).value;
        CertifiesIff(s, n, d, v.leaf, v.session);
        more := trail + [v.session];
        Longer(s, c, net, k, none, v.leaf, trail, v.session);
      }
    case AwaitVerify(n, leaf) =>
      if TakeVerify(s, n, leaf, d).Ok? {
        SignsIff(s, n, d, leaf, TakeVerify(s, n, leaf, d).value);
        more := trail + [TakeVerify(s, n, leaf, d).value];
        Longer(s, c, net, k, leaf, leaf, trail, TakeVerify(s, n, leaf, d).value);
      }
    case AwaitFinished(n, leaf) =>
      if TakeFinished(s, n, d).Ok? {
        ConfirmsIff(s, n, d, TakeFinished(s, n, d).value);
        more := trail + [TakeFinished(s, n, d).value];
        Longer(s, c, net, k, leaf, leaf, trail, TakeFinished(s, n, d).value);
      }
  }

  lemma FirstSession(s: Suite, c: ClientConfig, net: Net, k: nat) returns (trail: seq<Session>)
    requires net.recv(k).Ok? && ReceivePlaintext(net.recv(k).value).Ok?
    requires ClientSession(s, c, ReceivePlaintext(net.recv(k).value).value).Ok?
    ensures trail == [ClientSession(s, c, ReceivePlaintext(net.recv(k).value).value).value]
    ensures Trail(s, c, net, k + 1, Leaf([], []), trail)
  {
    hide Greets, ReceivePlaintext, ClientSession;
    trail := [ClientSession(s, c, ReceivePlaintext(net.recv(k).value).value).value];
    GreetsIff(s, c, net.recv(k).value, trail[0]);
  }

  lemma {:induction false} RunEarned(s: Suite, c: ClientConfig, net: Net, since: nat, p: ClientPhase, io: Io,
                                     trail: seq<Session>)
    returns (more: seq<Session>)
    requires Earned(s, c, net, since, p, io.recvs, trail)
    ensures var e := Client.Run(s, c, net, p, io); Earned(s, c, net, since, e.phase, e.io.recvs, more)
    decreases Client.Rank(p)
  {
    hide Trail, ClientTakes, ClientOutput;
    more := trail;
    if Client.Rank(p) > 0 {
      if ClientListens(p) && net.recv(io.recvs).Ok? {
        more := TakesEarned(s, c, net, since, p, io.recvs, trail);
      }
      Client.CallRanked(s, c, net, p, io);
      var e := Client.Call(s, c, net, p, io);
      more := RunEarned(s, c, net, since, e.phase, e.io, more);
    }
  }

  /** Whatever a client that finished was sent, its last five datagrams were these: a ServerHello,
      with whose key the client shares a nonzero secret; EncryptedExtensions; a Certificate whose
      chain verified with the leaf it reports; a CertificateVerify with the leaf's signature over
      everything up to the Certificate; and a Finished that is the MAC of everything before it. The
      four transcripts it hashed are its own hello and exactly these messages. */
  lemma ClientAuthenticates(s: Suite, c: ClientConfig, net: Net, io: Io) returns (trail: seq<Session>)
    requires Client.Run(s, c, net, ClientPhase.Hello(0), io).phase.ClientDone?
    ensures var e := Client.Run(s, c, net, ClientPhase.Hello(0), io);
            && io.recvs + 5 <= e.io.recvs && |trail| == 5 && trail[4] == e.phase.session
            && Trail(s, c, net, e.io.recvs, e.phase.leaf, trail)
            && e.phase.session.snapshots
               == [trail[0].transcript, trail[2].transcript, trail[3].transcript, trail[4].transcript]
  {
    hide Trail, Client.Run;
    trail := RunEarned(s, c, net, io.recvs, ClientPhase.Hello(0), io, []);
    TrailSnapshots(s, c, net, Client.Run(s, c, net, ClientPhase.Hello(0), io).io.recvs,
                   Client.Run(s, c, net, ClientPhase.Hello(0), io).phase.leaf, trail);
  }

  lemma TrailSnapshots(s: Suite, c: ClientConfig, net: Net, k: nat, leaf: Leaf, trail: seq<Session>)
    requires |trail| == 5 && Trail(s, c, net, k, leaf, trail)
    ensures trail[4].snapshots == [trail[0].transcript, trail[2].transcript, trail[3].transcript, trail[4].transcript]
  {
    hide Greets, Announces, Certifies, Signs, Confirms;
    var t0, t1, t2, t3, t4 := trail[0], trail[1], trail[2], trail[3], trail[4];
    GreetsSnapshot(s, c, net.recv(k - 5).value, t0);
    LaterSnapshots(s, net.recv(k - 4).value, net.recv(k - 3).value, leaf, t0, t1, t2);
    LastSnapshots(s, net.recv(k - 2).value, net.recv(k - 1).value, leaf, t2, t3, t4);
  }

  lemma GreetsSnapshot(s: Suite, c: ClientConfig, d: Bytes, n: Session)
    requires Greets(s, c, d, n)
    ensures n.snapshots == [n.transcript]
  {
    hide ReceivePlaintext, ParseServerHello, AllZero, ClientHelloMessage;
  }

  lemma LaterSnapshots(s: Suite, d: Bytes, d': Bytes, leaf: Leaf, t0: Session, t1: Session, t2: Session)
    requires Announces(s, t0, d, t1) && Certifies(s, t1, d', leaf, t2)
    ensures t2.snapshots == t0.snapshots + [t2.transcript]
  {
    hide Extends, ReceiveProtected, ParseCertificate, ParseEncryptedExtensions;
  }

  lemma LastSnapshots(s: Suite, d: Bytes, d': Bytes, leaf: Leaf, t2: Session, t3: Session, t4: Session)
    requires Signs(s, t2, d, leaf, t3) && Confirms(s, t3, d', t4)
    ensures t4.snapshots == t2.snapshots + [t3.transcript] + [t4.transcript]
  {
    hide Extends, ReceiveProtected, ParseCertificateVerify, SignedHash, Finished, Asn1.ReadSig;
  }

  // ----- exactly when a client finishes

  /** Which send and which receive brought the first answer. */
  datatype Exchange = Exchange(sends: nat, recv: nat)

  /** The first of up to `tries` hellos that is sent and answered with a plaintext handshake record.
      A failed send costs no receive; a failed receive or another datagram costs the attempt. */
  ghost function FirstReply(net: Net, tries: nat, sends: nat, recvs: nat): Option<Exchange> {
    if tries == 0 then None
    else if net.send(sends).Err? then FirstReply(net, tries - 1, sends + 1, recvs)
    else if net.recv(recvs).Ok? && ReceivePlaintext(net.recv(recvs).value).Ok? then Some(Exchange(sends + 1, recvs))
    else FirstReply(net, tries - 1, sends + 1, recvs + 1)
  }

  /** The four protected messages from receive number k on, heard by the first session of the trail. */
  ghost predicate Hears(s: Suite, net: Net, k: nat, leaf: Leaf, trail: seq<Session>) {
    && |trail| == 5 && (forall i :: k <= i < k + 4 ==> net.recv(i).Ok?)
    && Announces(s, trail[0], net.recv(k).value, trail[1])
    && Certifies(s, trail[1], net.recv(k + 1).value, leaf, trail[2])
    && Signs(s, trail[2], net.recv(k + 2).value, leaf, trail[3])
    && Confirms(s, trail[3], net.recv(k + 3).value, trail[4])
  }

  lemma TrailIs(s: Suite, c: ClientConfig, net: Net, k: nat, leaf: Leaf, trail: seq<Session>)
    requires |trail| == 5
    ensures Trail(s, c, net, k + 5, leaf, trail)
       <==> net.recv(k).Ok? && Greets(s, c, net.recv(k).value, trail[0]) && Hears(s, net, k + 1, leaf, trail)
  {
    hide Greets, Announces, Certifies, Signs, Confirms;
  }

  /** Up to five hellos, and then the client is where the first reply takes it. */
  lemma {:induction false} HelloLeads(s: Suite, c: ClientConfig, net: Net, attempt: nat, io: Io) returns (next: Io)
    requires attempt < 5
    ensures match FirstReply(net, 5 - attempt, io.sends, io.recvs)
            case None => Client.Run(s, c, net, ClientPhase.Hello(attempt), io).phase.ClientFailed?
            case Some(x) =>
              && next.sends == x.sends && next.recvs == x.recv + 1
              && net.recv(x.recv).Ok? && ReceivePlaintext(net.recv(x.recv).value).Ok?
              && Client.Run(s, c, net, ClientPhase.Hello(attempt), io)
                 == Client.Run(s, c, net, Client.Replied(s, c, ReceivePlaintext(net.recv(x.recv).value).value), next)
    decreases 5 - attempt
  {
    hide Client.Run, ClientOutput, ReceivePlaintext, ClientSession;
    var p := ClientPhase.Hello(attempt);
    var out := io.Sent(ClientOutput(s, c, p));
    next := out.Heard();
    Client.Calls(s, c, net, p, io);
    if net.send(io.sends).Err? {
      if attempt + 1 < 5 {
        next := HelloLeads(s, c, net, attempt + 1, out);
      } else {
        Client.Ends(s, c, net, ClientFailed(net.send(io.sends).status), out);
      }
    } else {
      Client.Calls(s, c, net, AwaitServerHello(attempt), out);
      if !(net.recv(io.recvs).Ok? && ReceivePlaintext(net.recv(io.recvs).value).Ok?) {
        if attempt + 1 < 5 {
          next := HelloLeads(s, c, net, attempt + 1, out.Heard());
        } else {
          var e := if net.recv(io.recvs).Err? then net.recv(io.recvs).status
                   else ReceivePlaintext(net.recv(io.recvs).value).status;
          Client.Ends(s, c, net, ClientFailed(e), out.Heard());
        }
      }
    }
  }

  /** One protected message: the next phase, or failure. */
  lemma Listened(s: Suite, c: ClientConfig, net: Net, p: ClientPhase, io: Io)
    requires p.AwaitExtensions? || p.AwaitCertificate? || p.AwaitVerify? || p.AwaitFinished?
    ensures var r, e := net.recv(io.recvs), Client.Run(s, c, net, p, io);
            if r.Ok? then e == Client.Run(s, c, net, ClientTakes(s, c, p, r.value), io.Heard())
            else e == Client.End(ClientFailed(r.status), io.Heard())
  {
    hide Client.Run, ClientTakes;
    Client.Calls(s, c, net, p, io);
    if net.recv(io.recvs).Err? {
      Client.Ends(s, c, net, ClientFailed(net.recv(io.recvs).status), io.Heard());
    }
  }

  /** The last send decides. */
  lemma Replies(s: Suite, c: ClientConfig, net: Net, n: Session, leaf: Leaf, io: Io)
    ensures Client.Run(s, c, net, Reply(n, leaf), io).phase
         == if net.send(io.sends).Ok? then ClientDone(n, leaf) else ClientFailed(net.send(io.sends).status)
  {
    hide Client.Run, ClientOutput;
    Client.Calls(s, c, net, Reply(n, leaf), io);
    var e := Client.Call(s, c, net, Reply(n, leaf), io);
    Client.Ends(s, c, net, e.phase, e.io);
  }

  /** A client that hears the flight replies. */
  lemma HearingLeads(s: Suite, c: ClientConfig, net: Net, io: Io, leaf: Leaf, trail: seq<Session>)
    requires Hears(s, net, io.recvs, leaf, trail)
    ensures Client.Run(s, c, net, AwaitExtensions(trail[0]), io).phase
         == if net.send(io.sends).Ok? then ClientDone(trail[4], leaf) else ClientFailed(net.send(io.sends).status)
  {
    hide Client.Run, Announces, Certifies, Signs, Confirms, TakeExtensions, TakeCertificate, TakeVerify, TakeFinished;
    var k := io.recvs;
    AnnouncesIff(s, trail[0], net.recv(k).value, trail[1]);
    CertifiesIff(s, trail[1], net.recv(k + 1).value, leaf, trail[2]);
    SignsIff(s, trail[2], net.recv(k + 2).value, leaf, trail[3]);
    ConfirmsIff(s, trail[3], net.recv(k + 3).value, trail[4]);
    Listened(s, c, net, AwaitExtensions(trail[0]), io);
    Listened(s, c, net, AwaitCertificate(trail[1]), io.Heard());
    Listened(s, c, net, AwaitVerify(trail[2], leaf), io.Heard().Heard());
    Listened(s, c, net, AwaitFinished(trail[3], leaf), io.Heard().Heard().Heard());
    Replies(s, c, net, trail[4], leaf, io.Heard().Heard().Heard().Heard());
  }

  lemma FailedStays(s: Suite, c: ClientConfig, net: Net, e: Status, io: Io)
    ensures Client.Run(s, c, net, ClientFailed(e), io).phase == ClientFailed(e)
  {
    Client.Ends(s, c, net, ClientFailed(e), io);
  }

  /** And a client that finishes has heard it. */
  lemma FinishedHeard(s: Suite, c: ClientConfig, net: Net, n: Session, io: Io) returns (leaf: Leaf, trail: seq<Session>)
    requires Client.Run(s, c, net, AwaitExtensions(n), io).phase.ClientDone?
    ensures |trail| == 5 && trail[0] == n && Hears(s, net, io.recvs, leaf, trail)
  {
    hide Client.Run, Announces, Certifies, Signs, Confirms, TakeExtensions, TakeCertificate, TakeVerify, TakeFinished;
    var k := io.recvs;
    var m1 := FirstHeard(s, c, net, n, io);
    var m2;
    m2, leaf := SecondHeard(s, c, net, m1, io.Heard());
    var io2 := io.Heard().Heard();
    Listened(s, c, net, AwaitVerify(m2, leaf), io2);
    if TakeVerify(s, m2, leaf, net.recv(k + 2).value).Err? {
      FailedStays(s, c, net, TakeVerify(s, m2, leaf, net.recv(k + 2).value).status, io2.Heard());
    }
    var m3 := TakeVerify(s, m2, leaf, net.recv(k + 2).value).value;
    SignsIff(s, m2, net.recv(k + 2).value, leaf, m3);
    Listened(s, c, net, AwaitFinished(m3, leaf), io2.Heard());
    if TakeFinished(s, m3, net.recv(k + 3).value).Err? {
      FailedStays(s, c, net, TakeFinished(s, m3, net.recv(k + 3).value).status, io2.Heard().Heard());
    }
    var m4 := TakeFinished(s, m3, net.recv(k + 3).value).value;
    ConfirmsIff(s, m3, net.recv(k + 3).value, m4);
    trail := [n, m1, m2, m3, m4];
  }

  lemma FirstHeard(s: Suite, c: ClientConfig, net: Net, n: Session, io: Io) returns (m: Session)
    requires Client.Run(s, c, net, AwaitExtensions(n), io).phase.ClientDone?
    ensures net.recv(io.recvs).Ok? && Announces(s, n, net.recv(io.recvs).value, m)
    ensures Client.Run(s, c, net, AwaitExtensions(n), io) == Client.Run(s, c, net, AwaitCertificate(m), io.Heard())
  {
    hide Client.Run, Announces, TakeExtensions;
    Listened(s, c, net, AwaitExtensions(n), io);
    var d := net.recv(io.recvs).value;
    if TakeExtensions(s, n, d).Err? {
      FailedStays(s, c, net, TakeExtensions(s, n, d).status, io.Heard());
    }
    m := TakeExtensions(s, n, d).value;
    AnnouncesIff(s, n, d, m);
  }

  lemma SecondHeard(s: Suite, c: ClientConfig, net: Net, n: Session, io: Io) returns (m: Session, leaf: Leaf)
    requires Client.Run(s, c, net, AwaitCertificate(n), io).phase.ClientDone?
    ensures net.recv(io.recvs).Ok? && Certifies(s, n, net.recv(io.recvs).value, leaf, m)
    ensures Client.Run(s, c, net, AwaitCertificate(n), io) == Client.Run(s, c, net, AwaitVerify(m, leaf), io.Heard())
  {
    hide Client.Run, Certifies, TakeCertificate;
    Listened(s, c, net, AwaitCertificate(n), io);
    var d := net.recv(io.recvs).value;
    if TakeCertificate(s, n, d).Err? {
      FailedStays(s, c, net, TakeCertificate(s, n, d).status, io.Heard());
    }
    m, leaf := TakeCertificate(s, n, d).value.session, TakeCertificate(s, n, d).value.leaf;
    CertifiesIff(s, n, d, leaf, m);
  }

  /** The datagram at receive number k and the four after it. */
  ghost predicate TrailFrom(s: Suite, c: ClientConfig, net: Net, k: nat, leaf: Leaf, trail: seq<Session>) {
    |trail| == 5 && Trail(s, c, net, k + 5, leaf, trail)
  }

  ghost predicate Concludes(s: Suite, c: ClientConfig, net: Net, k: nat) {
    exists leaf: Leaf, trail: seq<Session> :: TrailFrom(s, c, net, k, leaf, trail)
  }

  /** Exactly when the client finishes: one of its first five hellos is sent and answered with a
      plaintext handshake record, that record and the next four datagrams pass every check, and the
      client's own Finished is sent. */
  lemma ClientFinishesIff(s: Suite, c: ClientConfig, net: Net, io: Io)
    ensures var x := FirstReply(net, 5, io.sends, io.recvs);
            Client.Run(s, c, net, ClientPhase.Hello(0), io).phase.ClientDone? <==>
              x.Some? && Concludes(s, c, net, x.value.recv) && net.send(x.value.sends).Ok?
  {
    hide Client.Run, Trail, Hears, Greets, ReceivePlaintext, ClientSession;
    var next := HelloLeads(s, c, net, 0, io);
    var x := FirstReply(net, 5, io.sends, io.recvs);
    if x.Some? {
      var d := net.recv(x.value.recv).value;
      match ClientSession(s, c, ReceivePlaintext(d).value)
      case Err(e) =>
        FailedStays(s, c, net, e, next);
        NotConcluded(s, c, net, x.value.recv);
      case Ok(n) =>
        GreetsIff(s, c, d, n);
        AnsweredIff(s, c, net, x.value.recv, n, next);
    }
  }

  lemma NotConcluded(s: Suite, c: ClientConfig, net: Net, k: nat)
    requires net.recv(k).Ok? && ReceivePlaintext(net.recv(k).value).Ok?
    requires ClientSession(s, c, ReceivePlaintext(net.recv(k).value).value).Err?
    ensures !Concludes(s, c, net, k)
  {
    hide Trail, Hears, Greets, ReceivePlaintext, ClientSession;
    if Concludes(s, c, net, k) {
      var leaf: Leaf, trail: seq<Session> :| TrailFrom(s, c, net, k, leaf, trail);
      TrailIs(s, c, net, k, leaf, trail);
      GreetsIff(s, c, net.recv(k).value, trail[0]);
      assert false;
    }
  }

  lemma AnsweredIff(s: Suite, c: ClientConfig, net: Net, k: nat, n: Session, io: Io)
    requires net.recv(k).Ok? && Greets(s, c, net.recv(k).value, n) && io.recvs == k + 1
    ensures Client.Run(s, c, net, AwaitExtensions(n), io).phase.ClientDone?
       <==> Concludes(s, c, net, k) && net.send(io.sends).Ok?
  {
    hide Client.Run, Trail, Hears, Greets, ReceivePlaintext, ClientSession;
    if Client.Run(s, c, net, AwaitExtensions(n), io).phase.ClientDone? {
      var leaf, trail := FinishedHeard(s, c, net, n, io);
      TrailIs(s, c, net, k, leaf, trail);
      assert TrailFrom(s, c, net, k, leaf, trail);
      HearingLeads(s, c, net, io, leaf, trail);
    }
    if Concludes(s, c, net, k) {
      var leaf: Leaf, trail: seq<Session> :| TrailFrom(s, c, net, k, leaf, trail);
      TrailIs(s, c, net, k, leaf, trail);
      GreetsIff(s, c, net.recv(k).value, trail[0]);
      GreetsIff(s, c, net.recv(k).value, n);
      HearingLeads(s, c, net, io, leaf, trail);
    }
  }

  // ----- a server's run

  /** Receive number k brought something that does not open. */
  ghost predicate Skipped(s: Suite, n: Session, net: Net, k: nat) {
    net.recv(k).Ok? && Unprotect(s.block, n.read, net.recv(k).value, MAX_MSG).Err?
  }

  /** Receive number k brought the client's MAC of the session's transcript. */
  ghost predicate FinishedAt(s: Suite, n: Session, net: Net, k: nat) {
    && net.recv(k).Ok? && ReceiveProtected(s, n.read, net.recv(k).value).Ok?
    && IsWhole(ReceiveProtected(s, n.read, net.recv(k).value).value.incoming.fragment, FINISHED)
    && Body(s, n, net.recv(k).value) == Finished(s.mac, n.keys.clientSecret, s.Hash(n.transcript))
  }

  /** It is among the first `limit` receives from `first` on, and all before it are skipped. */
  ghost predicate FinishedWithin(s: Suite, n: Session, net: Net, first: nat, limit: nat, k: nat) {
    first <= k < first + limit && FinishedAt(s, n, net, k) && forall l :: first <= l < k ==> Skipped(s, n, net, l)
  }

  ghost predicate Finishes(s: Suite, n: Session, net: Net, first: nat, limit: nat) {
    exists k :: FinishedWithin(s, n, net, first, limit, k)
  }

  lemma TakenIsFinished(s: Suite, n: Session, net: Net, k: nat)
    requires net.recv(k).Ok? && Unprotect(s.block, n.read, net.recv(k).value, MAX_MSG).Ok?
    ensures TakeClientFinished(s, n, Unprotect(s.block, n.read, net.recv(k).value, MAX_MSG).value).Ok?
       <==> FinishedAt(s, n, net, k)
  {
    hide Unprotect, Parse, Finished;
  }

  /** A wait that starts with a skipped datagram is a wait for one receive less. */
  lemma SkipOne(s: Suite, n: Session, net: Net, first: nat, limit: nat)
    requires limit > 0 && Skipped(s, n, net, first)
    ensures Finishes(s, n, net, first, limit) <==> Finishes(s, n, net, first + 1, limit - 1)
    ensures forall k :: FinishedWithin(s, n, net, first + 1, limit - 1, k) ==>
              FinishedWithin(s, n, net, first, limit, k)
  {
    hide Skipped, FinishedAt;
    SkippedIsNotFinished(s, n, net, first);
    if Finishes(s, n, net, first, limit) {
      var k :| FinishedWithin(s, n, net, first, limit, k);
      assert FinishedWithin(s, n, net, first + 1, limit - 1, k);
    }
    if Finishes(s, n, net, first + 1, limit - 1) {
      var k :| FinishedWithin(s, n, net, first + 1, limit - 1, k);
      assert FinishedWithin(s, n, net, first, limit, k);
    }
  }

  lemma SkippedIsNotFinished(s: Suite, n: Session, net: Net, k: nat)
    ensures !(Skipped(s, n, net, k) && FinishedAt(s, n, net, k))
  {
    hide Unprotect, Parse, Finished;
  }

  /** A first datagram that is not skipped decides. */
  lemma FirstDecides(s: Suite, n: Session, net: Net, first: nat, limit: nat)
    requires limit > 0 && !Skipped(s, n, net, first)
    ensures Finishes(s, n, net, first, limit) <==> FinishedAt(s, n, net, first)
    ensures FinishedAt(s, n, net, first) ==> FinishedWithin(s, n, net, first, limit, first)
  {
    hide Skipped, FinishedAt;
    if FinishedAt(s, n, net, first) {
      assert FinishedWithin(s, n, net, first, limit, first);
    }
  }

  /** The bounded wait succeeds exactly when the Finished comes in time, and ends with it. */
  lemma {:induction false} WaitEnds(s: Suite, v: ServerConfig, net: Net, n: Session, received: nat, io: Io)
    requires received < MAX_FINISHED_RECEIVES
    ensures var e := Server.Run(s, v, net, AwaitClientFinished(n, received), io);
            && (e.phase.ServerDone? <==> Finishes(s, n, net, io.recvs, MAX_FINISHED_RECEIVES - received))
            && (e.phase.ServerDone? ==>
                  e.phase.session == n && e.io.recvs > 0
                  && FinishedWithin(s, n, net, io.recvs, MAX_FINISHED_RECEIVES - received, e.io.recvs - 1))
    decreases MAX_FINISHED_RECEIVES - received
  {
    hide Unprotect, TakeClientFinished, FinishedAt, FinishedWithin, Finishes, Server.Run;
    var p, limit := AwaitClientFinished(n, received), MAX_FINISHED_RECEIVES - received;
    var r := net.recv(io.recvs);
    Server.Calls(s, v, net, p, io);
    var e := Server.Call(s, v, net, p, io);
    if Skipped(s, n, net, io.recvs) {
      SkipOne(s, n, net, io.recvs, limit);
      if received + 1 < MAX_FINISHED_RECEIVES {
        WaitEnds(s, v, net, n, received + 1, io.Heard());
      } else {
        Server.Ends(s, v, net, e.phase, e.io);
        NoTime(s, n, net, io.recvs + 1);
      }
    } else {
      FirstDecides(s, n, net, io.recvs, limit);
      if r.Ok? {
        TakenIsFinished(s, n, net, io.recvs);
      } else {
        NothingCame(s, n, net, io.recvs);
      }
      Server.Ends(s, v, net, e.phase, e.io);
    }
  }

  lemma NoTime(s: Suite, n: Session, net: Net, first: nat)
    ensures !Finishes(s, n, net, first, 0)
  {
    hide Skipped, FinishedAt;
  }

  lemma NothingCame(s: Suite, n: Session, net: Net, k: nat)
    requires net.recv(k).Err?
    ensures !FinishedAt(s, n, net, k)
  {
    hide ReceiveProtected, Finished;
  }

  ghost predicate AllSent(net: Net, first: nat, count: nat) {
    forall i :: first <= i < first + count ==> net.send(i).Ok?
  }

  /** A flight leads to the wait exactly when every send succeeds and the session was set up. */
  lemma {:induction false} FlightEnds(s: Suite, v: ServerConfig, net: Net, rest: seq<Bytes>,
                                      outcome: Result<Session>, io: Io)
    ensures var e := Server.Run(s, v, net, Launch(rest, outcome), io);
            && (e.phase.ServerDone? <==>
                  && AllSent(net, io.sends, |rest|) && outcome.Ok?
                  && Finishes(s, outcome.value, net, io.recvs, MAX_FINISHED_RECEIVES))
            && (e.phase.ServerDone? ==>
                  && outcome == Ok(e.phase.session) && e.io.recvs > 0
                  && FinishedWithin(s, e.phase.session, net, io.recvs, MAX_FINISHED_RECEIVES, e.io.recvs - 1))
    decreases |rest|
  {
    hide Finishes, FinishedWithin, Server.Run;
    var p := Launch(rest, outcome);
    if |rest| > 0 {
      Server.Calls(s, v, net, p, io);
      if net.send(io.sends).Ok? {
        FlightEnds(s, v, net, rest[1..], outcome, io.Sent(rest[0]));
      } else {
        Server.Ends(s, v, net, ServerFailed(net.send(io.sends).status), io.Sent(rest[0]));
      }
    } else if outcome.Ok? {
      WaitEnds(s, v, net, outcome.value, 0, io);
    } else {
      Server.Ends(s, v, net, p, io);
    }
  }

  /** Exactly when the server finishes: the first datagram it received is a hello it can answer in
      full, every send succeeds, and within the next eight receives, after only datagrams that do
      not open, comes the client's MAC of the transcript of that answer. */
  lemma ServerFinishesIff(s: Suite, v: ServerConfig, net: Net, io: Io)
    ensures var e := Server.Run(s, v, net, ServerStart(v), io);
            e.phase.ServerDone? <==>
              && 1 <= |v.certs| <= MAX_CERTS && net.recv(io.recvs).Ok?
              && var plan := ServerPlan(s, v, net.recv(io.recvs).value);
              && plan.outcome.Ok? && AllSent(net, io.sends, |plan.datagrams|)
              && Finishes(s, plan.outcome.value, net, io.recvs + 1, MAX_FINISHED_RECEIVES)
    ensures var e := Server.Run(s, v, net, ServerStart(v), io);
            e.phase.ServerDone? ==>
              && net.recv(io.recvs).Ok? && ServerPlan(s, v, net.recv(io.recvs).value).outcome == Ok(e.phase.session)
              && e.io.recvs > 0
              && FinishedWithin(s, e.phase.session, net, io.recvs + 1, MAX_FINISHED_RECEIVES, e.io.recvs - 1)
  {
    hide Finishes, FinishedWithin, AllSent, ServerPlan, Server.Run;
    if ServerStart(v).AwaitClientHello? {
      Server.Calls(s, v, net, AwaitClientHello, io);
      var r := net.recv(io.recvs);
      if r.Ok? {
        var plan := ServerPlan(s, v, r.value);
        FlightEnds(s, v, net, plan.datagrams, plan.outcome, io.Heard());
      } else {
        Server.Ends(s, v, net, ServerFailed(r.status), io.Heard());
      }
    } else {
      Server.Ends(s, v, net, ServerStart(v), io);
    }
  }

  /** d is a hello the server answered in full: n has the keys of the nonzero secret shared with the
      key in it, over this hello and the server's own. */
  ghost predicate Answered(s: Suite, v: ServerConfig, d: Bytes, n: Session) {
    && ReceivePlaintext(d).Ok?
    && var i := ReceivePlaintext(d).value;
    && IsWhole(i.fragment, CLIENT_HELLO)
    && ParseClientHello(i.fragment.body).Ok?
    && var secret := s.dh(v.priv, ParseClientHello(i.fragment.body).value.key);
    && var t := i.message + ServerHelloMessage(s, v);
    && !AllZero(secret)
    && n.keys == s.Keys(secret, t) && |n.snapshots| == 4 && n.snapshots[0] == t && n.snapshots[3] == n.transcript
    && n.read == ReadState(n.keys.clientKey, n.keys.clientIv, 0, 2)
  }

  lemma PlanAnswers(s: Suite, v: ServerConfig, d: Bytes)
    requires ServerPlan(s, v, d).outcome.Ok?
    ensures Answered(s, v, d, ServerPlan(s, v, d).outcome.value)
  {
    hide ReceivePlaintext, ParseClientHello, ProtectedPlan, Plain, AllZero, ServerHelloMessage;
    var i := ReceivePlaintext(d).value;
    var t := i.message + ServerHelloMessage(s, v);
    ProtectedKeys(s, v, s.Keys(s.dh(v.priv, ParseClientHello(i.fragment.body).value.key), t), t);
  }

  lemma ProtectedKeys(s: Suite, v: ServerConfig, keys: Keys, hello: Bytes)
    requires ProtectedPlan(s, v, keys, hello).outcome.Ok?
    ensures var n := ProtectedPlan(s, v, keys, hello).outcome.value;
            && n.keys == keys && |n.snapshots| == 4 && n.snapshots[0] == hello && n.snapshots[3] == n.transcript
            && n.read == ReadState(keys.clientKey, keys.clientIv, 0, 2)
  {
    hide Emit, VerifyBody, SerializeCertificate, Finished;
  }

  /** Whatever a server that finished was sent: the first datagram was a hello it answered, and the
      last was the client's MAC of exactly the transcript of that answer. */
  lemma ServerAuthenticates(s: Suite, v: ServerConfig, net: Net, io: Io)
    requires Server.Run(s, v, net, ServerStart(v), io).phase.ServerDone?
    ensures var e := Server.Run(s, v, net, ServerStart(v), io);
            var n := e.phase.session;
            && net.recv(io.recvs).Ok? && Answered(s, v, net.recv(io.recvs).value, n)
            && io.recvs + 1 < e.io.recvs <= io.recvs + 1 + MAX_FINISHED_RECEIVES
            && FinishedAt(s, n, net, e.io.recvs - 1)
  {
    hide Answered, FinishedAt, Skipped, AllSent, ServerPlan, Server.Run;
    ServerFinishesIff(s, v, net, io);
    PlanAnswers(s, v, net.recv(io.recvs).value);
  }
}
