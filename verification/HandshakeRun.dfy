/** Both ends over a network that loses, reorders and repeats datagrams but never makes one up. */
module HandshakeRun {
  import opened Machine
  import opened ByteOps
  import opened HandshakeHeader
  import opened RecordProtect
  import opened KeySchedule
  import opened Hello
  import opened Messages
  import opened Handshake
  import opened HandshakeWire

  /** The two ends, the datagrams in flight each way, and how often one bound for the server has
      been repeated. */
  datatype System = System(client: ClientPhase, server: ServerPhase, toServer: multiset<Bytes>,
                           toClient: multiset<Bytes>, repeats: nat)

  datatype Step =
    | ClientSends(sent: Result<()>)
    | ClientHears(datagram: Bytes)
    | ClientGivesUp(status: Status)
    | ServerSends(sent: Result<()>)
    | ServerHears(datagram: Bytes)
    | ServerGivesUp(status: Status)
    | LostToServer(datagram: Bytes)
    | LostToClient(datagram: Bytes)
    | RepeatedToServer(datagram: Bytes)
    | RepeatedToClient(datagram: Bytes)

  function Start(v: ServerConfig): System {
    System(ClientPhase.Hello(0), ServerStart(v), multiset{}, multiset{}, 0)
  }

  predicate Enabled(a: System, step: Step) {
    match step
    case ClientSends(_) => a.client.Hello? || a.client.Reply?
    case ClientHears(d) => ClientListens(a.client) && d in a.toClient
    case ClientGivesUp(_) => ClientListens(a.client)
    case ServerSends(_) => a.server.Flight? && |a.server.rest| > 0
    case ServerHears(d) => ServerListens(a.server) && d in a.toServer
    case ServerGivesUp(_) => ServerListens(a.server)
    case LostToServer(d) => d in a.toServer
    case LostToClient(d) => d in a.toClient
    case RepeatedToServer(d) => d in a.toServer
    case RepeatedToClient(d) => d in a.toClient
  }

  function Sent(net: multiset<Bytes>, datagram: Bytes, r: Result<()>): multiset<Bytes> {
    if r.Ok? then net + multiset{datagram} else net
  }

  function Next(s: Suite, c: ClientConfig, v: ServerConfig, a: System, step: Step): System
    requires Enabled(a, step)
  {
    match step
    case ClientSends(r) =>
      a.(client := ClientSent(a.client, r), toServer := Sent(a.toServer, ClientOutput(s, c, a.client), r))
    case ClientHears(d) => a.(client := ClientReceived(s, c, a.client, Ok(d)), toClient := a.toClient - multiset{d})
    case ClientGivesUp(e) => a.(client := ClientReceived(s, c, a.client, Err(e)))
    case ServerSends(r) => a.(server := ServerSent(a.server, r), toClient := Sent(a.toClient, a.server.rest[0], r))
    case ServerHears(d) => a.(server := ServerReceived(s, v, a.server, Ok(d)), toServer := a.toServer - multiset{d})
    case ServerGivesUp(e) => a.(server := ServerReceived(s, v, a.server, Err(e)))
    case LostToServer(d) => a.(toServer := a.toServer - multiset{d})
    case LostToClient(d) => a.(toClient := a.toClient - multiset{d})
    case RepeatedToServer(d) => a.(toServer := a.toServer + multiset{d}, repeats := a.repeats + 1)
    case RepeatedToClient(d) => a.(toClient := a.toClient + multiset{d})
  }

  /** Where a list of steps leads, if each of them can be taken. */
  function Run(s: Suite, c: ClientConfig, v: ServerConfig, steps: seq<Step>): Option<System> {
    if |steps| == 0 then Some(Start(v))
    else
      match Run(s, c, v, steps[..|steps| - 1])
      case None => None
      case Some(a) => var step := steps[|steps| - 1]; if Enabled(a, step) then Some(Next(s, c, v, a, step)) else None
  }

  // ----- what every reachable state satisfies

  function HelloDatagram(s: Suite, c: ClientConfig): Bytes {
    Plain(ClientHelloMessage(s, c))
  }

  /** What the server does in answer to this client. */
  function Answer(s: Suite, c: ClientConfig, v: ServerConfig): Plan {
    ServerPlan(s, v, HelloDatagram(s, c))
  }

  /** The client has taken the first j protected messages and nothing else. */
  ghost predicate Follows(s: Suite, c: ClientConfig, v: ServerConfig, n: Session, j: nat) {
    var keys, hello, messages := SharedKeys(s, c, v), HelloTranscript(s, c, v), Answer(s, c, v).messages;
    && j <= |messages| <= 4
    && n == Session(keys, Upto(hello, messages, j), Snapshots(hello, messages, j),
                    ReadAt(keys, if j == 0 then 0 else j - 1))
  }

  ghost predicate ClientInv(s: Suite, c: ClientConfig, v: ServerConfig, p: ClientPhase) {
    match p
    case Hello(attempt) => attempt < MAX_HELLO_ATTEMPTS
    case AwaitServerHello(attempt) => attempt < MAX_HELLO_ATTEMPTS
    case AwaitExtensions(n) => Follows(s, c, v, n, 0)
    case AwaitCertificate(n) => Follows(s, c, v, n, 1)
    case AwaitVerify(n, _) => Follows(s, c, v, n, 2)
    case AwaitFinished(n, _) => Follows(s, c, v, n, 3)
    case Reply(n, _) => Follows(s, c, v, n, 4)
    case ClientDone(n, _) => Follows(s, c, v, n, 4)
    case ClientFailed(_) => true
  }

  ghost predicate ServerInv(s: Suite, c: ClientConfig, v: ServerConfig, p: ServerPhase) {
    match p
    case AwaitClientHello => true
    case Flight(rest, outcome) =>
      outcome == Answer(s, c, v).outcome && forall d :: d in rest ==> d in Answer(s, c, v).datagrams
    case AwaitClientFinished(n, received) => Answer(s, c, v).outcome == Ok(n) && received < MAX_FINISHED_RECEIVES
    case ServerDone(n) => Answer(s, c, v).outcome == Ok(n)
    case ServerFailed(_) => true
  }

  ghost predicate NetInv(s: Suite, c: ClientConfig, v: ServerConfig, a: System) {
    && (forall d :: d in a.toClient ==> d in Answer(s, c, v).datagrams)
    && (forall d :: d in a.toServer ==>
          d == HelloDatagram(s, c) || (a.client.ClientDone? && d == ClientFinishedRecord(s, a.client.session)))
    && (a.server.AwaitClientHello? ==>
          && a.toClient == multiset{}
          && (a.client.Hello? || a.client.AwaitServerHello? || a.client.ClientFailed?))
  }

  ghost predicate Inv(s: Suite, c: ClientConfig, v: ServerConfig, a: System) {
    ClientInv(s, c, v, a.client) && ServerInv(s, c, v, a.server) && NetInv(s, c, v, a)
  }

  // ----- what the client makes of the server's datagrams

  /** The answer is the server's hello, and then, unless the secret is all zero, the flight. */
  lemma AnswerShape(s: Suite, c: ClientConfig, v: ServerConfig)
    ensures var a := Answer(s, c, v);
            && |a.datagrams| == 1 + |a.messages| <= 5
            && a.datagrams[0] == Plain(ServerHelloMessage(s, v))
            && (AllZero(Secret(s, c, v)) ==> a.messages == [] && a.outcome.Err?)
            && (!AllZero(Secret(s, c, v)) ==>
                  Shaped(s, SharedKeys(s, c, v), HelloTranscript(s, c, v),
                         Plan(a.datagrams[1..], a.messages, a.outcome)))
  {
    hide AcceptHello, Plain, ProtectedPlan, AllZero, Shaped, ClientHelloMessage, ServerHelloMessage;
    HelloAccepted(s, c);
    var keys, hello := SharedKeys(s, c, v), HelloTranscript(s, c, v);
    if !AllZero(Secret(s, c, v)) {
      PlanIsShaped(s, v, keys, hello);
      var p := ProtectedPlan(s, v, keys, hello);
      ShapedLength(s, keys, hello, p);
      assert ([Plain(ServerHelloMessage(s, v))] + p.datagrams)[1..] == p.datagrams;
      assert Plan(p.datagrams, p.messages, p.outcome) == p;
    }
  }

  lemma ShapedLength(s: Suite, keys: Keys, hello: Bytes, p: Plan)
    requires Shaped(s, keys, hello, p)
    ensures |p.datagrams| == |p.messages| <= 4
  {
    hide InOrder;
  }

  /** Which datagram of the answer this is. */
  lemma Which(s: Suite, c: ClientConfig, v: ServerConfig, d: Bytes) returns (i: nat)
    requires d in Answer(s, c, v).datagrams
    ensures var a := Answer(s, c, v);
            && i < |a.datagrams| == 1 + |a.messages| <= 5 && d == a.datagrams[i]
            && (i == 0 ==> d == Plain(ServerHelloMessage(s, v)))
            && (i > 0 ==> !AllZero(Secret(s, c, v)) && Sendable(a.messages[i - 1])
                          && Parse(a.messages[i - 1]).value.hdr.msgType == Kind(i - 1)
                          && d == Sealed(s, SharedKeys(s, c, v), i - 1, a.messages[i - 1]))
  {
    hide Answer, Plain, AllZero, Sealed, Sendable, Parse;
    AnswerShape(s, c, v);
    var a := Answer(s, c, v);
    i :| 0 <= i < |a.datagrams| && d == a.datagrams[i];
    if i > 0 {
      assert InOrder(s, SharedKeys(s, c, v), a.datagrams[1..], a.messages, i - 1);
    }
  }

  lemma FirstAnswer(s: Suite, c: ClientConfig, v: ServerConfig, attempt: nat, d: Bytes)
    requires Commutes(s, c, v) && d in Answer(s, c, v).datagrams && attempt < MAX_HELLO_ATTEMPTS
    ensures ClientInv(s, c, v, ClientTakes(s, c, AwaitServerHello(attempt), d))
  {
    hide Answer, Plain, AllZero, Sealed, Sendable, Parse, ReceivePlaintext, ClientSession, SharedKeys, HelloTranscript;
    var i := Which(s, c, v, d);
    if i == 0 {
      ServerHelloTaken(s, c, v);
      var keys, hello := SharedKeys(s, c, v), HelloTranscript(s, c, v);
      NothingYet(hello, Answer(s, c, v).messages);
    } else {
      SealedIsNotPlain(s, SharedKeys(s, c, v), i - 1, Answer(s, c, v).messages[i - 1]);
    }
  }

  lemma SealedIsNotPlain(s: Suite, keys: Keys, i: nat, message: Bytes)
    requires i < 4
    ensures ReceivePlaintext(Sealed(s, keys, i, message)).Err?
  {
    RecordIsNotPlain(s, SendState(keys.serverKey, keys.serverIv, i, 2), message);
  }

  lemma NothingYet(hello: Bytes, messages: seq<Bytes>)
    ensures Upto(hello, messages, 0) == hello && Snapshots(hello, messages, 0) == [hello]
  {
    assert hello + Flatten(messages[..0]) == hello;
  }

  /** A protected message is accepted at stage j only if it is the j-th, and adds exactly itself. */
  lemma NextMessage(s: Suite, c: ClientConfig, v: ServerConfig, n: Session, j: nat, d: Bytes)
    requires d in Answer(s, c, v).datagrams && j < 4 && Follows(s, c, v, n, j)
    ensures var r := ReceiveProtected(s, n.read, d);
            r.Ok? && r.value.incoming.fragment.hdr.msgType == Kind(j) ==>
              && j < |Answer(s, c, v).messages| <= 4
              && r.value.incoming.message == Answer(s, c, v).messages[j]
              && r.value.read == ReadAt(SharedKeys(s, c, v), j)
  {
    hide Answer, Plain, AllZero, Sealed, Parse, SharedKeys, HelloTranscript, Unprotect, Snapshots, Upto;
    var i := Which(s, c, v, d);
    var keys := SharedKeys(s, c, v);
    var highest := if j == 0 then 0 else j - 1;
    assert n.read == ReadAt(keys, highest);
    if i == 0 {
      PlainDoesNotOpen(s, n.read, ServerHelloMessage(s, v), MAX_MSG);
    } else {
      SealedOpens(s, keys, highest, i - 1, Answer(s, c, v).messages[i - 1]);
    }
  }

  lemma Advance(s: Suite, c: ClientConfig, v: ServerConfig, n: Session, j: nat, m: Session)
    requires Follows(s, c, v, n, j) && j < |Answer(s, c, v).messages| <= 4
    requires var t := n.transcript + Answer(s, c, v).messages[j];
             m == Session(n.keys, t, if j == 0 then n.snapshots else n.snapshots + [t], ReadAt(SharedKeys(s, c, v), j))
    ensures Follows(s, c, v, m, j + 1)
  {
    hide Answer, SharedKeys, HelloTranscript;
    UptoStep(HelloTranscript(s, c, v), Answer(s, c, v).messages, j);
  }

  lemma UptoStep(hello: Bytes, messages: seq<Bytes>, j: nat)
    requires j < |messages|
    ensures Upto(hello, messages, j + 1) == Upto(hello, messages, j) + messages[j]
  {
    assert messages[..j + 1][..j] == messages[..j];
    assert hello + (Flatten(messages[..j]) + messages[j]) == hello + Flatten(messages[..j]) + messages[j];
  }

  /** Whatever of the answer arrives, the client keeps following it or fails. */
  lemma LaterAnswer(s: Suite, c: ClientConfig, v: ServerConfig, p: ClientPhase, d: Bytes)
    requires ClientInv(s, c, v, p) && ClientListens(p) && !p.AwaitServerHello? && d in Answer(s, c, v).datagrams
    ensures ClientInv(s, c, v, ClientTakes(s, c, p, d))
    ensures !ClientTakes(s, c, p, d).ClientDone?
  {
    hide Answer, SharedKeys, HelloTranscript, Follows, ReceiveProtected, ParseCertificate, ParseCertificateVerify,
         CheckVerify, CheckFinished, ParseEncryptedExtensions;
    var j, n := Taken(p), p.session;
    NextMessage(s, c, v, n, j, d);
    var r := ReceiveProtected(s, n.read, d);
    if r.Ok? && r.value.incoming.fragment.hdr.msgType == Kind(j) {
      var t := n.transcript + r.value.incoming.message;
      Advance(s, c, v, n, j, Session(n.keys, t, if j == 0 then n.snapshots else n.snapshots + [t], r.value.read));
    }
  }

  /** How many protected messages the client has when it waits for the next. */
  function Taken(p: ClientPhase): nat
    requires ClientListens(p) && !p.AwaitServerHello?
  {
    if p.AwaitExtensions? then 0 else if p.AwaitCertificate? then 1 else if p.AwaitVerify? then 2 else 3
  }

  // ----- every step keeps the invariant

  lemma StartInv(s: Suite, c: ClientConfig, v: ServerConfig)
    ensures Inv(s, c, v, Start(v))
  {
  }

  lemma ClientHearsInv(s: Suite, c: ClientConfig, v: ServerConfig, a: System, d: Bytes)
    requires Commutes(s, c, v) && Inv(s, c, v, a) && Enabled(a, ClientHears(d))
    ensures Inv(s, c, v, Next(s, c, v, a, ClientHears(d)))
  {
    hide Answer, ClientTakes, Follows, HelloDatagram, ClientFinishedRecord;
    if a.client.AwaitServerHello? {
      FirstAnswer(s, c, v, a.client.attempt, d);
    } else {
      LaterAnswer(s, c, v, a.client, d);
    }
  }

  lemma ClientSendsInv(s: Suite, c: ClientConfig, v: ServerConfig, a: System, r: Result<()>)
    requires Inv(s, c, v, a) && Enabled(a, ClientSends(r))
    ensures Inv(s, c, v, Next(s, c, v, a, ClientSends(r)))
  {
    hide Answer, Follows, ServerInv, Plain, ClientHelloMessage, ClientFinishedRecord;
  }

  lemma ClientGivesUpInv(s: Suite, c: ClientConfig, v: ServerConfig, a: System, e: Status)
    requires Inv(s, c, v, a) && Enabled(a, ClientGivesUp(e))
    ensures Inv(s, c, v, Next(s, c, v, a, ClientGivesUp(e)))
  {
    hide Answer, Follows, ServerInv, HelloDatagram, ClientFinishedRecord;
  }

  lemma ServerHearsInv(s: Suite, c: ClientConfig, v: ServerConfig, a: System, d: Bytes)
    requires Inv(s, c, v, a) && Enabled(a, ServerHears(d))
    ensures Inv(s, c, v, Next(s, c, v, a, ServerHears(d)))
  {
    hide ServerPlan, Follows, Plain, ClientHelloMessage, ClientFinishedRecord, Unprotect, TakeClientFinished;
  }

  lemma ServerSendsInv(s: Suite, c: ClientConfig, v: ServerConfig, a: System, r: Result<()>)
    requires Inv(s, c, v, a) && Enabled(a, ServerSends(r))
    ensures Inv(s, c, v, Next(s, c, v, a, ServerSends(r)))
  {
    hide Answer, ClientInv, HelloDatagram, ClientFinishedRecord;
    assert a.server.rest[0] in a.server.rest;
    assert forall d :: d in a.server.rest[1..] ==> d in a.server.rest;
  }

  lemma ServerGivesUpInv(s: Suite, c: ClientConfig, v: ServerConfig, a: System, e: Status)
    requires Inv(s, c, v, a) && Enabled(a, ServerGivesUp(e))
    ensures Inv(s, c, v, Next(s, c, v, a, ServerGivesUp(e)))
  {
    hide Answer, ClientInv, HelloDatagram, ClientFinishedRecord;
  }

  /** Loss and repetition bring in no datagram that was not there. */
  lemma NetworkInv(s: Suite, c: ClientConfig, v: ServerConfig, a: System, toServer: multiset<Bytes>,
                   toClient: multiset<Bytes>, repeats: nat)
    requires Inv(s, c, v, a)
    requires forall d :: d in toServer ==> d in a.toServer
    requires forall d :: d in toClient ==> d in a.toClient
    ensures Inv(s, c, v, System(a.client, a.server, toServer, toClient, repeats))
  {
    hide Answer, ClientInv, ServerInv, HelloDatagram, ClientFinishedRecord;
  }

  lemma {:induction false} Reachable(s: Suite, c: ClientConfig, v: ServerConfig, steps: seq<Step>)
    requires Commutes(s, c, v) && Run(s, c, v, steps).Some?
    ensures Inv(s, c, v, Run(s, c, v, steps).value)
    decreases |steps|
  {
    hide Inv, Next, Enabled;
    if |steps| == 0 {
      StartInv(s, c, v);
    } else {
      Reachable(s, c, v, steps[..|steps| - 1]);
      StepInv(s, c, v, Run(s, c, v, steps[..|steps| - 1]).value, steps[|steps| - 1]);
    }
  }

  lemma StepInv(s: Suite, c: ClientConfig, v: ServerConfig, a: System, step: Step)
    requires Commutes(s, c, v) && Inv(s, c, v, a) && Enabled(a, step)
    ensures Inv(s, c, v, Next(s, c, v, a, step))
  {
    hide Inv, Next, Enabled;
    match step
    case ClientHears(d) => ClientHearsInv(s, c, v, a, d);
    case ServerHears(d) => ServerHearsInv(s, c, v, a, d);
    case ClientSends(r) => ClientSendsInv(s, c, v, a, r);
    case ClientGivesUp(e) => ClientGivesUpInv(s, c, v, a, e);
    case ServerSends(r) => ServerSendsInv(s, c, v, a, r);
    case ServerGivesUp(e) => ServerGivesUpInv(s, c, v, a, e);
    case _ => NetworkStepInv(s, c, v, a, step);
  }

  lemma NetworkStepInv(s: Suite, c: ClientConfig, v: ServerConfig, a: System, step: Step)
    requires Inv(s, c, v, a) && Enabled(a, step)
    requires step.LostToServer? || step.LostToClient? || step.RepeatedToServer? || step.RepeatedToClient?
    ensures Inv(s, c, v, Next(s, c, v, a, step))
  {
    hide Inv, ClientReceived, ServerReceived, ClientSent, ServerSent, ClientOutput;
    var b := Next(s, c, v, a, step);
    NetworkInv(s, c, v, a, b.toServer, b.toClient, b.repeats);
  }

  // ----- agreement

  /** A client that has taken the whole flight holds the server's keys and every transcript the
      server hashed. */
  lemma FollowedAgrees(s: Suite, c: ClientConfig, v: ServerConfig, n: Session)
    requires Follows(s, c, v, n, 4)
    ensures Answer(s, c, v).outcome.Ok?
    ensures var m := Answer(s, c, v).outcome.value;
            n.keys == m.keys && n.transcript == m.transcript && n.snapshots == m.snapshots && |n.snapshots| == 4
            && m.read == ReadState(n.keys.clientKey, n.keys.clientIv, 0, 2)
  {
    hide Answer, AllZero, Upto, SharedKeys, HelloTranscript, InOrder;
    AnswerShape(s, c, v);
  }

  /** However the network treated their datagrams: if both ends finished, they hold the same keys
      and hashed the same transcript at each of the four snapshots. */
  lemma Agreement(s: Suite, c: ClientConfig, v: ServerConfig, steps: seq<Step>)
    requires Commutes(s, c, v) && Run(s, c, v, steps).Some?
    requires Run(s, c, v, steps).value.client.ClientDone? && Run(s, c, v, steps).value.server.ServerDone?
    ensures var a := Run(s, c, v, steps).value;
            && a.client.session.keys == a.server.session.keys
            && a.client.session.snapshots == a.server.session.snapshots
            && |a.client.session.snapshots| == 4
  {
    hide Answer, Follows;
    Reachable(s, c, v, steps);
    FollowedAgrees(s, c, v, Run(s, c, v, steps).value.client.session);
  }
}
