/** How far loss, reordering and repetition can push the server's bounded wait for the client's
    Finished. */
module HandshakeProgress {
  import opened Machine
  import opened HandshakeHeader
  import opened Reconstruct
  import opened RecordProtect
  import opened KeySchedule
  import opened Hello
  import opened Handshake
  import opened HandshakeWire
  import opened HandshakeRun
  import RecordRun

  // ----- the client's Finished is accepted

  lemma FinishedAccepted(s: Suite, c: ClientConfig, v: ServerConfig, n: Session, m: Session, received: nat)
    requires Follows(s, c, v, n, 4) && Answer(s, c, v).outcome == Ok(m)
    ensures ServerTakes(s, v, AwaitClientFinished(m, received), ClientFinishedRecord(s, n)) == ServerDone(m)
  {
    hide Answer, Follows, RecordOf, Unprotect, Recoverable, Parse, Framed, Finished;
    FollowedAgrees(s, c, v, n);
    var w := SendState(n.keys.clientKey, n.keys.clientIv, 0, 2);
    RecordRun.HalfWindowRecoverable(0, 0);
    UnprotectProtect(s.block, w, m.read, CT_HANDSHAKE, ClientFinishedMessage(s, n), MAX_MSG);
    FramedParses(FINISHED, 1, Finished(s.mac, n.keys.clientSecret, s.Hash(n.transcript)));
  }

  lemma StaleSkipped(s: Suite, c: ClientConfig, v: ServerConfig, m: Session, received: nat)
    ensures ServerTakes(s, v, AwaitClientFinished(m, received), HelloDatagram(s, c))
         == if received + 1 < MAX_FINISHED_RECEIVES then AwaitClientFinished(m, received + 1)
            else ServerFailed(NotUnified)
  {
    hide Unprotect, Plain, ClientHelloMessage;
    PlainDoesNotOpen(s, m.read, ClientHelloMessage(s, c), MAX_MSG);
  }

  // ----- counting hellos

  /** How many hellos the client may have sent. */
  function Sends(p: ClientPhase): nat {
    match p
    case Hello(attempt) => attempt
    case AwaitServerHello(attempt) => attempt + 1
    case _ => MAX_HELLO_ATTEMPTS
  }

  /** How many hellos the server has taken, as long as it is still at work. */
  function Heard(p: ServerPhase): nat {
    match p
    case Flight(_, _) => 1
    case AwaitClientFinished(_, received) => 1 + received
    case _ => 0
  }

  /** Hellos in flight and hellos taken are hellos sent or repeated. */
  ghost predicate Counted(s: Suite, c: ClientConfig, a: System) {
    a.toServer[HelloDatagram(s, c)] + Heard(a.server) <= Sends(a.client) + a.repeats
  }

  /** Taking a datagram moves at most one hello from the network to the server's count. */
  lemma ServerHearsCounted(s: Suite, c: ClientConfig, v: ServerConfig, a: System, d: Bytes)
    requires Inv(s, c, v, a) && Counted(s, c, a) && Enabled(a, ServerHears(d))
    ensures Counted(s, c, Next(s, c, v, a, ServerHears(d)))
  {
    hide Answer, HelloDatagram, ClientInv, ServerInv, ServerTakes, Heard;
    HeardStep(s, c, v, a, d);
  }

  lemma HeardStep(s: Suite, c: ClientConfig, v: ServerConfig, a: System, d: Bytes)
    requires Inv(s, c, v, a) && ServerListens(a.server) && d in a.toServer
    ensures Heard(ServerTakes(s, v, a.server, d)) <= Heard(a.server) + if d == HelloDatagram(s, c) then 1 else 0
  {
    hide Answer, Follows, Plain, ClientHelloMessage, ClientFinishedRecord, ServerPlan, Unprotect,
         TakeClientFinished, ClientInv;
    if a.server.AwaitClientFinished? && d != HelloDatagram(s, c) {
      Finishes(s, c, v, a, d);
    }
  }

  lemma Finishes(s: Suite, c: ClientConfig, v: ServerConfig, a: System, d: Bytes)
    requires Inv(s, c, v, a) && a.server.AwaitClientFinished? && d in a.toServer && d != HelloDatagram(s, c)
    ensures a.client.ClientDone? && d == ClientFinishedRecord(s, a.client.session)
    ensures ServerTakes(s, v, a.server, d) == ServerDone(a.server.session)
  {
    hide Answer, Follows, HelloDatagram, ClientFinishedRecord, ServerTakes;
    FinishedAccepted(s, c, v, a.client.session, a.server.session, a.server.received);
  }

  lemma ClientStepCounted(s: Suite, c: ClientConfig, v: ServerConfig, a: System, step: Step)
    requires Inv(s, c, v, a) && Counted(s, c, a) && Enabled(a, step)
    requires step.ClientSends? || step.ClientHears? || step.ClientGivesUp?
    ensures Counted(s, c, Next(s, c, v, a, step))
  {
    hide Answer, HelloDatagram, ClientInv, ServerInv, ClientReceived, ClientSent, Sends, ClientOutput;
    match step
    case ClientSends(r) => SendCounted(s, c, v, a.client, r);
    case ClientHears(d) => ReceiveCounted(s, c, v, a.client, Ok(d));
    case ClientGivesUp(e) => ReceiveCounted(s, c, v, a.client, Err(e));
  }

  lemma ReceiveCounted(s: Suite, c: ClientConfig, v: ServerConfig, p: ClientPhase, r: Result<Bytes>)
    requires ClientInv(s, c, v, p) && ClientListens(p)
    ensures Sends(p) <= Sends(ClientReceived(s, c, p, r))
  {
    hide Answer, Follows, ReceivePlaintext, ClientSession, TakeExtensions, TakeCertificate, TakeVerify, TakeFinished;
  }

  lemma SendCounted(s: Suite, c: ClientConfig, v: ServerConfig, p: ClientPhase, r: Result<()>)
    requires ClientInv(s, c, v, p) && (p.Hello? || p.Reply?)
    ensures Sends(p) + (if r.Ok? && ClientOutput(s, c, p) == HelloDatagram(s, c) then 1 else 0)
            <= Sends(ClientSent(p, r))
  {
    hide Answer, Follows, Plain, ClientHelloMessage, ClientFinishedRecord;
    if p.Reply? {
      NotAHello(s, c, p.session);
    }
  }

  lemma NotAHello(s: Suite, c: ClientConfig, n: Session)
    ensures ClientFinishedRecord(s, n) != HelloDatagram(s, c)
  {
    hide RecordOf, Framed, ClientHelloMessage;
    RecordFirstByte(s, SendState(n.keys.clientKey, n.keys.clientIv, 0, 2), ClientFinishedMessage(s, n));
    PlainFirstByte(ClientHelloMessage(s, c));
  }

  lemma PlainFirstByte(message: Bytes)
    ensures |Plain(message)| > 0 && Plain(message)[0] == CT_HANDSHAKE
  {
  }

  lemma OtherStepCounted(s: Suite, c: ClientConfig, v: ServerConfig, a: System, step: Step)
    requires Counted(s, c, a) && Enabled(a, step)
    requires !step.ClientSends? && !step.ClientHears? && !step.ClientGivesUp? && !step.ServerHears?
    ensures Counted(s, c, Next(s, c, v, a, step))
  {
    hide Answer, HelloDatagram, ClientFinishedRecord;
  }

  lemma {:induction false} AlwaysCounted(s: Suite, c: ClientConfig, v: ServerConfig, steps: seq<Step>)
    requires Commutes(s, c, v) && Run(s, c, v, steps).Some?
    ensures Counted(s, c, Run(s, c, v, steps).value)
    decreases |steps|
  {
    hide Inv, Next, Enabled, Counted;
    if |steps| == 0 {
      StartCounted(s, c, v);
    } else {
      var before, step := steps[..|steps| - 1], steps[|steps| - 1];
      AlwaysCounted(s, c, v, before);
      Reachable(s, c, v, before);
      var a := Run(s, c, v, before).value;
      match step
      case ServerHears(d) => ServerHearsCounted(s, c, v, a, d);
      case ClientSends(_) => ClientStepCounted(s, c, v, a, step);
      case ClientHears(_) => ClientStepCounted(s, c, v, a, step);
      case ClientGivesUp(_) => ClientStepCounted(s, c, v, a, step);
      case _ => OtherStepCounted(s, c, v, a, step);
    }
  }

  lemma StartCounted(s: Suite, c: ClientConfig, v: ServerConfig)
    ensures Counted(s, c, Start(v))
  {
  }

  /** At most four hellos, and the repeats, come between the server's flight and the client's
      Finished. With fewer than four repeats no delivery makes the waiting server give up: a
      stale hello is skipped with the session and its read state untouched, and the client's
      Finished completes the handshake. */
  lemma FinishedReached(s: Suite, c: ClientConfig, v: ServerConfig, steps: seq<Step>, d: Bytes)
    requires Commutes(s, c, v) && Run(s, c, v, steps).Some?
    requires var a := Run(s, c, v, steps).value; a.server.AwaitClientFinished? && a.repeats < 4 && d in a.toServer
    ensures var a := Run(s, c, v, steps).value;
            var n, received := a.server.session, a.server.received;
            && received <= 4 + a.repeats
            && ServerTakes(s, v, a.server, d) ==
               if a.client.ClientDone? && d == ClientFinishedRecord(s, a.client.session) then ServerDone(n)
               else AwaitClientFinished(n, received + 1)
  {
    hide Answer, HelloDatagram, ClientFinishedRecord, ServerTakes, ClientInv, ServerInv;
    Reachable(s, c, v, steps);
    AlwaysCounted(s, c, v, steps);
    var a := Run(s, c, v, steps).value;
    SendsBound(s, c, v, a.client);
    if d == HelloDatagram(s, c) {
      StaleSkipped(s, c, v, a.server.session, a.server.received);
      if a.client.ClientDone? {
        NotAHello(s, c, a.client.session);
      }
    } else {
      Finishes(s, c, v, a, d);
    }
  }

  lemma SendsBound(s: Suite, c: ClientConfig, v: ServerConfig, p: ClientPhase)
    requires ClientInv(s, c, v, p)
    ensures Sends(p) <= 5
  {
    hide Follows;
  }

  // ----- runs with stale hellos

  lemma Then(s: Suite, c: ClientConfig, v: ServerConfig, steps: seq<Step>, step: Step) returns (more: seq<Step>)
    requires Run(s, c, v, steps).Some? && Enabled(Run(s, c, v, steps).value, step)
    ensures Run(s, c, v, more) == Some(Next(s, c, v, Run(s, c, v, steps).value, step))
  {
    hide Next, Enabled;
    more := steps + [step];
    assert more[..|more| - 1] == steps;
  }

  function Copies(d: Bytes, k: nat): multiset<Bytes> {
    multiset{}[d := k]
  }

  lemma OneMore(d: Bytes, k: nat)
    ensures Copies(d, k) + multiset{d} == Copies(d, k + 1)
    ensures Copies(d, k + 1) - multiset{d} == Copies(d, k)
    ensures k > 0 ==> d in Copies(d, k)
  {
  }

  /** A client that hears nothing has sent k hellos at its k-th retry. */
  lemma {:induction false} SilentHellos(s: Suite, c: ClientConfig, v: ServerConfig, k: nat) returns (steps: seq<Step>)
    requires k < MAX_HELLO_ATTEMPTS && ServerStart(v) == AwaitClientHello
    ensures Run(s, c, v, steps)
         == Some(System(ClientPhase.Hello(k), AwaitClientHello, Copies(HelloDatagram(s, c), k), multiset{}, 0))
  {
    hide HelloDatagram, ClientTakes, Run, Copies, ClientOutput;
    var h := HelloDatagram(s, c);
    if k == 0 {
      steps := [];
      NoSteps(s, c, v, h);
    } else {
      steps := SilentHellos(s, c, v, k - 1);
      HelloOutput(s, c, k - 1);
      OneMore(h, k - 1);
      steps := Then(s, c, v, steps, ClientSends(Ok(())));
      steps := Then(s, c, v, steps, ClientGivesUp(Truncated));
    }
  }

  lemma NoSteps(s: Suite, c: ClientConfig, v: ServerConfig, h: Bytes)
    ensures Run(s, c, v, []) == Some(Start(v)) && Copies(h, 0) == multiset{}
  {
  }

  lemma HelloOutput(s: Suite, c: ClientConfig, attempt: nat)
    ensures ClientOutput(s, c, ClientPhase.Hello(attempt)) == HelloDatagram(s, c)
  {
  }

  lemma FiveHellos(s: Suite, c: ClientConfig, v: ServerConfig) returns (steps: seq<Step>)
    requires ServerStart(v) == AwaitClientHello
    ensures Run(s, c, v, steps)
         == Some(System(AwaitServerHello(4), AwaitClientHello, Copies(HelloDatagram(s, c), 5), multiset{}, 0))
  {
    hide HelloDatagram, Run, Copies, ClientOutput;
    steps := SilentHellos(s, c, v, 4);
    HelloOutput(s, c, 4);
    OneMore(HelloDatagram(s, c), 4);
    steps := Then(s, c, v, steps, ClientSends(Ok(())));
  }

  lemma {:induction false} Repeats(s: Suite, c: ClientConfig, v: ServerConfig, k: nat) returns (steps: seq<Step>)
    requires ServerStart(v) == AwaitClientHello
    ensures Run(s, c, v, steps)
         == Some(System(AwaitServerHello(4), AwaitClientHello, Copies(HelloDatagram(s, c), 5 + k), multiset{}, k))
  {
    hide HelloDatagram, Run, Copies, ServerStart;
    if k == 0 {
      steps := FiveHellos(s, c, v);
    } else {
      steps := Repeats(s, c, v, k - 1);
      OneMore(HelloDatagram(s, c), 4 + k);
      steps := Then(s, c, v, steps, RepeatedToServer(HelloDatagram(s, c)));
    }
  }
}
