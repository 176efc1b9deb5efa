/** The client's handshake for TLS 1.2 and below (section 7.3 of RFC 5246), with everything it may wait for. */
module ClientHandshake {
  import opened Bytes
  import opened TlsFlow
  import opened Transcript

  datatype State =
    | StartConnect
    | EnterEarlyData
    | ReadHelloVerifyRequest
    | ReadingServerHello
    | Tls13
    | ReadServerCertificate
    | ReadCertificateStatus
    | VerifyServerCertificate
    | ReadServerKeyExchange
    | ReadCertificateRequest
    | ReadServerHelloDone
    | SendClientCertificate
    | SendClientKeyExchange
    | SendClientCertificateVerify
    | SendClientFinished
    | FinishFlight
    | ReadSessionTicket
    | ProcessChangeCipherSpec
    | ReadServerFinished
    | FinishClientHandshake
    | Done

  /** What is settled about a handshake: whether there is a session to resume, whether the cipher authenticates with
      certificates, whether early data goes out, whether the server asked for a certificate and whether the client
      has one. */
  datatype Course = Course(session: bool, certAuth: bool, early: bool, asked: bool, own: bool)

  /** How far the flow of messages has come when a state is reached. */
  ghost predicate Fits(s: State, c: Course, p: Phase) {
    match s
    case StartConnect => p.step.Idle?
    case EnterEarlyData => p.step.AfterClientHello?
    case ReadHelloVerifyRequest => p.step.AfterClientHello?
    case ReadingServerHello => p.step.AfterClientHello? || (c.early && p.step.AfterEarlySwitch?)
    case Tls13 => false
    case ReadServerCertificate => !c.session && p.step.AfterServerHello?
    case ReadCertificateStatus =>
      !c.session && if c.certAuth then p.step.AfterServerCertificate? else p.step.AfterServerHello?
    case VerifyServerCertificate => !c.session && Introduced(c.certAuth, p.step)
    case ReadServerKeyExchange => !c.session && Introduced(c.certAuth, p.step)
    case ReadCertificateRequest => !c.session && (Introduced(c.certAuth, p.step) || p.step.AfterServerKeys?)
    case ReadServerHelloDone =>
      !c.session && (Introduced(c.certAuth, p.step) || p.step.AfterServerKeys? || p.step.AfterCertificateRequest?)
    case SendClientCertificate => !c.session && p.step.AfterServerHelloDone?
    case SendClientKeyExchange => !c.session && (p.step.AfterServerHelloDone? || p.step.AfterClientCertificate?)
    case SendClientCertificateVerify => !c.session && p.step.AfterClientKeys?
    case SendClientFinished =>
      if c.session then p.step.AfterServerFinished? else p.step.AfterClientKeys? || p.step.AfterClientVerify?
    case FinishFlight => if c.session then (p.step.Complete? && p.step.resumed) else p.step.AfterClientFinished?
    case ReadSessionTicket => if c.session then p.step.AfterServerHello? else p.step.AfterClientFinished?
    case ProcessChangeCipherSpec =>
      || (p.step.AfterTicket? && p.step.resumed == c.session) || (p.step.ServerSwitched? && p.step.resumed == c.session)
      || p.step == if c.session then AfterServerHello else AfterClientFinished
    case ReadServerFinished => (p.step.ServerSwitched? && p.step.resumed == c.session)
    case FinishClientHandshake => (p.step.Complete? && p.step.resumed == c.session)
    case Done => (p.step.Complete? && p.step.resumed == c.session)
  }

  /** After the certificate, if there is one, and the status, which may be missing. */
  predicate Introduced(certAuth: bool, s: Step) {
    s.AfterStatus? || if certAuth then s.AfterServerCertificate? else s.AfterServerHello?
  }

  /** Between the change of the read cipher and the peer's Finished. */
  predicate Keyed(s: State) {
    s.ReadServerFinished?
  }

  /** The steps left at most. On resumption the Finished states come in another order. */
  function Rank(s: State, session: bool): nat {
    match s
    case StartConnect => 24
    case EnterEarlyData => 23
    case ReadHelloVerifyRequest => 22
    case ReadingServerHello => 21
    case Tls13 => 20
    case ReadServerCertificate => 19
    case ReadCertificateStatus => 18
    case VerifyServerCertificate => 17
    case ReadServerKeyExchange => 16
    case ReadCertificateRequest => 15
    case ReadServerHelloDone => 14
    case SendClientCertificate => 13
    case SendClientKeyExchange => 12
    case SendClientCertificateVerify => 11
    case SendClientFinished => if session then 3 else 10
    case FinishFlight => if session then 2 else 9
    case ReadSessionTicket => if session then 6 else 8
    case ProcessChangeCipherSpec => if session then 5 else 7
    case ReadServerFinished => if session then 4 else 6
    case FinishClientHandshake => 1
    case Done => 0
  }

  /** What the ServerHello settles about the messages to come. */
  datatype Need = Need(certAuth: bool, keyExchange: bool, status: bool, ticket: bool)

  predicate DoneNext(n: Need, k: Kind) {
    k == Kind.ServerHelloDone || (n.certAuth && k == CertificateRequest)
  }

  predicate KeysNext(n: Need, k: Kind) {
    k == ServerKeyExchange || (!n.keyExchange && DoneNext(n, k))
  }

  predicate StatusNext(n: Need, k: Kind) {
    (n.status && k == CertificateStatus) || KeysNext(n, k)
  }

  /** Which messages the server may send next when the client is in a state. */
  predicate Awaits(s: State, n: Need, k: Kind) {
    match s
    case ReadHelloVerifyRequest => k == HelloVerifyRequest || k == ServerHello
    case ReadingServerHello => k == ServerHello
    case ReadServerCertificate => if n.certAuth then k == Certificate else StatusNext(n, k)
    case ReadCertificateStatus => StatusNext(n, k)
    case VerifyServerCertificate => KeysNext(n, k)
    case ReadServerKeyExchange => KeysNext(n, k)
    case ReadCertificateRequest => DoneNext(n, k)
    case ReadServerHelloDone => k == Kind.ServerHelloDone
    case ReadSessionTicket => n.ticket && k == NewSessionTicket
    case ReadServerFinished => k == Finished
    case _ => false
  }

  /** A message that is awaited in a state that reads one. */
  function Due(s: State, n: Need): Kind {
    match s
    case ReadServerCertificate => if n.certAuth then Certificate else ServerKeyExchange
    case ReadCertificateStatus => ServerKeyExchange
    case VerifyServerCertificate => ServerKeyExchange
    case ReadServerKeyExchange => ServerKeyExchange
    case ReadCertificateRequest => Kind.ServerHelloDone
    case ReadServerHelloDone => Kind.ServerHelloDone
    case ReadSessionTicket => NewSessionTicket
    case ReadServerFinished => Finished
    case _ => ServerHello
  }

  /** What is awaited continues the flow of messages. */
  lemma AwaitedFits(s: State, c: Course, n: Need, p: Phase, k: Kind)
    requires Stands(s, c, p) && n.certAuth == c.certAuth && Awaits(s, n, k) && !(c.early && p.step.AfterEarlySwitch?)
    ensures !To(p, Consumed(k)).step.Broken?
  {}

  /** Whether the ServerHello was processed, and with it decided whether a session is resumed. */
  predicate Decided(s: State) {
    Rank(s, false) < Rank(ReadingServerHello, false)
  }

  /** Fits, and that the certificates leave their marks in the flow: the server's in a full handshake with a
      certificate cipher, and the client's if it was asked for and there is one. */
  ghost predicate Stands(s: State, c: Course, p: Phase) {
    && Fits(s, c, p)
    && (c.certAuth && !c.session ==> (Certified(s) ==> p.serverCertificate) && (Verified(s) ==> p.checked))
    && (c.asked ==> p.requested)
    && (c.asked && c.own && (s.SendClientKeyExchange? || s.SendClientCertificateVerify?) ==> p.clientCertificate)
  }

  /** Whether the server's certificate has come, and whether it has been verified, in a full handshake. */
  predicate Certified(s: State) {
    !(s.StartConnect? || s.EnterEarlyData? || s.ReadHelloVerifyRequest? || s.ReadingServerHello? || s.Tls13? ||
      s.ReadServerCertificate?)
  }

  predicate Verified(s: State) {
    Certified(s) && !s.ReadCertificateStatus? && !s.VerifyServerCertificate?
  }

  /** A step from s to t is a step forward, in a full and in a resumed handshake. */
  predicate Leads(s: State, t: State, session: bool) {
    Rank(t, session) < Rank(s, session) && (Decided(s) ==> Decided(t))
  }

  // From state to state: what each step does to the flow of messages

  /** Where a mark leads the client. */
  function To(p: Phase, m: Mark): Phase {
    Next(false, p, m)
  }

  lemma StartConnectStep(c: Course, session: bool, early: bool, p: Phase)
    requires Stands(StartConnect, c, p)
    ensures Stands(EnterEarlyData, c.(session := session, early := early), To(p, Sent(ClientHello)))
  {}

  lemma EnterEarlyDataStep(c: Course, p: Phase)
    requires Stands(EnterEarlyData, c, p)
    ensures Stands(ReadHelloVerifyRequest, c, p)
    ensures Stands(ReadingServerHello, c, if c.early then To(p, SentCcs) else p)
  {}

  lemma HelloVerifyRequestStep(c: Course, p: Phase)
    requires Stands(ReadHelloVerifyRequest, c, p)
    ensures Stands(ReadingServerHello, c, p)
    ensures Stands(ReadingServerHello, c,
                   To(To(To(p, Consumed(HelloVerifyRequest)), Reset), Sent(ClientHello)))
  {
    var q := To(p, Consumed(HelloVerifyRequest));
    assert q == p.(step := AfterVerifyRequest);
    assert To(q, Reset) == p.(step := AfterReset);
    assert To(p.(step := AfterReset), Sent(ClientHello)) == p.(step := AfterClientHello);
  }

  lemma ServerHelloStep(c: Course, session: bool, certAuth: bool, p: Phase)
    requires Stands(ReadingServerHello, c, p) && !c.early
    ensures Stands(if session then ReadSessionTicket else ReadServerCertificate,
                   c.(session := session, certAuth := certAuth), To(p, Consumed(ServerHello)))
  {}

  lemma ServerCertificateStep(c: Course, p: Phase)
    requires Stands(ReadServerCertificate, c, p)
    ensures Stands(ReadCertificateStatus, c,
                   if c.certAuth then To(p, Consumed(Certificate)) else p)
  {}

  lemma CertificateStatusStep(c: Course, p: Phase)
    requires Stands(ReadCertificateStatus, c, p)
    ensures Stands(VerifyServerCertificate, c, p)
    ensures Stands(VerifyServerCertificate, c, To(p, Consumed(CertificateStatus)))
  {}

  lemma VerifyStep(c: Course, p: Phase)
    requires Stands(VerifyServerCertificate, c, p)
    ensures Stands(ReadServerKeyExchange, c, if c.certAuth then To(p, Checked) else p)
  {}

  lemma ServerKeyExchangeStep(c: Course, p: Phase)
    requires Stands(ReadServerKeyExchange, c, p)
    ensures Stands(ReadCertificateRequest, c, p)
    ensures Stands(ReadCertificateRequest, c, To(p, Consumed(ServerKeyExchange)))
  {}

  lemma CertificateRequestStep(c: Course, p: Phase)
    requires Stands(ReadCertificateRequest, c, p)
    ensures Stands(ReadServerHelloDone, c, p)
    ensures Stands(ReadServerHelloDone, c.(asked := true), To(p, Consumed(CertificateRequest)))
  {}

  lemma ServerHelloDoneStep(c: Course, p: Phase)
    requires Stands(ReadServerHelloDone, c, p)
    ensures Stands(SendClientCertificate, c, To(p, Consumed(Kind.ServerHelloDone)))
  {}

  lemma ClientCertificateStep(c: Course, own: bool, p: Phase)
    requires Stands(SendClientCertificate, c, p)
    ensures !c.asked || !own ==> Stands(SendClientKeyExchange, c.(own := own), p)
    ensures c.asked ==> Stands(SendClientKeyExchange, c.(own := own), To(p, Sent(Certificate)))
  {}

  lemma ClientKeyExchangeStep(c: Course, p: Phase)
    requires Stands(SendClientKeyExchange, c, p)
    ensures Stands(SendClientCertificateVerify, c, To(p, Sent(ClientKeyExchange)))
  {}

  lemma CertificateVerifyStep(c: Course, p: Phase)
    requires Stands(SendClientCertificateVerify, c, p)
    ensures Stands(SendClientFinished, c, p)
    ensures c.asked && c.own ==> Stands(SendClientFinished, c, To(p, Sent(CertificateVerify)))
  {}

  lemma SwitchMove(c: Course, p: Phase)
    requires Stands(SendClientFinished, c, p)
    ensures To(p, SentCcs) == p.(step := ClientSwitched(c.session))
  {}

  lemma ExtensionMoves(p: Phase, resumed: bool)
    ensures var q := p.(step := ClientSwitched(resumed));
            && To(q, Sent(NextProto)) == p.(step := AfterNextProto(resumed))
            && To(q, Sent(ChannelId)) == p.(step := AfterChannelId(resumed))
            && To(p.(step := AfterNextProto(resumed)), Sent(ChannelId)) == p.(step := AfterChannelId(resumed))
  {}

  lemma ClientSwitchStep(c: Course, p: Phase, nextProto: bool, channelId: bool)
    requires Stands(SendClientFinished, c, p)
    ensures var q := To(p, SentCcs);
            var r := if nextProto then To(q, Sent(NextProto)) else q;
            var s := if channelId then To(r, Sent(ChannelId)) else r;
            SwitchedFrom(c, p, s)
  {
    hide Stands, To;
    SwitchMove(c, p);
    ExtensionMoves(p, c.session);
  }

  /** Only a switch and the messages of the extensions came since p. */
  predicate SwitchedFrom(c: Course, p: Phase, q: Phase) {
    && (q.step.ClientSwitched? || q.step.AfterNextProto? || q.step.AfterChannelId?) && q.step.resumed == c.session
    && q == p.(step := q.step)
  }

  lemma ClientFinishedStep(c: Course, p: Phase, q: Phase)
    requires Stands(SendClientFinished, c, p) && SwitchedFrom(c, p, q)
    ensures Stands(FinishFlight, c, To(q, Sent(Finished)))
  {}

  lemma FinishFlightStep(c: Course, p: Phase)
    requires Stands(FinishFlight, c, p)
    ensures Stands(if c.session then FinishClientHandshake else ReadSessionTicket, c, p)
  {}

  lemma SessionTicketStep(c: Course, p: Phase)
    requires Stands(ReadSessionTicket, c, p)
    ensures Stands(ProcessChangeCipherSpec, c, p) && !p.step.ServerSwitched?
    ensures var q := To(p, Consumed(NewSessionTicket));
            Stands(ProcessChangeCipherSpec, c, q) && !q.step.ServerSwitched?
  {}

  lemma ChangeCipherSpecStep(c: Course, p: Phase)
    requires Stands(ProcessChangeCipherSpec, c, p)
    ensures if p.step.ServerSwitched? then Stands(ReadServerFinished, c, p)
            else
              var q := To(p, ConsumedCcs);
              Stands(ProcessChangeCipherSpec, c, q) && q.step.ServerSwitched?
  {}

  lemma ServerFinishedStep(c: Course, p: Phase)
    requires Stands(ReadServerFinished, c, p)
    ensures Stands(if c.session then SendClientFinished else FinishClientHandshake, c,
                   To(p, Consumed(Finished)))
  {}

  lemma FinishStep(c: Course, p: Phase)
    requires Stands(FinishClientHandshake, c, p)
    ensures Stands(Done, c, p)
  {}

  // The order of the states

  lemma LeadsMeans(s: State, t: State, session: bool)
    requires Leads(s, t, session)
    ensures Rank(t, session) < Rank(s, session) && (Decided(s) ==> Decided(t))
  {}

  /** What bears on whether the handshake comes to its end: the state, how often callbacks may still ask to be called
      again, what failed, whether the messages are right ones, whether there is none, and whether one is awaited. */
  datatype Place = Place(state: State, session: bool, patience: nat, fault: Option<Fault>, right: bool, empty: bool,
                         due: bool)

  /** How steps lead from a to b: they fail only when something failed that they depend on or the message was not a
      right one; what is right stays right; they wait for a message only when there is none and one is awaited; and they
      lead to a later state unless the first has to be taken again, for that or because a callback asks for it. */
  predicate Forward(a: Place, b: Place, w: Wait) {
    && b.patience <= a.patience
    && (w == Error ==> b.fault.Some? || !a.right)
    && (w != Error ==>
          && b.fault == a.fault && (a.right ==> b.right) && w != EndOfEarlyData && w != EarlyDataRejected
          && (Reads(w) ==> b.empty && b.due)
          && (|| Leads(a.state, b.state, b.session)
              || (w != Ok && b.state == a.state && (b.patience < a.patience || (Reads(w) && a.empty)))))
    && (Decided(a.state) ==> b.session == a.session)
  }

  lemma ForwardOn(a: Place, b: Place, c: Place, w: Wait)
    requires Forward(a, b, Ok) && Forward(b, c, w)
    ensures Forward(a, c, w)
  {
    hide Leads, Decided;
    LeadsMeans(a.state, b.state, b.session);
    if w != Error {
      if Leads(b.state, c.state, c.session) || b.state == c.state {
        LeadsOn(a.state, b.state, c.state, b.session, c.session);
      }
    }
  }

  /** From a, waiting for v, to b, waiting for w: a later state; or the same, with a callback that may ask less often;
      or the same, now waiting for a message. */
  predicate Nearer(a: Place, v: Wait, b: Place, w: Wait) {
    && b.fault == a.fault
    && (|| Leads(a.state, b.state, b.session)
        || (b.state == a.state
            && (b.patience < a.patience || (b.patience == a.patience && Stage(w) < Stage(v)))))
    && (Decided(a.state) ==> b.session == a.session)
  }

  lemma NearerMeans(a: Place, v: Wait, b: Place, w: Wait)
    requires Nearer(a, v, b, w)
    ensures || Rank(b.state, b.session) < Rank(a.state, a.session)
            || (Rank(b.state, b.session) == Rank(a.state, a.session)
                && (b.patience < a.patience || (b.patience == a.patience && Stage(w) < Stage(v))))
  {
    if !Decided(a.state) {
      SameRank(a.state);
      if a.session != b.session {
        assert Rank(a.state, a.session) == Rank(a.state, b.session);
      }
    }
  }

  lemma DoneLast(s: State, before: bool, after: bool)
    ensures Rank(Done, after) == 0 && (s.Done? || Rank(s, before) > 0)
  {}

  lemma NearerSame(a: Place, v: Wait, b: Place, w: Wait, u: Wait)
    requires Nearer(a, v, b, w) && Stage(u) == Stage(w)
    ensures Nearer(a, v, b, u)
  {}

  lemma ForwardNearer(a: Place, v: Wait, m: Place, b: Place, w: Wait)
    requires m.right && m == a.(right := true, empty := m.empty, due := m.due) && (m.empty ==> !Reads(v))
    requires Forward(m, b, w)
    ensures w == Error ==> b.fault.Some?
    ensures w != Error ==> b.right && b.fault == a.fault && w != EndOfEarlyData && w != EarlyDataRejected
    ensures w != Error ==> (Reads(w) ==> b.empty && b.due) && Nearer(a, v, b, w)
  {
    hide Leads, Decided;
  }

  lemma LeadsOn(s: State, t: State, u: State, before: bool, after: bool)
    requires Leads(s, t, before) && (Leads(t, u, after) || t == u) && (Decided(t) ==> before == after)
    ensures Leads(s, u, after)
  {
    if !Decided(t) {
      SameRank(s);
      SameRank(t);
    }
  }

  lemma HelloOrder(session: bool)
    ensures Leads(StartConnect, EnterEarlyData, session)
    ensures Leads(EnterEarlyData, ReadHelloVerifyRequest, session) && Leads(EnterEarlyData, ReadingServerHello, session)
    ensures Leads(ReadHelloVerifyRequest, ReadingServerHello, session)
    ensures Leads(ReadingServerHello, if session then ReadSessionTicket else ReadServerCertificate, session)
    ensures Leads(ReadingServerHello, Tls13, session) && Leads(Tls13, FinishClientHandshake, session)
  {}

  lemma Undecided()
    ensures !Decided(StartConnect) && !Decided(ReadingServerHello)
  {}

  /** Before the ServerHello it does not matter yet whether a session is resumed. */
  lemma SameRank(s: State)
    requires !Decided(s)
    ensures Rank(s, true) == Rank(s, false)
  {}

  lemma FlightOrder(session: bool)
    ensures Leads(ReadServerCertificate, ReadCertificateStatus, session)
    ensures Leads(ReadCertificateStatus, VerifyServerCertificate, session)
    ensures Leads(VerifyServerCertificate, ReadServerKeyExchange, session)
    ensures Leads(ReadServerKeyExchange, ReadCertificateRequest, session)
    ensures Leads(ReadCertificateRequest, ReadServerHelloDone, session)
  {}

  lemma KeyOrder(session: bool)
    ensures Leads(ReadServerHelloDone, SendClientCertificate, session)
    ensures Leads(SendClientCertificate, SendClientKeyExchange, session)
    ensures Leads(SendClientKeyExchange, SendClientCertificateVerify, session)
    ensures Leads(SendClientCertificateVerify, SendClientFinished, session)
  {}

  lemma FinishOrder(session: bool)
    ensures Leads(SendClientFinished, FinishFlight, session)
    ensures Leads(FinishFlight, if session then FinishClientHandshake else ReadSessionTicket, session)
    ensures Leads(ReadSessionTicket, ProcessChangeCipherSpec, session)
    ensures Leads(ProcessChangeCipherSpec, ReadServerFinished, session)
    ensures Leads(ReadServerFinished, if session then SendClientFinished else FinishClientHandshake, session)
    ensures Leads(FinishClientHandshake, Done, session)
  {}

  /** A ChangeCipherSpec, and the messages of the extensions that were negotiated. */
  ghost function Switch(nextProto: bool, channelId: bool): seq<Mark> {
    [SentCcs] + (if nextProto then [Sent(NextProto)] else []) + (if channelId then [Sent(ChannelId)] else [])
  }

  class Client {
    const conn: Connection
    const dtls: bool
    const ssl3: bool
    const initialHandshakeComplete: bool
    var state: State
    var wait: Wait
    /** Whether there is a session to offer and, once decided, whether it is resumed. */
    var session: bool
    var earlyDataOffered: bool
    /** Whether the cipher authenticates with certificates, and whether it needs a ServerKeyExchange. */
    var certAuth: bool
    var needsKeyExchange: bool
    var statusExpected: bool
    var ticketExpected: bool
    var nextProtoSeen: bool
    var channelIdValid: bool
    var certRequest: bool
    var hasCertificate: bool
    var tls13: bool

    ghost function Now(): Course
      reads this
    {
      Course(session, certAuth, earlyDataOffered, certRequest, hasCertificate)
    }

    /** Where the handshake stands: the flow of messages is where the state says, the server's certificate is
        verified if one was used, and the transcript is that of the messages. */
    ghost predicate Valid()
      reads this, conn
    {
      && !conn.server
      && (state.Tls13? ==> tls13)
      && (tls13 ==> state.Tls13? || state.FinishClientHandshake? || state.Done?)
      && (!tls13 ==>
            conn.Valid() && Stands(state, Now(), conn.phase) && (Keyed(state) ==> conn.readKeyed))
    }

    /** Whether the peer's ChangeCipherSpec, which the state waits for, has come. */
    ghost predicate Switched()
      reads this, conn
    {
      state.ProcessChangeCipherSpec? ==> conn.phase.step.ServerSwitched?
    }

    /** What every step keeps. A step that waits and is taken again later has left nothing behind. */
    twostate predicate Stepped(w: Wait)
      reads this, conn, conn.world
    {
      && (tls13 || Lively(w))
      && (w != Error ==> Valid() && (Switched() <==> w != ReadChangeCipherSpec))
      && (old(tls13) ==> tls13) && (state.Done? ==> w == Ok || w == Error)
      && (w != Error && !tls13 ==> old(conn.log) <= conn.log && conn.received == old(conn.received))
      && (w != Error && !tls13 && state == old(state) ==> conn.Untouched())
      && (w == Ok || (w != Error && state != old(state)) ==> Leads(old(state), state, session))
      && (old(Decided(state)) ==> session == old(session))
    }

    function Needs(): Need
      reads this
    {
      Need(certAuth, needsKeyExchange, statusExpected, ticketExpected)
    }

    /** A message that the server may send now, and if it is Finished, with the right MAC. */
    predicate RightMessage(m: Message)
      reads this, conn
    {
      Awaits(state, Needs(), m.kind) && (m.kind == Finished ==> m.body == conn.mac(conn.transcript, true))
    }

    /** At most one message is there, and it is a right one. */
    ghost predicate Right()
      reads this, conn
    {
      conn.inbox == [] || (|conn.inbox| == 1 && RightMessage(conn.inbox[0]))
    }

    /** Why a step of TLS 1.2 or below fails or waits: it fails only when something failed that it depends on or the
        message was not a right one; what is right stays right; it waits for a message only when there is none and one
        is awaited; and it stays in its state only for that or because a callback asked to be called again. */
    twostate predicate Lively(w: Wait)
      reads this, conn, conn.world
    {
      var world := conn.world;
      && world.patience <= old(world.patience)
      && (w == Error ==> world.fault.Some? || !old(Right()))
      && (w != Error ==>
            && world.fault == old(world.fault) && (old(Right()) ==> Right())
            && w != EndOfEarlyData && w != EarlyDataRejected
            && (Reads(w) ==> conn.inbox == [] && Awaits(state, Needs(), Due(state, Needs())))
            && (w != Ok && state == old(state) ==>
                  world.patience < old(world.patience) || (Reads(w) && old(conn.inbox) == [])))
    }

    /** Led to a state, with exactly these marks. */
    twostate predicate Went(to: State, marks: seq<Mark>)
      reads this, conn
    {
      state == to && conn.Added(marks)
    }

    constructor (conn: Connection, dtls: bool, ssl3: bool, renegotiation: bool, session: bool, hasCertificate: bool)
      requires conn.Valid() && conn.log == [] && !conn.server
      ensures Rests() && this.conn == conn && state.StartConnect? && wait == Ok && !tls13
      ensures conn.inbox == [] ==> Ready()
    {
      this.conn, this.dtls, this.ssl3, initialHandshakeComplete := conn, dtls, ssl3, renegotiation;
      state, wait, this.session := StartConnect, Ok, session;
      earlyDataOffered, certAuth, needsKeyExchange, statusExpected := false, false, false, false;
      ticketExpected, nextProtoSeen, channelIdValid, certRequest := false, false, false, false;
      this.hasCertificate, tls13 := hasCertificate, false;
    }

    method DoStartConnect() returns (w: Wait)
      requires Valid() && state.StartConnect?
      modifies this`state, this`session, this`earlyDataOffered, conn, conn.world
      ensures Stepped(w)
      ensures w == Error ==> conn.world.fault == Some(Incompatible) || conn.world.fault == Some(NoRoom)
      ensures (w == Flush || w == Error) && (session ==> old(session))
      ensures w == Flush ==> Went(EnterEarlyData, [Sent(ClientHello)])
    {
      hide StatusNext, KeysNext, DoneNext;
      hide Connection.Valid, Connection.Pending, Stands, Next, Leads, Decided, Extended;
      Undecided();
      ghost var before := Now();
      var ready := OfferSession();
      if !ready {
        return Error;
      }
      assert Leads(StartConnect, EnterEarlyData, session) by {
        HelloOrder(session);
      }
      StartConnectStep(before, session, earlyDataOffered, conn.phase);
      var body: seq<byte> := *;
      var ok := conn.AddMessage(ClientHello, body);
      if !ok {
        return Error;
      }
      state := EnterEarlyData;
      return Flush;
    }

    /** Whether the session is still good enough to be offered, and early data with it. */
    method OfferSession() returns (ready: bool)
      modifies this`session, this`earlyDataOffered, conn.world`fault
      ensures session ==> old(session)
      ensures conn.world.fault == if ready then old(conn.world.fault) else Some(Incompatible)
    {
      var keep: bool := *;
      session, earlyDataOffered := session && keep, *;
      ready := conn.world.Try(Incompatible);
    }

    method DoEnterEarlyData() returns (w: Wait)
      requires Valid() && state.EnterEarlyData?
      modifies this`state, conn, conn.world
      ensures Stepped(w)
      ensures w == Error ==> (conn.world.fault == Some(NoRoom) || conn.world.fault == Some(KeysNotDerived))
      ensures dtls || !earlyDataOffered ==> w == Ok
      ensures w == Ok ==>
                (dtls || !earlyDataOffered) && Went(if dtls then ReadHelloVerifyRequest else ReadingServerHello, [])
      ensures w != Ok ==> !dtls && earlyDataOffered && (w == EarlyReturn || w == Error)
      ensures w == EarlyReturn ==> Went(ReadingServerHello, [SentCcs])
    {
      hide StatusNext, KeysNext, DoneNext;
      hide Connection.Valid, Connection.Pending, Stands, Next, Leads, Decided, Extended;
      ExtendedNone(conn.log);
      assert Leads(EnterEarlyData, ReadHelloVerifyRequest, session)
          && Leads(EnterEarlyData, ReadingServerHello, session) by {
        HelloOrder(session);
      }
      EnterEarlyDataStep(Now(), conn.phase);
      if dtls {
        state := ReadHelloVerifyRequest;
        return Ok;
      }
      if !earlyDataOffered {
        state := ReadingServerHello;
        return Ok;
      }
      var ok := SwitchEarly();
      if !ok {
        return Error;
      }
      state := ReadingServerHello;
      return EarlyReturn;
    }

    /** A ChangeCipherSpec, and the keys for early data. */
    method SwitchEarly() returns (ok: bool)
      requires conn.Valid()
      modifies conn`log, conn`phase, conn.world`fault
      ensures if ok then conn.world.fault == old(conn.world.fault)
              else conn.world.fault == Some(NoRoom) || conn.world.fault == Some(KeysNotDerived)
      ensures ok ==> conn.Valid() && old(conn.log) <= conn.log && conn.Added([SentCcs])
      ensures ok ==> conn.phase == Next(conn.server, old(conn.phase), SentCcs)
    {
      hide Connection.Valid, Next, Extended;
      ok := conn.AddChangeCipherSpec();
      if ok {
        ok := conn.world.Try(KeysNotDerived);
      }
    }

    method DoReadHelloVerifyRequest() returns (w: Wait)
      requires Valid() && state.ReadHelloVerifyRequest?
      modifies this`state, conn, conn.world
      ensures Stepped(w)
      ensures w == Error ==>
                && old(conn.Offers(HelloVerifyRequest))
                && (conn.world.fault == Some(Unparsable) || conn.world.fault == Some(NoRoom))
      ensures (w == Ok || w == ReadMessage || w == Flush || w == Error) && (w == ReadMessage <==> old(conn.inbox) == [])
      ensures w == Ok ==> !old(conn.Offers(HelloVerifyRequest)) && Went(ReadingServerHello, []) && conn.Untouched()
      ensures w == Flush ==>
                && old(conn.Offers(HelloVerifyRequest))
                && Went(ReadingServerHello, [Consumed(HelloVerifyRequest), Reset, Sent(ClientHello)])
                && conn.Anew()
    {
      hide StatusNext, KeysNext, DoneNext;
      hide Connection.Anew, Connection.Valid, Connection.Pending, Stands, Next, Leads, Decided, Extended;
      ExtendedNone(conn.log);
      assert Leads(ReadHelloVerifyRequest, ReadingServerHello, session) by {
        HelloOrder(session);
      }
      assert
        && Stands(ReadingServerHello, Now(), conn.phase)
        && var again := To(To(To(conn.phase, Consumed(HelloVerifyRequest)), Reset), Sent(ClientHello));
        Stands(ReadingServerHello, Now(), again)
      by {
        HelloVerifyRequestStep(Now(), conn.phase);
      }
      var message := conn.GetMessage();
      if message == None {
        return ReadMessage;
      }
      if message.value.kind != HelloVerifyRequest {
        state := ReadingServerHello;
        return Ok;
      }
      var ok := StartAgain();
      if !ok {
        return Error;
      }
      state := ReadingServerHello;
      return Flush;
    }

    /** The answer to a HelloVerifyRequest: the transcript starts again with the second ClientHello. */
    method StartAgain() returns (ok: bool)
      requires conn.Valid() && conn.Offers(HelloVerifyRequest)
      modifies conn`inbox, conn`transcript, conn`log, conn`phase, conn`protected, conn.world`fault
      ensures if ok then conn.world.fault == old(conn.world.fault)
              else conn.world.fault == Some(Unparsable) || conn.world.fault == Some(NoRoom)
      ensures ok ==> conn.Valid() && conn.inbox == old(conn.inbox)[1..] && old(conn.log) <= conn.log
      ensures ok ==> conn.Added([Consumed(HelloVerifyRequest), Reset, Sent(ClientHello)])
      ensures ok ==> conn.Anew()
      ensures ok ==>
                var consumed := Next(conn.server, old(conn.phase), Consumed(HelloVerifyRequest));
                conn.phase == Next(conn.server, Next(conn.server, consumed, Reset), Sent(ClientHello))
    {
      hide Connection.Valid, Next;
      ok := conn.world.Try(Unparsable);
      if !ok {
        return;
      }
      conn.ConsumeAndReset();
      var body: seq<byte> := *;
      ok := conn.AddMessage(ClientHello, body);
    }

    /** Handles the ServerHello: the parts that decide the rest of the handshake are whether the version is TLS 1.3,
        whether the session offered is resumed, the kind of cipher and what the extensions settle. */
    method DoReadServerHello() returns (w: Wait)
      requires Valid() && state.ReadingServerHello?
      modifies this, conn, conn.world
      ensures Stepped(w)
      ensures w == Error ==>
                || !old(conn.Offers(ServerHello))
                || conn.world.fault == Some(Unparsable) || conn.world.fault == Some(Incompatible)
                || conn.world.fault == Some(EarlyDataLost)
      ensures (w == Ok || w == ReadServerHello || w == Error) && (w == ReadServerHello <==> old(conn.inbox) == [])
      ensures w == Ok && tls13 ==> Went(Tls13, []) && conn.Untouched()
      ensures w == Ok && !tls13 ==>
                && !earlyDataOffered
                && Went(if session then ReadSessionTicket else ReadServerCertificate, [Consumed(ServerHello)])
      ensures (session ==> old(session)) && (w == Ok && !tls13 && session ==> !initialHandshakeComplete)
      ensures certRequest == old(certRequest) && hasCertificate == old(hasCertificate)
    {
      hide StatusNext, KeysNext, DoneNext;
      hide Connection.Valid, Connection.Pending, Stands, Next, Leads, Decided, Extended;
      Undecided();
      var message := conn.GetMessage();
      if message == None {
        return ReadServerHello;
      }
      if message.value.kind != ServerHello {
        return Error;
      }
      var parsed := conn.world.Try(Unparsable);
      if !parsed {
        return Error;
      }
      var version13: bool, sameSession: bool := *, *;
      if version13 {
        HelloOrder(session);
        ExtendedNone(conn.log);
        state, tls13 := Tls13, true;
        return Ok;
      }
      var fits := TakeServerHello(sameSession);
      if !fits {
        return Error;
      }
      HelloOrder(session);
      state := if session then ReadSessionTicket else ReadServerCertificate;
      return Ok;
    }

    /** The session is resumed when one was offered and the server names it, and never in a renegotiation. Whether
        the cipher chosen may be used is not determined here. */
    method ChooseSession(sameSession: bool) returns (cipherFits: bool)
      modifies this`session, this`certAuth, this`needsKeyExchange, conn.world`fault
      ensures session == (old(session) && sameSession && !initialHandshakeComplete)
      ensures conn.world.fault == if cipherFits then old(conn.world.fault) else Some(Incompatible)
    {
      session := !initialHandshakeComplete && session && sameSession;
      certAuth, needsKeyExchange := *, *;
      cipherFits := conn.world.Try(Incompatible);
    }

    /** The ServerHello of TLS 1.2 or below: after the session and the cipher are chosen the message is hashed, its
        extensions are parsed and it is consumed. */
    method TakeServerHello(sameSession: bool) returns (fits: bool)
      requires Valid() && state.ReadingServerHello? && conn.Offers(ServerHello)
      modifies this`session, this`certAuth, this`needsKeyExchange
      modifies this`statusExpected, this`ticketExpected, this`nextProtoSeen, this`channelIdValid
      modifies conn`inbox, conn`transcript, conn`log, conn`phase, conn`protected, conn`finishedProtected
      modifies conn.world`fault
      ensures session == if earlyDataOffered then old(session)
                         else old(session) && sameSession && !initialHandshakeComplete
      ensures conn.world.fault ==
              if fits then old(conn.world.fault)
              else if earlyDataOffered then Some(EarlyDataLost) else Some(Incompatible)
      ensures fits ==> !earlyDataOffered && conn.inbox == old(conn.inbox)[1..]
      ensures fits ==> conn.Valid() && old(conn.log) <= conn.log && conn.Added([Consumed(ServerHello)])
      ensures fits ==> Stands(if session then ReadSessionTicket else ReadServerCertificate, Now(), conn.phase)
    {
      hide Connection.Valid, Connection.Pending, Stands, Next;
      if earlyDataOffered {
        conn.world.Fail(EarlyDataLost);
        return false;
      }
      ghost var before := Now();
      fits := ChooseSession(sameSession);
      if !fits {
        return;
      }
      ServerHelloStep(before, session, certAuth, conn.phase);
      conn.HashMessage();
      fits := ParseExtensions();
      if fits {
        conn.NextMessage();
      }
    }

    /** ssl_parse_serverhello_tlsext, as far as it decides what follows. */
    method ParseExtensions() returns (fit: bool)
      modifies this`statusExpected, this`ticketExpected, this`nextProtoSeen, this`channelIdValid, conn.world`fault
      ensures conn.world.fault == if fit then old(conn.world.fault) else Some(Incompatible)
    {
      statusExpected, ticketExpected, nextProtoSeen, channelIdValid := *, *, *, *;
      fit := conn.world.Try(Incompatible);
    }

    method DoTls13() returns (w: Wait)
      requires Valid() && state.Tls13?
      modifies this, conn, conn.world
      ensures Stepped(w)
    {
      hide Stands, Leads, Decided;
      HelloOrder(session);
      conn.RunTls13();
      w :| w != ReadChangeCipherSpec;
      if w == Ok {
        state := FinishClientHandshake;
      }
    }

    method DoReadServerCertificate() returns (w: Wait)
      requires Valid() && state.ReadServerCertificate?
      modifies this`state, conn, conn.world
      ensures Stepped(w)
      ensures w == Error ==>
                && certAuth && old(conn.inbox) != []
                && (!old(conn.Offers(Certificate)) || conn.world.fault == Some(Unparsable))
      ensures (w == Ok || w == ReadMessage || w == Error) && (w == ReadMessage ==> old(conn.inbox) == [])
      ensures w == Ok ==> Went(ReadCertificateStatus, if certAuth then [Consumed(Certificate)] else [])
    {
      hide Connection.Valid, Connection.Pending, Stands, Next, Leads, Decided, Extended;
      ExtendedNone(conn.log);
      assert Leads(ReadServerCertificate, ReadCertificateStatus, session) by {
        FlightOrder(session);
      }
      ServerCertificateStep(Now(), conn.phase);
      if !certAuth {
        state := ReadCertificateStatus;
        return Ok;
      }
      var message := conn.GetMessage();
      if message == None {
        return ReadMessage;
      }
      if message.value.kind != Certificate {
        return Error;
      }
      var parsed := conn.HashAndParse(Unparsable);
      if !parsed {
        return Error;
      }
      state := ReadCertificateStatus;
      return Ok;
    }

    method DoReadCertificateStatus() returns (w: Wait)
      requires Valid() && state.ReadCertificateStatus?
      modifies this`state, conn, conn.world
      ensures Stepped(w)
      ensures w == Error ==>
                statusExpected && old(conn.Offers(CertificateStatus)) && conn.world.fault == Some(Unparsable)
      ensures (w == Ok || w == ReadMessage || w == Error) && (w == ReadMessage ==> old(conn.inbox) == [])
      ensures w == Ok ==>
                var comes := statusExpected && old(conn.Offers(CertificateStatus));
                Went(VerifyServerCertificate, if comes then [Consumed(CertificateStatus)] else [])
    {
      hide Connection.Valid, Connection.Pending, Stands, Next, Leads, Decided, Extended;
      ExtendedNone(conn.log);
      assert Leads(ReadCertificateStatus, VerifyServerCertificate, session) by {
        FlightOrder(session);
      }
      CertificateStatusStep(Now(), conn.phase);
      if !statusExpected {
        state := VerifyServerCertificate;
        return Ok;
      }
      var message := conn.GetMessage();
      if message == None {
        return ReadMessage;
      }
      if message.value.kind != CertificateStatus {
        state := VerifyServerCertificate;
        return Ok;
      }
      var parsed := conn.HashAndParse(Unparsable);
      if !parsed {
        return Error;
      }
      state := VerifyServerCertificate;
      return Ok;
    }

    /** The chain is checked with ssl_verify_peer_cert, which may ask to be called again. */
    method DoVerifyServerCertificate() returns (w: Wait)
      requires Valid() && state.VerifyServerCertificate?
      modifies this`state, conn, conn.world
      ensures Stepped(w)
      ensures w == Error ==> certAuth && conn.world.fault == Some(Untrusted)
      ensures !certAuth ==> w == Ok
      ensures w == Ok || w == CertificateVerifyPending || w == Error
      ensures w == Ok ==> Went(ReadServerKeyExchange, if certAuth then [Checked] else [])
    {
      hide Connection.Valid, Connection.Pending, Stands, Next, Leads, Decided, Extended;
      ExtendedNone(conn.log);
      assert Leads(VerifyServerCertificate, ReadServerKeyExchange, session) by {
        FlightOrder(session);
      }
      VerifyStep(Now(), conn.phase);
      if !certAuth {
        state := ReadServerKeyExchange;
        return Ok;
      }
      var result := conn.VerifyPeerCert();
      if result.VerifyInvalid? {
        return Error;
      }
      if result.VerifyRetry? {
        return CertificateVerifyPending;
      }
      state := ReadServerKeyExchange;
      return Ok;
    }

    method DoReadServerKeyExchange() returns (w: Wait)
      requires Valid() && state.ReadServerKeyExchange?
      modifies this`state, conn, conn.world
      ensures Stepped(w)
      ensures w == Error ==> old(conn.inbox) != []
      ensures w == Error ==>
                if old(conn.Offers(ServerKeyExchange)) then conn.world.fault == Some(Unparsable) else needsKeyExchange
      ensures (w == Ok || w == ReadMessage || w == Error) && (w == ReadMessage ==> old(conn.inbox) == [])
      ensures w == Ok ==>
                var comes := old(conn.Offers(ServerKeyExchange));
                (needsKeyExchange ==> comes) &&
                Went(ReadCertificateRequest, if comes then [Consumed(ServerKeyExchange)] else [])
    {
      hide Connection.Valid, Connection.Pending, Stands, Next, Leads, Decided, Extended;
      ExtendedNone(conn.log);
      assert Leads(ReadServerKeyExchange, ReadCertificateRequest, session) by {
        FlightOrder(session);
      }
      ServerKeyExchangeStep(Now(), conn.phase);
      var message := conn.GetMessage();
      if message == None {
        return ReadMessage;
      }
      if message.value.kind != ServerKeyExchange {
        if needsKeyExchange {
          return Error;
        }
        state := ReadCertificateRequest;
        return Ok;
      }
      var parsed := conn.HashAndParse(Unparsable);
      if !parsed {
        return Error;
      }
      state := ReadCertificateRequest;
      return Ok;
    }

    method DoReadCertificateRequest() returns (w: Wait)
      requires Valid() && state.ReadCertificateRequest?
      modifies this`state, this`certRequest, conn, conn.world
      ensures Stepped(w)
      ensures w == Error ==>
                && certAuth && old(conn.inbox) != [] && !old(conn.Offers(Kind.ServerHelloDone))
                && (!old(conn.Offers(CertificateRequest)) || conn.world.fault == Some(Unparsable))
      ensures (w == Ok || w == ReadMessage || w == Error) && (w == ReadMessage ==> old(conn.inbox) == [])
      ensures w == Ok ==>
                var comes := certAuth && old(conn.Offers(CertificateRequest));
                && (certAuth && !comes ==> old(conn.Offers(Kind.ServerHelloDone)))
                && certRequest == (old(certRequest) || comes)
                && Went(ReadServerHelloDone, if comes then [Consumed(CertificateRequest)] else [])
    {
      hide Connection.Valid, Connection.Pending, Stands, Next, Leads, Decided, Extended;
      ExtendedNone(conn.log);
      assert Leads(ReadCertificateRequest, ReadServerHelloDone, session) by {
        FlightOrder(session);
      }
      CertificateRequestStep(Now(), conn.phase);
      if !certAuth {
        state := ReadServerHelloDone;
        return Ok;
      }
      var message := conn.GetMessage();
      if message == None {
        return ReadMessage;
      }
      if message.value.kind == Kind.ServerHelloDone {
        state := ReadServerHelloDone;
        return Ok;
      }
      if message.value.kind != CertificateRequest {
        return Error;
      }
      var parsed := conn.HashAndParse(Unparsable);
      if !parsed {
        return Error;
      }
      certRequest := true;
      state := ReadServerHelloDone;
      return Ok;
    }

    method DoReadServerHelloDone() returns (w: Wait)
      requires Valid() && state.ReadServerHelloDone?
      modifies this`state, conn, conn.world
      ensures Stepped(w)
      ensures w == Error ==>
                && old(conn.inbox) != []
                && (!old(conn.Offers(Kind.ServerHelloDone)) || conn.world.fault == Some(Unparsable))
      ensures (w == Ok || w == ReadMessage || w == Error) && (w == ReadMessage ==> old(conn.inbox) == [])
      ensures w == Ok ==> Went(SendClientCertificate, [Consumed(Kind.ServerHelloDone)])
    {
      hide Connection.Valid, Connection.Pending, Stands, Next, Leads, Decided, Extended;
      ExtendedNone(conn.log);
      assert Leads(ReadServerHelloDone, SendClientCertificate, session) by {
        KeyOrder(session);
      }
      ServerHelloDoneStep(Now(), conn.phase);
      var message := conn.GetMessage();
      if message == None {
        return ReadMessage;
      }
      if message.value.kind != Kind.ServerHelloDone {
        return Error;
      }
      var parsed := conn.HashAndParse(Unparsable);
      if !parsed {
        return Error;
      }
      state := SendClientCertificate;
      return Ok;
    }

    /** The certificate callback may choose a certificate, refuse, or ask to be called again. In SSL 3.0 a client
        without a certificate sends an alert in place of the message. */
    method DoSendClientCertificate() returns (w: Wait)
      requires Valid() && state.SendClientCertificate?
      modifies this`state, this`hasCertificate, conn, conn.world
      ensures Stepped(w)
      ensures w == Error ==> certRequest && (conn.world.fault == Some(Denied) || conn.world.fault == Some(NoRoom))
      ensures w == Ok || w == X509Lookup || w == Error
      ensures (!certRequest ==> w == Ok && hasCertificate == old(hasCertificate))
      ensures w == Ok ==>
                Went(SendClientKeyExchange,
                     if certRequest && (hasCertificate || !ssl3) then [Sent(Certificate)] else [])
    {
      hide StatusNext, KeysNext, DoneNext;
      hide Connection.Valid, Connection.Pending, Stands, Next, Leads, Decided, Extended;
      ExtendedNone(conn.log);
      assert Leads(SendClientCertificate, SendClientKeyExchange, session) by {
        KeyOrder(session);
      }
      ghost var before := Now();
      if !certRequest {
        ClientCertificateStep(before, hasCertificate, conn.phase);
        state := SendClientKeyExchange;
        return Ok;
      }
      w := ChooseCertificate();
      if w != Ok {
        return;
      }
      var ok := SendCertificate();
      if !ok {
        return Error;
      }
      ClientCertificateStep(before, hasCertificate, old(conn.phase));
      state := SendClientKeyExchange;
      return Ok;
    }

    /** Certificate, or in SSL 3.0 without one an alert. */
    method SendCertificate() returns (ok: bool)
      requires conn.Valid()
      modifies conn`transcript, conn`log, conn`phase, conn.world`fault
      ensures conn.world.fault == if ok then old(conn.world.fault) else Some(NoRoom)
      ensures ok ==> conn.Valid() && old(conn.log) <= conn.log
      ensures ok ==> conn.Added(if hasCertificate || !ssl3 then [Sent(Certificate)] else [])
      ensures ok ==>
                conn.phase == if hasCertificate || !ssl3 then Next(conn.server, old(conn.phase), Sent(Certificate))
                              else old(conn.phase)
    {
      hide Connection.Valid, Next, Extended;
      ExtendedNone(conn.log);
      var body: seq<byte> := *;
      if !hasCertificate && ssl3 {
        ok := conn.world.Try(NoRoom);
      } else {
        ok := conn.AddMessage(Certificate, body);
      }
    }

    /** The certificate callback. */
    method ChooseCertificate() returns (w: Wait)
      modifies this`hasCertificate, conn.world
      ensures (w == Ok || w == X509Lookup || w == Error) && (w == X509Lookup ==> hasCertificate == old(hasCertificate))
      ensures conn.world.fault == if w == Error then Some(Denied) else old(conn.world.fault)
      ensures if w == X509Lookup then conn.world.patience < old(conn.world.patience)
              else conn.world.patience == old(conn.world.patience)
    {
      w := conn.world.Ask(X509Lookup, Denied);
      if w == Ok {
        hasCertificate := *;
      }
    }

    method DoSendClientKeyExchange() returns (w: Wait)
      requires Valid() && state.SendClientKeyExchange?
      modifies this`state, conn, conn.world
      ensures Stepped(w)
      ensures w == Error ==> (conn.world.fault == Some(NotComputed) || conn.world.fault == Some(NoRoom))
      ensures w == Ok || w == Error
      ensures w == Ok ==> Went(SendClientCertificateVerify, [Sent(ClientKeyExchange)])
    {
      hide StatusNext, KeysNext, DoneNext;
      hide Connection.Valid, Connection.Pending, Stands, Next, Leads, Decided, Extended;
      ExtendedNone(conn.log);
      assert Leads(SendClientKeyExchange, SendClientCertificateVerify, session) by {
        KeyOrder(session);
      }
      ClientKeyExchangeStep(Now(), conn.phase);
      var body: seq<byte> := *;
      var computed := conn.world.Try(NotComputed);
      if !computed {
        return Error;
      }
      var ok := conn.AddMessage(ClientKeyExchange, body);
      if !ok {
        return Error;
      }
      state := SendClientCertificateVerify;
      return Ok;
    }

    method DoSendClientCertificateVerify() returns (w: Wait)
      requires Valid() && state.SendClientCertificateVerify?
      modifies this`state, conn, conn.world
      ensures Stepped(w)
      ensures w != Ok ==> certRequest && hasCertificate
      ensures w == Error ==> (conn.world.fault == Some(NotSigned) || conn.world.fault == Some(NoRoom))
      ensures w == Ok || w == PrivateKeyOperation || w == Error
      ensures w == Ok ==>
                Went(SendClientFinished, if certRequest && hasCertificate then [Sent(CertificateVerify)] else [])
    {
      hide StatusNext, KeysNext, DoneNext;
      hide Connection.Valid, Connection.Pending, Stands, Next, Leads, Decided, Extended;
      ExtendedNone(conn.log);
      assert Leads(SendClientCertificateVerify, SendClientFinished, session) by {
        KeyOrder(session);
      }
      CertificateVerifyStep(Now(), conn.phase);
      if !certRequest || !hasCertificate {
        state := SendClientFinished;
        return Ok;
      }
      var body: seq<byte> := *;
      w := conn.world.Ask(PrivateKeyOperation, NotSigned);
      if w != Ok {
        return;
      }
      var ok := conn.AddMessage(CertificateVerify, body);
      if !ok {
        return Error;
      }
      state := SendClientFinished;
      return Ok;
    }

    method DoSendClientFinished() returns (w: Wait)
      requires Valid() && state.SendClientFinished?
      modifies this`state, conn, conn.world
      ensures Stepped(w)
      ensures w == Error ==>
                || conn.world.fault == Some(Denied) || conn.world.fault == Some(NoRoom)
                || conn.world.fault == Some(KeysNotDerived)
      ensures w == ChannelIdLookup ==> channelIdValid
      ensures w == Flush || w == ChannelIdLookup || w == Error
      ensures w == Flush ==> Went(FinishFlight, Switch(nextProtoSeen, channelIdValid) + [Sent(Finished)])
    {
      hide StatusNext, KeysNext, DoneNext;
      hide Connection.Valid, Connection.Pending, Stands, Next, Leads, Decided, Extended, Switch;
      assert Leads(SendClientFinished, FinishFlight, session) by {
        FinishOrder(session);
      }
      w := AskForChannelId();
      if w != Ok {
        return;
      }
      var ok := SendSwitchAndFinished();
      if !ok {
        return Error;
      }
      state := FinishFlight;
      return Flush;
    }

    /** The callback for the key of the Channel ID, if there is one. */
    method AskForChannelId() returns (w: Wait)
      modifies conn.world
      ensures w == Ok || (channelIdValid && (w == ChannelIdLookup || w == Error))
      ensures conn.world.fault == if w == Error then Some(Denied) else old(conn.world.fault)
      ensures if w == ChannelIdLookup then conn.world.patience < old(conn.world.patience)
              else conn.world.patience == old(conn.world.patience)
    {
      if !channelIdValid {
        return Ok;
      }
      w := conn.world.Ask(ChannelIdLookup, Denied);
    }

    /** The part of do_send_client_finished that sends. */
    method SendSwitchAndFinished() returns (ok: bool)
      requires Valid() && state.SendClientFinished?
      modifies conn`transcript, conn`log, conn`phase, conn.world`fault
      ensures if ok then conn.world.fault == old(conn.world.fault)
              else conn.world.fault == Some(NoRoom) || conn.world.fault == Some(KeysNotDerived)
      ensures ok ==> conn.Valid() && old(conn.log) <= conn.log
      ensures ok ==> conn.Added(Switch(nextProtoSeen, channelIdValid) + [Sent(Finished)])
      ensures ok ==> Stands(FinishFlight, Now(), conn.phase)
    {
      hide Connection.Valid, Connection.Pending, Stands, Next, SwitchedFrom, Extended, Switch;
      ok := SendSwitch();
      if !ok {
        return;
      }
      ClientFinishedStep(Now(), old(conn.phase), conn.phase);
      ghost var log := conn.log;
      ok := conn.SendFinished();
      if ok {
        ExtendedAppend(old(conn.log), log, Switch(nextProtoSeen, channelIdValid), conn.log[|log|]);
      }
    }

    /** The part of do_send_client_finished before the Finished: ChangeCipherSpec, and after it the messages of two
        extensions. */
    method SendSwitch() returns (ok: bool)
      requires Valid() && state.SendClientFinished?
      modifies conn`transcript, conn`log, conn`phase, conn.world`fault
      ensures if ok then conn.world.fault == old(conn.world.fault)
              else conn.world.fault == Some(NoRoom) || conn.world.fault == Some(KeysNotDerived)
      ensures ok ==> conn.Valid() && old(conn.log) <= conn.log && conn.Added(Switch(nextProtoSeen, channelIdValid))
      ensures ok ==> SwitchedFrom(Now(), old(conn.phase), conn.phase)
    {
      hide Connection.Valid, Connection.Pending, Stands, Next;
      ClientSwitchStep(Now(), conn.phase, nextProtoSeen, channelIdValid);
      var body: seq<byte> := *;
      ok := conn.AddChangeCipherSpec();
      if !ok {
        return;
      }
      ok := conn.world.Try(KeysNotDerived);
      if !ok {
        return;
      }
      if nextProtoSeen {
        ok := conn.AddMessage(NextProto, body);
        if !ok {
          return;
        }
      }
      if channelIdValid {
        ok := conn.AddMessage(ChannelId, body);
      }
    }

    method DoFinishFlight() returns (w: Wait)
      requires Valid() && state.FinishFlight?
      modifies this`state, conn, conn.world
      ensures Stepped(w)
      ensures w == Error ==> !session && conn.world.fault == Some(Denied)
      ensures w == Ok || w == EarlyReturn || w == Error
      ensures w != Error ==> Went(if session then FinishClientHandshake else ReadSessionTicket, []) && conn.Untouched()
      ensures w == EarlyReturn ==> !session && !dtls && !initialHandshakeComplete
    {
      hide StatusNext, KeysNext, DoneNext;
      hide Connection.Valid, Connection.Pending, Stands, Next, Leads, Decided, Extended;
      ExtendedNone(conn.log);
      assert Leads(FinishFlight, if session then FinishClientHandshake else ReadSessionTicket, session) by {
        FinishOrder(session);
      }
      FinishFlightStep(Now(), conn.phase);
      if session {
        state := FinishClientHandshake;
        return Ok;
      }
      var falseStart: bool := *;
      var recorded := conn.world.Try(Denied);
      if !recorded {
        return Error;
      }
      state := ReadSessionTicket;
      return if falseStart && !dtls && !initialHandshakeComplete then EarlyReturn else Ok;
    }

    method DoReadSessionTicket() returns (w: Wait)
      requires Valid() && state.ReadSessionTicket?
      modifies this`state, this`ticketExpected, conn, conn.world
      ensures Stepped(w)
      ensures w == Error ==>
                && ticketExpected && old(conn.inbox) != []
                && (!old(conn.Offers(NewSessionTicket)) || conn.world.fault == Some(Unparsable))
      ensures !old(ticketExpected) ==> w == ReadChangeCipherSpec
      ensures w == ReadChangeCipherSpec || w == ReadMessage || w == Error
      ensures w == ReadMessage ==> old(conn.inbox) == [] && ticketExpected
      ensures w == ReadChangeCipherSpec ==>
                Went(ProcessChangeCipherSpec, if old(ticketExpected) then [Consumed(NewSessionTicket)] else [])
    {
      hide StatusNext, KeysNext, DoneNext;
      hide Connection.Valid, Connection.Pending, Stands, Next, Leads, Decided, Extended;
      ExtendedNone(conn.log);
      assert Leads(ReadSessionTicket, ProcessChangeCipherSpec, session) by {
        FinishOrder(session);
      }
      SessionTicketStep(Now(), conn.phase);
      if !ticketExpected {
        state := ProcessChangeCipherSpec;
        return ReadChangeCipherSpec;
      }
      var message := conn.GetMessage();
      if message == None {
        return ReadMessage;
      }
      if message.value.kind != NewSessionTicket {
        return Error;
      }
      var parsed := TakeTicket();
      if !parsed {
        return Error;
      }
      state := ProcessChangeCipherSpec;
      return ReadChangeCipherSpec;
    }

    /** A ticket is parsed, hashed and consumed; an empty one is none. */
    method TakeTicket() returns (parsed: bool)
      requires conn.Valid() && conn.Offers(NewSessionTicket)
      modifies this`ticketExpected
      modifies conn`inbox, conn`transcript, conn`log, conn`phase, conn`protected, conn`finishedProtected
      modifies conn.world`fault
      ensures conn.world.fault == if parsed then old(conn.world.fault) else Some(Unparsable)
      ensures if parsed then ticketExpected ==> old(ticketExpected) else ticketExpected == old(ticketExpected)
      ensures parsed ==> conn.Valid() && conn.inbox == old(conn.inbox)[1..] && old(conn.log) <= conn.log
      ensures parsed ==> conn.Added([Consumed(NewSessionTicket)])
      ensures parsed ==> conn.phase == Next(conn.server, old(conn.phase), Consumed(NewSessionTicket))
    {
      hide Connection.Valid, Next, Extended;
      parsed := conn.HashAndParse(Unparsable);
      var empty: bool := *;
      ticketExpected := ticketExpected && !(parsed && empty);
    }

    lemma ConsumedTheSwitch()
      requires Valid() && state.ProcessChangeCipherSpec? && Switched()
      ensures ConsumedCcs in Marks(conn.log)
    {
      hide Follow, Connection.Protected;
      SwitchMarked(false, Marks(conn.log));
    }

    /** The read cipher is changed, and only where no message is left from before. */
    method DoProcessChangeCipherSpec() returns (w: Wait)
      requires Valid() && state.ProcessChangeCipherSpec? && Switched()
      modifies this`state, conn, conn.world
      ensures Stepped(w)
      ensures w == Error ==> old(conn.inbox) != [] || conn.world.fault == Some(KeysNotDerived)
      ensures w == Ok || w == Error
      ensures w == Ok ==> Went(ReadServerFinished, []) && conn.Untouched() && conn.inbox == [] && conn.readKeyed
    {
      hide StatusNext, KeysNext, DoneNext;
      hide Connection.Valid, Connection.Pending, Stands, Next, Leads, Decided, Extended;
      ExtendedNone(conn.log);
      assert Leads(ProcessChangeCipherSpec, ReadServerFinished, session) by {
        FinishOrder(session);
      }
      ChangeCipherSpecStep(Now(), conn.phase);
      ConsumedTheSwitch();
      var switched := conn.SetReadState();
      if !switched {
        return Error;
      }
      state := ReadServerFinished;
      return Ok;
    }

    method DoReadServerFinished() returns (w: Wait)
      requires Valid() && state.ReadServerFinished?
      modifies this`state, conn, conn.world
      ensures Stepped(w)
      ensures w == Error ==>
                && old(conn.inbox) != []
                && (!old(conn.Offers(Finished)) || old(conn.inbox[0]).body != conn.mac(old(conn.transcript), true))
      ensures (w == Ok || w == ReadMessage || w == Error) && (w == ReadMessage ==> old(conn.inbox) == [])
      ensures w == Ok ==>
                && Went(if session then SendClientFinished else FinishClientHandshake, [Consumed(Finished)])
                && old(conn.Offers(Finished)) && old(conn.inbox[0]).body == conn.mac(old(conn.transcript), true)
    {
      hide StatusNext, KeysNext, DoneNext;
      hide Connection.Valid, Connection.Pending, Stands, Next, Leads, Decided, Extended;
      ExtendedNone(conn.log);
      assert Leads(ReadServerFinished, if session then SendClientFinished else FinishClientHandshake, session) by {
        FinishOrder(session);
      }
      ServerFinishedStep(Now(), conn.phase);
      w := conn.GetFinished();
      if w != Ok {
        return;
      }
      state := if session then SendClientFinished else FinishClientHandshake;
    }

    method DoFinishClientHandshake() returns (w: Wait)
      requires Valid() && state.FinishClientHandshake?
      modifies this`state, conn, conn.world
      ensures Stepped(w)
      ensures w == Error ==> !session && conn.world.fault == Some(NoRoom)
      ensures w == Ok || w == Error
      ensures w == Ok ==> state.Done? && conn.Untouched()
    {
      hide StatusNext, KeysNext, DoneNext;
      hide Connection.Valid, Connection.Pending, Stands, Next, Leads, Decided, Extended;
      ExtendedNone(conn.log);
      FinishOrder(session);
      if !tls13 {
        FinishStep(Now(), conn.phase);
      }
      if !session {
        var copied := conn.world.Try(NoRoom);
        if !copied {
          return Error;
        }
      }
      state := Done;
      return Ok;
    }

    /** The log only grew, and no message arrived. */
    twostate predicate Extends()
      reads conn
    {
      old(conn.log) <= conn.log && conn.received == old(conn.received)
    }

    /** Where the handshake is, for the question whether it comes to its end. */
    ghost function Here(): Place
      reads this, conn, conn.world
    {
      Place(state, session, conn.world.patience, conn.world.fault, Right(), conn.inbox == [],
            Awaits(state, Needs(), Due(state, Needs())))
    }

    twostate lemma SteppedForward(w: Wait)
      requires Stepped(w) && !tls13
      ensures Forward(old(Here()), Here(), w)
    {
      hide Right, Leads, Awaits, Due, Decided;
    }

    /** ssl_client_handshake: runs steps until one has to wait, or fails, or the handshake is done. */
    method Handshake() returns (w: Wait)
      requires Valid() && Switched()
      modifies this, conn, conn.world
      ensures w != Error ==> Valid() && (Switched() <==> w != ReadChangeCipherSpec)
      ensures w != Error ==> (w == Ok <==> state.Done?)
      ensures old(Decided(state)) ==> session == old(session) && (w != Error ==> Decided(state))
      ensures (old(tls13) ==> tls13) && (w != Error && !tls13 ==> Extends())
      ensures tls13 || old(state.Done?) || Forward(old(Here()), Here(), w)
      ensures old(state.Done?) ==> w == Ok && unchanged(this) && unchanged(conn) && unchanged(conn.world)
    {
      hide Stands, Connection.Valid, Valid, Right, Leads, Awaits, Decided, Forward, Lively, Here;
      w := Ok;
      ghost var origin := Here();
      ghost var first := true;
      while !state.Done?
        invariant Valid() && Switched() && w == Ok
        invariant old(Decided(state)) ==> Decided(state) && session == old(session)
        invariant (old(tls13) ==> tls13) && (!tls13 ==> Extends())
        invariant tls13 || if first then Here() == origin else Forward(origin, Here(), Ok)
        invariant first ==> state == old(state)
        invariant old(state.Done?) ==> unchanged(this) && unchanged(conn) && unchanged(conn.world)
        decreases Rank(state, session)
      {
        if !Decided(state) {
          SameRank(state);
        }
        ghost var from, before := Here(), state;
        w := Do();
        if w == Ok || (w != Error && state != before) {
          LeadsMeans(before, state, session);
        }
        if !tls13 && !first {
          ForwardOn(origin, from, Here(), w);
        }
        if w != Ok {
          return;
        }
        first := false;
      }
    }

    /** The switch in the loop of ssl_client_handshake. */
    method Do() returns (w: Wait)
      requires Valid() && Switched() && !state.Done?
      modifies this, conn, conn.world
      ensures Stepped(w)
      ensures tls13 || Forward(old(Here()), Here(), w)
    {
      hide Valid, Stepped, Switched, Forward, Here;
      match state {
      case StartConnect => w := DoStartConnect();
      case EnterEarlyData => w := DoEnterEarlyData();
      case ReadHelloVerifyRequest => w := DoReadHelloVerifyRequest();
      case ReadingServerHello => w := DoReadServerHello();
      case Tls13 => w := DoTls13();
      case ReadServerCertificate => w := DoReadServerCertificate();
      case ReadCertificateStatus => w := DoReadCertificateStatus();
      case VerifyServerCertificate => w := DoVerifyServerCertificate();
      case ReadServerKeyExchange => w := DoReadServerKeyExchange();
      case ReadCertificateRequest => w := DoReadCertificateRequest();
      case ReadServerHelloDone => w := DoReadServerHelloDone();
      case SendClientCertificate => w := DoSendClientCertificate();
      case SendClientKeyExchange => w := DoSendClientKeyExchange();
      case SendClientCertificateVerify => w := DoSendClientCertificateVerify();
      case SendClientFinished => w := DoSendClientFinished();
      case FinishFlight => w := DoFinishFlight();
      case ReadSessionTicket => w := DoReadSessionTicket();
      case ProcessChangeCipherSpec => w := DoProcessChangeCipherSpec();
      case ReadServerFinished => w := DoReadServerFinished();
      case FinishClientHandshake => w := DoFinishClientHandshake();
      }
      if !tls13 {
        SteppedForward(w);
      }
    }

    /** Between calls: the handshake failed, or it stands somewhere and waits for a ChangeCipherSpec exactly when it
        has not come yet. */
    ghost predicate Rests()
      reads this, conn
    {
      wait != Error ==> Valid() && (Switched() <==> wait != ReadChangeCipherSpec) && (state.Done? ==> wait == Ok)
    }

    /** ssl_run_handshake, with the answers that the record layer and the application give in turn. It goes on as
        long as there are answers, and may be called again after it returned. How many answers it took is given
        back, and the messages received are those that came with them. */
    method Run(answers: seq<Answer>) returns (result: RunResult, used: nat)
      requires Rests()
      modifies this, conn, conn.world
      ensures Rests() && used <= |answers|
      ensures result == HandshakeDone <==> wait == Ok && state.Done?
      ensures result == RunResult.Failed <==> wait == Error
      ensures old(Decided(state)) && wait != Error ==> Decided(state) && session == old(session)
      ensures old(tls13) ==> tls13
      ensures wait != Error && !tls13 ==>
                old(conn.log) <= conn.log && conn.received == old(conn.received) + Arrived(answers[..used])
      ensures old(Ready() && Meets(answers)) ==> Onward()
    {
      hide Rests, Decided, Switched, Arrived, Awake, Met, Nearer, Here, Resolved;
      used := 0;
      NoneArrived(answers);
      ghost var ran := false;
      ghost var promised := Ready() && Meets(answers);
      while true
        invariant 0 <= used <= |answers| && Rests()
        invariant old(Decided(state)) && wait != Error ==> Decided(state) && session == old(session)
        invariant old(tls13) ==> tls13
        invariant wait != Error && !tls13 ==>
                    old(conn.log) <= conn.log && conn.received == old(conn.received) + Arrived(answers[..used])
        invariant promised && !ran ==>
                    used == 0 && Ready() && Meets(answers) && Here() == old(Here()) && wait == old(wait)
        invariant promised && ran ==> used == |answers| && wait != Ok && wait != Error
        invariant promised && ran ==> tls13 || (Awake() && Nearer(old(Here()), old(wait), Here(), wait))
        decreases |answers| - used, if wait == Ok then 1 else 0
      {
        ghost var waited := wait;
        var resolution, taken := Turn(if used < |answers| then Some(answers[used]) else None);
        if taken {
          OneMoreArrived(answers, used);
          used := used + 1;
        }
        if resolution.Return? {
          if promised && ran && !tls13 {
            NearerSame(old(Here()), old(wait), Here(), waited, wait);
          }
          return resolution.result, used;
        }
        if resolution.Proceed? {
          if wait == Error {
            return RunResult.Failed, used;
          }
          if wait == Ok {
            return HandshakeDone, used;
          }
        }
        ran := true;
      }
    }

    /** The handshake rests where it can go on with an answer, and no message but a right one is there. */
    ghost predicate Ready()
      reads this, conn
    {
      Awake() && Stopped(wait)
    }

    ghost predicate Awake()
      reads this, conn
    {
      && Rests() && wait != Error && wait != EndOfEarlyData && wait != EarlyDataRejected && !tls13 && Right()
      && (Reads(wait) ==> conn.inbox == [] && Awaits(state, Needs(), Due(state, Needs())))
    }

    /** An answer that is needed, and if it is a message, a right one. */
    ghost predicate Met(answer: Option<Answer>)
      reads this, conn
    {
      Answers(wait, answer) && (Reads(wait) ==> RightMessage(answer.value.messages[0]))
    }

    ghost predicate Meets(answers: seq<Answer>)
      reads this, conn
    {
      |answers| <= 1 && Met(if answers == [] then None else Some(answers[0]))
    }

    /** Something failed, or the handshake is done, or it is nearer to its end and can go on. */
    twostate predicate Onward()
      reads this, conn, conn.world
    {
      || tls13 || (wait == Error && conn.world.fault.Some?)
      || (Ready() && (state.Done? || Nearer(old(Here()), old(wait), Here(), wait)))
    }

    /** One round of the loop of ssl_run_handshake. */
    method Turn(answer: Option<Answer>) returns (r: Resolution, taken: bool)
      requires Rests()
      modifies this, conn, conn.world
      ensures Rests() && (r, taken) == (Resolved(old(wait), answer, dtls).0, Resolved(old(wait), answer, dtls).1)
      ensures r == Proceed && wait == Ok ==> state.Done?
      ensures r != Proceed && wait != Error ==> !state.Done?
      ensures r == Proceed ==> taken || old(wait) == Ok
      ensures (r == Again ==> taken) && (taken ==> answer.Some?)
      ensures r.Return? ==> !taken && r.result != HandshakeDone && (r.result == RunResult.Failed <==> wait == Error)
      ensures old(wait) == Error ==> r.Return? && wait == Error
      ensures r != Proceed ==> (wait == Error <==> old(wait) == Error)
      ensures r != Proceed ==> wait == Resolved(old(wait), answer, dtls).2
      ensures old(Decided(state)) && wait != Error ==> Decided(state) && session == old(session)
      ensures old(tls13) ==> tls13
      ensures wait != Error && !tls13 ==>
                && old(conn.log) <= conn.log
                && conn.received == old(conn.received) + if taken then Arrived([answer.value]) else []
      ensures old(Ready() && Met(answer)) ==>
                && r == Proceed && taken == answer.Some?
                && (|| tls13 || (wait == Error && conn.world.fault.Some?)
                    || (wait != Error && Awake() && (wait == Ok || Nearer(old(Here()), old(wait), Here(), wait))))
      ensures answer == None && old(Awake() && wait != Ok) ==>
                && r.Return? && !taken && Ready() && Here() == old(Here()) && Stage(wait) == Stage(old(wait))
    {
      assert state.Done? && wait != Error ==> wait == Ok;
      hide Valid, Rests, Switched, Decided, Leads, Awaits, Due, Forward, Nearer, Resolved, Answers, Arrived, Right;
      hide Met, RightMessage;
      ResolvedMeans(wait, answer, dtls);
      ghost var from, waited, met := Here(), wait, Ready() && Met(answer);
      r, taken := Admit(answer);
      ghost var resolved := Here();
      if r == Proceed {
        Continue();
        if met && !tls13 && !old(state.Done?) {
          ForwardNearer(from, waited, resolved, Here(), wait);
        }
      }
    }

    /** Resolve, and what it means for a handshake that can go on. */
    method Admit(answer: Option<Answer>) returns (r: Resolution, taken: bool)
      requires Rests()
      modifies this`wait, conn
      ensures Rests() && (r, taken, wait) == Resolved(old(wait), answer, dtls) && (r == Proceed ==> Switched())
      ensures old(conn.log) <= conn.log
      ensures conn.received == old(conn.received) + if taken then Arrived([answer.value]) else []
      ensures old(Ready() && Met(answer)) ==>
                && r == Proceed && taken == answer.Some? && Right() && (conn.inbox == [] ==> !Reads(old(wait)))
                && Here() == old(Here()).(right := true, empty := Here().empty, due := Here().due)
      ensures answer == None && old(Awake() && wait != Ok) ==>
                && r.Return? && !taken && Ready() && Here() == old(Here()) && Stage(wait) == Stage(old(wait))
    {
      hide Valid, Rests, Switched, Decided, Awaits, Due, Resolved, Answers, Arrived;
      ResolvedMeans(wait, answer, dtls);
      if Ready() && Met(answer) {
        AnswerProceeds(wait, answer, dtls);
      }
      if Awake() && answer == None && wait != Ok {
        NoAnswerReturns(wait, dtls);
      }
      r, taken := Resolve(answer);
    }

    /** What the record layer or the application may answer when the handshake rests: whatever is needed, and for a
        message any that is awaited. */
    method AnyAnswer() returns (answers: seq<Answer>)
      requires Ready()
      ensures Meets(answers)
    {
      if Reads(wait) {
        var m: Message := *;
        if !RightMessage(m) {
          m := Message(Due(state, Needs()), conn.mac(conn.transcript, true), []);
        }
        return [Messages([m])];
      }
      match wait
      case Flush => return [Flushed];
      case ReadChangeCipherSpec => return [Ccs];
      case _ => return [];
    }

    /** A server that sends what is awaited, record by record, and an application and a network that answer what is
        waited for: whatever they choose, the handshake comes to its end, unless something fails that it depends on or
        TLS 1.3 is chosen. */
    method Converse()
      requires Rests() && Ready() && conn.world.fault == None
      modifies this, conn, conn.world
      ensures Rests() && (tls13 || (wait == Error && conn.world.fault.Some?) || (wait != Error && state.Done?))
    {
      assert wait != Error;
      hide Ready, Rests, Rank;
      while !tls13 && wait != Error && !state.Done?
        invariant Rests()
        invariant tls13 || (wait == Error && conn.world.fault.Some?) || (wait != Error && Ready())
        decreases if tls13 || wait == Error then 0 else 1, Rank(state, session), conn.world.patience, Stage(wait)
      {
        Round();
      }
    }

    /** One answer, and what follows from it, brings the handshake nearer to its end. */
    method Round()
      requires Rests() && Ready() && !state.Done?
      modifies this, conn, conn.world
      ensures Rests() && (tls13 || (wait == Error && conn.world.fault.Some?) || (wait != Error && Ready()))
      ensures var rank, patience := Rank(state, session), conn.world.patience;
              tls13 || wait == Error || rank < old(Rank(state, session))
              || (rank == old(Rank(state, session))
                  && (patience < old(conn.world.patience)
                      || (patience == old(conn.world.patience) && Stage(wait) < old(Stage(wait)))))
    {
      hide Awake, Nearer, Met, Rests, Leads, Awaits, Decided, Right, Rank;
      var answers := AnyAnswer();
      ghost var from, waited := Here(), wait;
      var result, used := Run(answers);
      if state.Done? {
        DoneLast(old(state), old(session), session);
      } else if !tls13 && wait != Error {
        NearerMeans(from, waited, Here(), wait);
      }
    }

    /** Runs the state machine again and keeps what it waits for. */
    method Continue()
      requires Rests() && wait != Error && Switched()
      modifies this, conn, conn.world
      ensures Rests() && (wait == Ok ==> state.Done?)
      ensures old(Decided(state)) && wait != Error ==> Decided(state) && session == old(session)
      ensures (old(tls13) ==> tls13) && (wait != Error && !tls13 ==> Extends())
      ensures tls13 || old(state.Done?) || Forward(old(Here()), Here(), wait)
      ensures old(state.Done?) ==> wait == Ok && tls13 == old(tls13) && Here() == old(Here())
    {
      hide Stands, Connection.Valid, Decided, Leads, Awaits, Due, Forward;
      var w := Handshake();
      wait := w;
    }

    /** The switch at the head of ssl_run_handshake: what to do about the wait, and whether an answer was taken. */
    method Resolve(answer: Option<Answer>) returns (r: Resolution, taken: bool)
      requires Rests()
      modifies this`wait, conn
      ensures Rests() && (r, taken, wait) == Resolved(old(wait), answer, dtls)
      ensures r == Proceed ==> Switched()
      ensures conn.transcript == old(conn.transcript)
      ensures conn.log == old(conn.log) + if old(wait) == ReadChangeCipherSpec && r == Proceed
                                          then [Event(ConsumedCcs, NOTHING)] else []
      ensures var came := if taken then Arrived([answer.value]) else [];
              conn.inbox == old(conn.inbox) + came && conn.received == old(conn.received) + came
    {
      hide Stands, Next, Connection.Logged;
      taken := false;
      match wait
      case Error => return Return(RunResult.Failed), false;
      case Ok => return Proceed, false;
      case Flush =>
        if answer == Some(Flushed) {
          return Proceed, true;
        }
        return Return(Waiting), false;
      case ReadServerHello =>
        r, taken := ReadMore(answer);
      case ReadMessage =>
        r, taken := ReadMore(answer);
      case ReadChangeCipherSpec =>
        r, taken := AwaitCcs(answer);
      case EndOfEarlyData =>
        if answer == Some(EarlyDataRead) {
          wait := Ok;
          return Proceed, true;
        }
        return Return(Early), false;
      case EarlyDataRejected => return Return(Waiting), false;
      case EarlyReturn =>
        wait := Ok;
        return Return(Early), false;
      case Handoff | CertificateSelection | X509Lookup | ChannelIdLookup | PrivateKeyOperation | PendingSession
        | PendingTicket | CertificateVerifyPending =>
        wait := Ok;
        return Return(Waiting), false;
    }

    /** The record layer reads on. */
    method ReadMore(answer: Option<Answer>) returns (r: Resolution, taken: bool)
      requires Rests() && Reads(wait)
      modifies conn`inbox, conn`received, conn`protected
      ensures Rests() && (r, taken, wait) == Resolved(wait, answer, dtls)
      ensures var came := if taken then Arrived([answer.value]) else [];
              conn.inbox == old(conn.inbox) + came && conn.received == old(conn.received) + came
    {
      hide Stands, Connection.Logged, Connection.Protected;
      r, taken := conn.Receive(answer);
    }

    /** A ChangeCipherSpec is needed. Over DTLS other records may come first. */
    method AwaitCcs(answer: Option<Answer>) returns (r: Resolution, taken: bool)
      requires Rests() && wait.ReadChangeCipherSpec?
      modifies this`wait, conn`inbox, conn`received, conn`log, conn`phase, conn`protected
      ensures Rests() && (r, taken, wait) == Resolved(ReadChangeCipherSpec, answer, dtls)
      ensures r == Proceed ==> Switched()
      ensures conn.log == old(conn.log) + if r == Proceed then [Event(ConsumedCcs, NOTHING)] else []
      ensures var came := if taken then Arrived([answer.value]) else [];
              conn.inbox == old(conn.inbox) + came && conn.received == old(conn.received) + came
    {
      hide Stands, Next, Connection.Logged;
      if answer == Some(Ccs) {
        ChangeCipherSpecStep(Now(), conn.phase);
        conn.NoteCcs();
        wait := Ok;
        return Proceed, true;
      }
      r, taken := Return(Waiting), false;
      if dtls {
        r, taken := conn.Receive(answer);
        if r == Proceed {
          r := Again;
        }
      }
    }

    /** Every handshake that ends, of TLS 1.2 or below: one Finished was sent and one consumed, each after its side's
        ChangeCipherSpec; the client's came first in a full handshake, the server's in a resumed one; in a full
        handshake with a certificate cipher the server's certificate was verified; and the transcript is that of the
        messages sent and consumed. */
    lemma DoneIsSafe()
      requires Rests() && wait != Error && state.Done? && !tls13
      ensures var marks := Marks(conn.log);
              && Count(marks, Sent(Finished)) == 1 && Count(marks, Consumed(Finished)) == 1
              && Count(marks, SentCcs) == 1 && Count(marks, ConsumedCcs) == 1
              && Before(marks, SentCcs, Sent(Finished)) && Before(marks, ConsumedCcs, Consumed(Finished))
              && (if session then Before(marks, Consumed(Finished), Sent(Finished))
                  else Before(marks, Sent(Finished), Consumed(Finished)))
              && Before(marks, Checked, Sent(Finished)) && Before(marks, Checked, Consumed(Finished))
              && (certAuth && !session ==> Checked in marks && Consumed(Certificate) in marks)
              && (Sent(Certificate) in marks ==> Consumed(CertificateRequest) in marks)
              && (Sent(CertificateVerify) in marks ==> Sent(Certificate) in marks)
              && conn.transcript == Hashed(conn.log) && FinishedCover(conn.mac, false, conn.log)
              && conn.received == Taken(conn.log) + conn.inbox && conn.finishedProtected
    {
      hide Follow;
      VerifiedBefore(false, Marks(conn.log), Checked);
      SwitchedBefore(false, Marks(conn.log));
      CertificateOnRequest(false, Marks(conn.log));
      FlowCounts(false, Marks(conn.log));
      FinishedOrder(false, Marks(conn.log));
      FlagsMean(false, Marks(conn.log));
      CountZero(Marks(conn.log), Consumed(Finished));
    }
  }
}
