/** The server's handshake for TLS 1.2 and below (section 7.3 of RFC 5246), with everything it may wait for. */
module ServerHandshake {
  import opened Bytes
  import opened TlsFlow
  import opened Transcript

  datatype State =
    | StartAccept
    | ReadClientHello
    | SelectCertificate
    | Tls13
    | SelectParameters
    | SendServerHello
    | SendServerCertificate
    | SendServerKeyExchange
    | SendServerHelloDone
    | ReadClientCertificate
    | VerifyClientCertificate
    | ReadClientKeyExchange
    | ReadClientCertificateVerify
    | AwaitChangeCipherSpec
    | ProcessChangeCipherSpec
    | ReadNextProto
    | ReadChannelId
    | ReadClientFinished
    | SendServerFinished
    | FinishServerHandshake
    | Done

  /** What is settled about a handshake: whether a session is resumed, whether the cipher authenticates with
      certificates, whether the client is asked for a certificate and whether it sent one. */
  datatype Course = Course(session: bool, certAuth: bool, asked: bool, peerKey: bool)

  /** How far the flow of messages has come when a state is reached. */
  ghost predicate Fits(s: State, c: Course, p: Phase) {
    match s
    case StartAccept => p.step.Idle? && !c.peerKey
    case ReadClientHello => p.step.Idle? && !c.peerKey
    case SelectCertificate => p.step.Idle? && !c.peerKey
    case Tls13 => false
    case SelectParameters => p.step.Idle? && !c.peerKey
    case SendServerHello => p.step.AfterClientHello? && !c.peerKey
    case SendServerCertificate => !c.session && p.step.AfterServerHello? && !c.peerKey
    case SendServerKeyExchange => !c.session && Introduced(c.certAuth, p.step) && !c.peerKey
    case SendServerHelloDone => !c.session && (Introduced(c.certAuth, p.step) || p.step.AfterServerKeys?) && !c.peerKey
    case ReadClientCertificate => !c.session && p.step.AfterServerHelloDone? && !c.peerKey
    case VerifyClientCertificate => !c.session && Answered(c.peerKey, p.step)
    case ReadClientKeyExchange => !c.session && Answered(c.peerKey, p.step) && (c.peerKey ==> p.checked)
    case ReadClientCertificateVerify => !c.session && p.step.AfterClientKeys? && (c.peerKey ==> p.checked)
    case AwaitChangeCipherSpec => Unswitched(c.session, c.peerKey, p.step) && Proved(c.peerKey, p)
    case ProcessChangeCipherSpec =>
      && (Unswitched(c.session, c.peerKey, p.step) || (p.step.ClientSwitched? && p.step.resumed == c.session))
      && Proved(c.peerKey, p)
    case ReadNextProto => p.step.ClientSwitched? && p.step.resumed == c.session && Proved(c.peerKey, p)
    case ReadChannelId =>
      (p.step.ClientSwitched? || p.step.AfterNextProto?) && p.step.resumed == c.session && Proved(c.peerKey, p)
    case ReadClientFinished =>
      && (p.step.ClientSwitched? || p.step.AfterNextProto? || p.step.AfterChannelId?)
      && p.step.resumed == c.session && Proved(c.peerKey, p)
    case SendServerFinished =>
      if c.session then p.step.AfterServerHello? && !c.peerKey else p.step.AfterClientFinished? && Proved(c.peerKey, p)
    case FinishServerHandshake => p.step.Complete? && p.step.resumed == c.session && Proved(c.peerKey, p)
    case Done => p.step.Complete? && p.step.resumed == c.session && Proved(c.peerKey, p)
  }

  /** A certificate of the client was verified, and the signature that proves it holds the key. */
  predicate Proved(peerKey: bool, p: Phase) {
    peerKey ==> p.checked && p.signed
  }

  /** After the own certificate, if there is one, and the status, which may be missing. */
  predicate Introduced(certAuth: bool, s: Step) {
    if certAuth then s.AfterServerCertificate? || s.AfterStatus? else s.AfterServerHello?
  }

  /** After the client's certificate, or where it would be. */
  predicate Answered(peerKey: bool, s: Step) {
    s.AfterClientCertificate? || (!peerKey && s.AfterServerHelloDone?)
  }

  /** Before the client's ChangeCipherSpec. */
  predicate Unswitched(session: bool, peerKey: bool, s: Step) {
    if session then s.AfterServerFinished?
    else if peerKey then s.AfterClientVerify? else s.AfterClientKeys?
  }

  /** Between the change of the read cipher and the peer's Finished. */
  predicate Keyed(s: State) {
    s.ReadNextProto? || s.ReadChannelId? || s.ReadClientFinished?
  }

  /** The steps left at most. On resumption the server finishes first. */
  function Rank(s: State, session: bool): nat {
    match s
    case StartAccept => 22
    case ReadClientHello => 21
    case SelectCertificate => 20
    case Tls13 => 19
    case SelectParameters => 18
    case SendServerHello => 17
    case SendServerCertificate => 16
    case SendServerKeyExchange => 15
    case SendServerHelloDone => 14
    case ReadClientCertificate => 13
    case VerifyClientCertificate => 12
    case ReadClientKeyExchange => 11
    case ReadClientCertificateVerify => 10
    case AwaitChangeCipherSpec => 9
    case ProcessChangeCipherSpec => 8
    case ReadNextProto => 7
    case ReadChannelId => 6
    case ReadClientFinished => 5
    case SendServerFinished => if session then 16 else 4
    case FinishServerHandshake => 1
    case Done => 0
  }

  /** Whether the parameters are selected, and with them decided whether a session is resumed. */
  predicate Decided(s: State) {
    Rank(s, false) < Rank(SelectParameters, false)
  }

  /** Fits, and that there is a key of the client only in a full handshake in which it sent a certificate, and that a
      certificate is read only after it was requested. */
  ghost predicate Stands(s: State, c: Course, p: Phase) {
    && Fits(s, c, p)
    && (c.peerKey ==> !c.session && p.clientCertificate)
    && (s.ReadClientCertificate? && c.asked ==> p.requested)
  }

  /** What bears on the messages to come: whether a certificate is asked for and may be missing in SSL 3.0, whether the
      client sent one, and the extensions negotiated. */
  datatype Need = Need(asked: bool, optional: bool, peerKey: bool, nextProto: bool, channelId: bool)

  predicate ChannelNext(n: Need, k: Kind) {
    k == if n.channelId then ChannelId else Finished
  }

  /** Which messages the client may send next when the server is in a state. */
  predicate Awaits(s: State, n: Need, k: Kind) {
    match s
    case StartAccept | ReadClientHello | SelectCertificate | SelectParameters => k == ClientHello
    case ReadClientCertificate =>
      if n.asked then k == Certificate || (n.optional && k == ClientKeyExchange) else k == ClientKeyExchange
    case VerifyClientCertificate | ReadClientKeyExchange => k == ClientKeyExchange
    case ReadClientCertificateVerify => n.peerKey && k == CertificateVerify
    case ReadNextProto => if n.nextProto then k == NextProto else ChannelNext(n, k)
    case ReadChannelId => ChannelNext(n, k)
    case ReadClientFinished => k == Finished
    case _ => false
  }

  /** A message that is awaited in a state that reads one. */
  function Due(s: State, n: Need): Kind {
    match s
    case ReadClientCertificate => if n.asked then Certificate else ClientKeyExchange
    case VerifyClientCertificate | ReadClientKeyExchange => ClientKeyExchange
    case ReadClientCertificateVerify => CertificateVerify
    case ReadNextProto => if n.nextProto then NextProto else if n.channelId then ChannelId else Finished
    case ReadChannelId => if n.channelId then ChannelId else Finished
    case ReadClientFinished => Finished
    case _ => ClientHello
  }

  /** A step from s to t is a step forward, in a full and in a resumed handshake. */
  predicate Leads(s: State, t: State, session: bool) {
    Rank(t, session) < Rank(s, session) && (Decided(s) ==> Decided(t))
  }

  // From state to state: what each step does to the flow of messages

  /** Where a mark leads the server. */
  function To(p: Phase, m: Mark): Phase {
    Next(true, p, m)
  }

  lemma AcceptSteps(c: Course, p: Phase)
    requires Stands(StartAccept, c, p)
    ensures Stands(ReadClientHello, c, p)
  {}

  lemma ClientHelloStep(c: Course, p: Phase)
    requires Stands(ReadClientHello, c, p)
    ensures Stands(SelectCertificate, c, p)
  {}

  lemma SelectCertificateStep(c: Course, certAuth: bool, p: Phase)
    requires Stands(SelectCertificate, c, p)
    ensures Stands(SelectParameters, c.(certAuth := certAuth), p)
  {}

  lemma SelectParametersStep(c: Course, session: bool, asked: bool, p: Phase)
    requires Stands(SelectParameters, c, p)
    ensures Stands(SendServerHello, c.(session := session, asked := asked), To(p, Consumed(ClientHello)))
  {}

  lemma ServerHelloStep(c: Course, p: Phase)
    requires Stands(SendServerHello, c, p)
    ensures Stands(if c.session then SendServerFinished else SendServerCertificate, c, To(p, Sent(ServerHello)))
  {}

  lemma ServerCertificateStep(c: Course, p: Phase)
    requires Stands(SendServerCertificate, c, p)
    ensures !c.certAuth ==> Stands(SendServerKeyExchange, c, p)
    ensures c.certAuth ==> Stands(SendServerKeyExchange, c, To(p, Sent(Certificate)))
    ensures c.certAuth ==>
              Stands(SendServerKeyExchange, c,
                     To(To(p, Sent(Certificate)), Sent(CertificateStatus)))
  {}

  lemma ServerKeyExchangeStep(c: Course, p: Phase)
    requires Stands(SendServerKeyExchange, c, p)
    ensures Stands(SendServerHelloDone, c, p)
    ensures Stands(SendServerHelloDone, c, To(p, Sent(ServerKeyExchange)))
  {
    hide Answered, Unswitched, Proved;
  }

  lemma ServerHelloDoneStep(c: Course, p: Phase)
    requires Stands(SendServerHelloDone, c, p)
    ensures !c.asked ==> Stands(ReadClientCertificate, c, To(p, Sent(Kind.ServerHelloDone)))
    ensures Stands(ReadClientCertificate, c, To(To(p, Sent(CertificateRequest)), Sent(Kind.ServerHelloDone)))
  {}

  lemma ClientCertificateStep(c: Course, peerKey: bool, p: Phase)
    requires Stands(ReadClientCertificate, c, p)
    ensures !c.peerKey && Stands(VerifyClientCertificate, c, p)
    ensures c.asked ==> Stands(VerifyClientCertificate, c.(peerKey := peerKey), To(p, Consumed(Certificate)))
  {
    hide Introduced, Unswitched, Proved;
  }

  lemma VerifyStep(c: Course, p: Phase)
    requires Stands(VerifyClientCertificate, c, p)
    ensures Stands(ReadClientKeyExchange, c, if c.peerKey then To(p, Checked) else p)
  {
    hide Introduced, Unswitched, Proved;
  }

  lemma ClientKeyExchangeStep(c: Course, p: Phase)
    requires Stands(ReadClientKeyExchange, c, p)
    ensures Stands(ReadClientCertificateVerify, c, To(p, Consumed(ClientKeyExchange)))
  {}

  lemma CertificateVerifyStep(c: Course, p: Phase)
    requires Stands(ReadClientCertificateVerify, c, p)
    ensures !c.peerKey ==> Stands(AwaitChangeCipherSpec, c, p)
    ensures c.peerKey ==>
              Stands(AwaitChangeCipherSpec, c, To(To(p, Signed), Consumed(CertificateVerify)))
  {}

  lemma AwaitStep(c: Course, p: Phase)
    requires Stands(AwaitChangeCipherSpec, c, p)
    ensures Stands(ProcessChangeCipherSpec, c, p) && !p.step.ClientSwitched?
  {
    hide Introduced, Answered, Proved;
  }

  lemma ChangeCipherSpecStep(c: Course, p: Phase)
    requires Stands(ProcessChangeCipherSpec, c, p)
    ensures if p.step.ClientSwitched? then Stands(ReadNextProto, c, p)
            else
              var q := To(p, ConsumedCcs);
              Stands(ProcessChangeCipherSpec, c, q) && q.step.ClientSwitched?
  {
    hide Introduced, Answered;
  }

  lemma NextProtoStep(c: Course, p: Phase)
    requires Stands(ReadNextProto, c, p)
    ensures Stands(ReadChannelId, c, p)
    ensures Stands(ReadChannelId, c, To(p, Consumed(NextProto)))
  {
    hide Introduced, Answered, Unswitched;
  }

  lemma ChannelIdStep(c: Course, p: Phase)
    requires Stands(ReadChannelId, c, p)
    ensures Stands(ReadClientFinished, c, p)
    ensures Stands(ReadClientFinished, c, To(p, Consumed(ChannelId)))
  {
    hide Introduced, Answered, Unswitched;
  }

  lemma ClientFinishedStep(c: Course, p: Phase)
    requires Stands(ReadClientFinished, c, p)
    ensures Stands(if c.session then FinishServerHandshake else SendServerFinished, c, To(p, Consumed(Finished)))
  {
    hide Introduced, Answered, Unswitched;
  }

  lemma ServerFinishedStep(c: Course, p: Phase, ticket: bool)
    requires Stands(SendServerFinished, c, p)
    ensures var q := if ticket then To(p, Sent(NewSessionTicket)) else p;
            Stands(if c.session then AwaitChangeCipherSpec else FinishServerHandshake, c,
                   To(To(q, SentCcs), Sent(Finished)))
  {
    hide Introduced, Answered;
  }

  lemma FinishStep(c: Course, p: Phase)
    requires Stands(FinishServerHandshake, c, p)
    ensures Stands(Done, c, p)
  {
    hide Introduced, Answered, Unswitched, Proved;
  }

  /** What is awaited continues the flow of messages. */
  lemma AwaitedFits(s: State, c: Course, n: Need, p: Phase, k: Kind)
    requires Stands(s, c, p) && Awaits(s, n, k) && n.asked == c.asked && n.peerKey == c.peerKey
    ensures if s.ReadClientCertificateVerify? then !To(To(p, Signed), Consumed(k)).step.Broken?
            else !To(p, Consumed(k)).step.Broken?
  {
    hide Introduced;
  }

  // The order of the states

  lemma LeadsMeans(s: State, t: State, session: bool)
    requires Leads(s, t, session)
    ensures Rank(t, session) < Rank(s, session) && (Decided(s) ==> Decided(t))
  {}

  /** What bears on whether the handshake comes to its end: the state, how often callbacks may still ask to be called
      again, what failed, whether the messages are right ones, whether there is none, and whether one is awaited. */
  datatype Place = Place(state: State, session: bool, patience: nat, fault: Option<Fault>, right: bool, empty: bool,
                         due: bool)

  /** How steps lead from a to b: they fail only when something failed that they depend on or the message was not a
      right one; what is right stays right; they wait for a message only when there is none and one is awaited; and they
      lead to a later state unless the first has to be taken again, for that or because a callback asks for it. */
  predicate Forward(a: Place, b: Place, w: Wait) {
    && b.patience <= a.patience
    && (w == Error ==> b.fault.Some? || !a.right)
    && (w != Error ==>
          && b.fault == a.fault && (a.right ==> b.right) && w != EndOfEarlyData && w != EarlyDataRejected
          && (Reads(w) ==> b.empty && b.due)
          && (|| Leads(a.state, b.state, b.session)
              || (w != Ok && b.state == a.state && (b.patience < a.patience || (Reads(w) && a.empty)))))
    && (Decided(a.state) ==> b.session == a.session)
  }

  lemma ForwardOn(a: Place, b: Place, c: Place, w: Wait)
    requires Forward(a, b, Ok) && Forward(b, c, w)
    ensures Forward(a, c, w)
  {
    hide Leads, Decided;
    LeadsMeans(a.state, b.state, b.session);
    if w != Error {
      if Leads(b.state, c.state, c.session) || b.state == c.state {
        LeadsOn(a.state, b.state, c.state, b.session, c.session);
      }
    }
  }

  /** From a, waiting for v, to b, waiting for w: a later state; or the same, with a callback that may ask less often;
      or the same, now waiting for a message. */
  predicate Nearer(a: Place, v: Wait, b: Place, w: Wait) {
    && b.fault == a.fault
    && (|| Leads(a.state, b.state, b.session)
        || (b.state == a.state
            && (b.patience < a.patience || (b.patience == a.patience && Stage(w) < Stage(v)))))
    && (Decided(a.state) ==> b.session == a.session)
  }

  lemma NearerMeans(a: Place, v: Wait, b: Place, w: Wait)
    requires Nearer(a, v, b, w)
    ensures || Rank(b.state, b.session) < Rank(a.state, a.session)
            || (Rank(b.state, b.session) == Rank(a.state, a.session)
                && (b.patience < a.patience || (b.patience == a.patience && Stage(w) < Stage(v))))
  {
    if !Decided(a.state) {
      SameRank(a.state);
      if a.session != b.session {
        assert Rank(a.state, a.session) == Rank(a.state, b.session);
      }
    }
  }

  lemma DoneLast(s: State, before: bool, after: bool)
    ensures Rank(Done, after) == 0 && (s.Done? || Rank(s, before) > 0)
  {}

  lemma NearerSame(a: Place, v: Wait, b: Place, w: Wait, u: Wait)
    requires Nearer(a, v, b, w) && Stage(u) == Stage(w)
    ensures Nearer(a, v, b, u)
  {}

  lemma ForwardNearer(a: Place, v: Wait, m: Place, b: Place, w: Wait)
    requires m.right && m == a.(right := true, empty := m.empty, due := m.due) && (m.empty ==> !Reads(v))
    requires Forward(m, b, w)
    ensures w == Error ==> b.fault.Some?
    ensures w != Error ==> b.right && b.fault == a.fault && w != EndOfEarlyData && w != EarlyDataRejected
    ensures w != Error ==> (Reads(w) ==> b.empty && b.due) && Nearer(a, v, b, w)
  {
    hide Leads, Decided;
  }

  lemma LeadsOn(s: State, t: State, u: State, before: bool, after: bool)
    requires Leads(s, t, before) && (Leads(t, u, after) || t == u) && (Decided(t) ==> before == after)
    ensures Leads(s, u, after)
  {
    if !Decided(t) {
      SameRank(s);
      SameRank(t);
    }
  }


  lemma HelloOrder(session: bool)
    ensures Leads(StartAccept, ReadClientHello, session) && Leads(ReadClientHello, SelectCertificate, session)
    ensures Leads(SelectCertificate, SelectParameters, session) && Leads(SelectParameters, SendServerHello, session)
    ensures Leads(SelectCertificate, Tls13, session) && Leads(Tls13, FinishServerHandshake, session)
    ensures Leads(SendServerHello, if session then SendServerFinished else SendServerCertificate, session)
  {}

  lemma Undecided()
    ensures !Decided(SelectParameters)
  {}

  /** Before the parameters are selected it does not matter yet whether a session is resumed. */
  lemma SameRank(s: State)
    requires !Decided(s)
    ensures Rank(s, true) == Rank(s, false)
  {}

  lemma FlightOrder(session: bool)
    ensures Leads(SendServerCertificate, SendServerKeyExchange, session)
    ensures Leads(SendServerKeyExchange, SendServerHelloDone, session)
    ensures Leads(SendServerHelloDone, ReadClientCertificate, session)
    ensures Leads(ReadClientCertificate, VerifyClientCertificate, session)
    ensures Leads(VerifyClientCertificate, ReadClientKeyExchange, session)
    ensures Leads(ReadClientKeyExchange, ReadClientCertificateVerify, session)
  {}

  lemma SwitchOrder(session: bool)
    ensures Leads(ReadClientCertificateVerify, AwaitChangeCipherSpec, session)
    ensures Leads(AwaitChangeCipherSpec, ProcessChangeCipherSpec, session)
    ensures Leads(ProcessChangeCipherSpec, ReadNextProto, session)
    ensures Leads(ReadNextProto, ReadChannelId, session) && Leads(ReadChannelId, ReadClientFinished, session)
  {}

  lemma FinishOrder(session: bool)
    ensures Leads(ReadClientFinished, if session then FinishServerHandshake else SendServerFinished, session)
    ensures Leads(SendServerFinished, if session then AwaitChangeCipherSpec else FinishServerHandshake, session)
    ensures Leads(FinishServerHandshake, Done, session)
  {}

  /** With a certificate cipher, the certificate and the status if it is wanted. */
  ghost function Introduction(certAuth: bool, status: bool): seq<Mark> {
    if !certAuth then []
    else if !status then [Sent(Certificate)]
    else [Sent(Certificate), Sent(CertificateStatus)]
  }

  /** A ticket, if one is expected, and a ChangeCipherSpec. */
  ghost function Switch(ticket: bool): seq<Mark> {
    (if ticket then [Sent(NewSessionTicket)] else []) + [SentCcs]
  }

  /** A request for a certificate, if one is wanted, and ServerHelloDone. */
  ghost function Farewell(request: bool): seq<Mark> {
    if request then [Sent(CertificateRequest), Sent(Kind.ServerHelloDone)] else [Sent(Kind.ServerHelloDone)]
  }

  class Server {
    const conn: Connection
    const dtls: bool
    const ssl3: bool
    /** Whether a client without a certificate is refused. */
    const required: bool
    var state: State
    var wait: Wait
    /** Whether a session is resumed, once decided. */
    var session: bool
    /** Whether the cipher authenticates with certificates, and whether it has parameters to send. */
    var certAuth: bool
    var hasParams: bool
    var statusExpected: bool
    var ticketExpected: bool
    var nextProtoSeen: bool
    var channelIdValid: bool
    var certRequest: bool
    /** Whether the client sent a certificate, and with it a public key. */
    var peerKey: bool
    var tls13: bool
    /** The ClientHello that was parsed. */
    ghost var hello: Message

    ghost function Now(): Course
      reads this
    {
      Course(session, certAuth, certRequest, peerKey)
    }

    /** Where the handshake stands: the flow of messages is where the state says, the client's certificate and the
        proof that it holds the key are verified if it sent one, and the transcript is that of the messages. */
    ghost predicate Valid()
      reads this, conn
    {
      && conn.server
      && (state.Tls13? ==> tls13)
      && (tls13 ==> state.Tls13? || state.FinishServerHandshake? || state.Done?)
      && (!tls13 ==>
            conn.Valid() && Stands(state, Now(), conn.phase) && (Keyed(state) ==> conn.readKeyed) && HelloWaits())
    }

    /** The ClientHello that was parsed stays in front until it is hashed and consumed. */
    ghost predicate HelloWaits()
      reads this, conn
    {
      state.SelectCertificate? || state.SelectParameters? ==> conn.Offers(ClientHello) && conn.inbox[0] == hello
    }

    /** Whether the peer's ChangeCipherSpec, which the state waits for, has come. */
    ghost predicate Switched()
      reads this, conn
    {
      state.ProcessChangeCipherSpec? ==> conn.phase.step.ClientSwitched?
    }

    /** What every step keeps. A step that waits and is taken again later has left nothing behind. */
    twostate predicate Stepped(w: Wait)
      reads this, conn, conn.world
    {
      && (tls13 || Lively(w))
      && (w != Error ==> Valid() && (Switched() <==> w != ReadChangeCipherSpec))
      && (old(tls13) ==> tls13) && (state.Done? ==> w == Ok || w == Error)
      && (w != Error && !tls13 ==> old(conn.log) <= conn.log && conn.received == old(conn.received))
      && (w != Error && !tls13 && state == old(state) ==> conn.Untouched())
      && (w == Ok || (w != Error && state != old(state)) ==> Leads(old(state), state, session))
      && (old(Decided(state)) ==> session == old(session))
    }

    function Needs(): Need
      reads this
    {
      Need(certRequest, ssl3 && !required, peerKey, nextProtoSeen, channelIdValid)
    }

    /** A message that the client may send now, and if it is Finished, with the right MAC. */
    predicate RightMessage(m: Message)
      reads this, conn
    {
      Awaits(state, Needs(), m.kind) && (m.kind == Finished ==> m.body == conn.mac(conn.transcript, false))
    }

    /** At most one message is there, and it is a right one. */
    ghost predicate Right()
      reads this, conn
    {
      conn.inbox == [] || (|conn.inbox| == 1 && RightMessage(conn.inbox[0]))
    }

    /** Why a step of TLS 1.2 or below fails or waits: it fails only when something failed that it depends on or the
        message was not a right one; what is right stays right; it waits for a message only when there is none and one
        is awaited; and it stays in its state only for that or because a callback asked to be called again. */
    twostate predicate Lively(w: Wait)
      reads this, conn, conn.world
    {
      var world := conn.world;
      && world.patience <= old(world.patience)
      && (w == Error ==> world.fault.Some? || !old(Right()))
      && (w != Error ==>
            && world.fault == old(world.fault) && (old(Right()) ==> Right())
            && w != EndOfEarlyData && w != EarlyDataRejected
            && (Reads(w) ==> conn.inbox == [] && Awaits(state, Needs(), Due(state, Needs())))
            && (w != Ok && state == old(state) ==>
                  world.patience < old(world.patience) || (Reads(w) && old(conn.inbox) == [])))
    }

    /** Led to a state, with exactly these marks. */
    twostate predicate Went(to: State, marks: seq<Mark>)
      reads this, conn
    {
      state == to && conn.Added(marks)
    }

    constructor (conn: Connection, dtls: bool, ssl3: bool, required: bool)
      requires conn.Valid() && conn.log == [] && conn.server
      ensures Rests() && this.conn == conn && state.StartAccept? && wait == Ok && !tls13
      ensures conn.inbox == [] ==> Ready()
    {
      this.conn, this.dtls, this.ssl3, this.required := conn, dtls, ssl3, required;
      state, wait, session := StartAccept, Ok, false;
      certAuth, hasParams, statusExpected, ticketExpected := false, false, false, false;
      nextProtoSeen, channelIdValid, certRequest, peerKey, tls13 := false, false, false, false, false;
      hello := NOTHING;
    }

    method DoStartAccept() returns (w: Wait)
      requires Valid() && state.StartAccept?
      modifies this`state
      ensures Stepped(w)
      ensures w == Ok && Went(ReadClientHello, []) && conn.Untouched()
    {
      hide Connection.Valid, Connection.Pending, Stands, Next, Leads, Decided, Extended;
      ExtendedNone(conn.log);
      HelloOrder(session);
      AcceptSteps(Now(), conn.phase);
      state := ReadClientHello;
      return Ok;
    }

    /** The ClientHello stays where it is: it is hashed once the cipher is known. */
    method DoReadClientHello() returns (w: Wait)
      requires Valid() && state.ReadClientHello?
      modifies this`state, this`statusExpected, this`nextProtoSeen, this`channelIdValid, this`hello, conn.world
      ensures Stepped(w)
      ensures w == Error ==> !old(conn.Offers(ClientHello)) || conn.world.fault == Some(Incompatible)
      ensures w == Ok || w == ReadMessage || w == Handoff || w == CertificateSelection || w == Error
      ensures w == ReadMessage <==> old(conn.inbox) == []
      ensures w == Ok ==> old(conn.Offers(ClientHello)) && Went(SelectCertificate, []) && conn.Untouched()
      ensures w == Ok ==> hello == conn.inbox[0]
    {
      hide ChannelNext;
      hide Connection.Valid, Connection.Pending, Stands, Next, Leads, Decided, Extended;
      ExtendedNone(conn.log);
      assert Leads(ReadClientHello, SelectCertificate, session) by {
        HelloOrder(session);
      }
      ClientHelloStep(Now(), conn.phase);
      var message := conn.GetMessage();
      if message == None {
        return ReadMessage;
      }
      if message.value.kind != ClientHello {
        return Error;
      }
      var handoff: bool := *;
      w := conn.world.Ask(if handoff then Handoff else CertificateSelection, Incompatible);
      if w != Ok {
        return;
      }
      ParseExtensions(message.value);
      state := SelectCertificate;
      return Ok;
    }

    /** What the extensions of the ClientHello settle, as far as it decides what follows. */
    method ParseExtensions(message: Message)
      modifies this`statusExpected, this`nextProtoSeen, this`channelIdValid, this`hello
      ensures hello == message
    {
      statusExpected, nextProtoSeen, channelIdValid := *, *, *;
      hello := message;
    }

    method DoSelectCertificate() returns (w: Wait)
      requires Valid() && state.SelectCertificate?
      modifies this`state, this`certAuth, this`tls13, conn.world
      ensures Stepped(w)
      ensures w == Error ==> (conn.world.fault == Some(Denied) || conn.world.fault == Some(Incompatible))
      ensures w == Ok || w == X509Lookup || w == Error
      ensures w == Ok ==> Went(if tls13 then Tls13 else SelectParameters, []) && conn.Untouched()
    {
      hide Connection.Valid, Connection.Pending, Stands, Next, Leads, Decided, Extended;
      ExtendedNone(conn.log);
      HelloOrder(session);
      var message := conn.GetMessage();
      assert message == Some(hello);
      var version13: bool := *;
      w := conn.world.Ask(X509Lookup, Denied);
      if w != Ok {
        return;
      }
      if version13 {
        state, tls13 := Tls13, true;
        return Ok;
      }
      var shared := conn.world.Try(Incompatible);
      if !shared {
        return Error;
      }
      ghost var before := Now();
      certAuth := *;
      SelectCertificateStep(before, certAuth, conn.phase);
      state := SelectParameters;
      return Ok;
    }

    method DoTls13() returns (w: Wait)
      requires Valid() && state.Tls13?
      modifies this, conn, conn.world
      ensures Stepped(w)
    {
      hide Connection.Valid, Connection.Pending, Stands, Next, Leads, Decided;
      HelloOrder(session);
      conn.RunTls13();
      w :| w != ReadChangeCipherSpec;
      if w == Ok {
        state := FinishServerHandshake;
      }
    }

    /** Finds a session to resume, or makes a new one; the lookup may have to wait. The ClientHello, looked at twice
        before, is hashed and consumed here. */
    method DoSelectParameters() returns (w: Wait)
      requires Valid() && state.SelectParameters?
      modifies this`state, this`session, this`ticketExpected, this`certRequest, conn, conn.world
      ensures Stepped(w)
      ensures w == Error ==> (conn.world.fault == Some(NoSession) || conn.world.fault == Some(Incompatible))
      ensures w == Ok || w == PendingSession || w == PendingTicket || w == Error
      ensures w == Ok ==> conn.log == old(conn.log) + [Event(Consumed(ClientHello), hello)]
      ensures w == Ok ==> Went(SendServerHello, [Consumed(ClientHello)])
      ensures w == Ok && certRequest && !session ==> certAuth
    {
      hide ChannelNext;
      hide Connection.Valid, Connection.Pending, Stands, Next, Leads, Decided, Extended;
      Undecided();
      var message := conn.GetMessage();
      assert message == Some(hello);
      ghost var before := Now();
      w := FindSession();
      if w != Ok {
        return;
      }
      assert Leads(SelectParameters, SendServerHello, session) by {
        HelloOrder(session);
      }
      SelectParametersStep(before, session, certRequest, conn.phase);
      conn.HashAndConsume();
      state := SendServerHello;
      return Ok;
    }

    /** Looks for a session, which may have to wait, and settles the rest of the parameters. */
    method FindSession() returns (w: Wait)
      modifies this`session, this`ticketExpected, this`certRequest, conn.world
      ensures w == Ok || w == PendingSession || w == PendingTicket || w == Error
      ensures w == Ok && certRequest && !session ==> certAuth
      ensures w == PendingSession || w == PendingTicket ==>
                && session == old(session) && ticketExpected == old(ticketExpected) && certRequest == old(certRequest)
      ensures if w == Error then conn.world.fault == Some(NoSession) || conn.world.fault == Some(Incompatible)
              else conn.world.fault == old(conn.world.fault)
      ensures if w == PendingSession || w == PendingTicket then conn.world.patience < old(conn.world.patience)
              else conn.world.patience == old(conn.world.patience)
    {
      var ticket: bool := *;
      w := conn.world.Ask(if ticket then PendingTicket else PendingSession, NoSession);
      if w != Ok {
        return;
      }
      ChooseSession();
      var fit := conn.world.Try(Incompatible);
      if !fit {
        return Error;
      }
    }

    /** Whether a session is resumed and, if not, whether a client certificate is requested: only by a cipher with
        certificates, and, on request, only when there is no Channel ID. */
    method ChooseSession()
      modifies this`session, this`ticketExpected, this`certRequest
      ensures certRequest && !session ==> certAuth
    {
      session, ticketExpected := *, *;
      if !session {
        var verifyPeer: bool, unlessChannelId: bool := *, *;
        certRequest := verifyPeer && !(unlessChannelId && channelIdValid) && certAuth;
      }
    }

    method DoSendServerHello() returns (w: Wait)
      requires Valid() && state.SendServerHello?
      modifies this`state, this`channelIdValid, this`nextProtoSeen, this`statusExpected, conn, conn.world
      ensures Stepped(w)
      ensures w == Error ==> conn.world.fault == Some(NoRoom)
      ensures w == Ok || w == Error
      ensures w == Ok ==> Went(if session then SendServerFinished else SendServerCertificate, [Sent(ServerHello)])
    {
      hide ChannelNext;
      hide Connection.Valid, Connection.Pending, Stands, Next, Leads, Decided, Extended;
      assert Leads(SendServerHello, if session then SendServerFinished else SendServerCertificate, session) by {
        HelloOrder(session);
      }
      ServerHelloStep(Now(), conn.phase);
      var ok := SendHello();
      if !ok {
        return Error;
      }
      state := if session then SendServerFinished else SendServerCertificate;
      return Ok;
    }

    /** Writing the ServerHello, which may still withdraw an extension. */
    method SendHello() returns (ok: bool)
      requires conn.Valid()
      modifies this`channelIdValid, this`nextProtoSeen, this`statusExpected
      modifies conn`transcript, conn`log, conn`phase, conn.world`fault
      ensures (channelIdValid ==> old(channelIdValid)) && (nextProtoSeen ==> old(nextProtoSeen))
      ensures statusExpected ==> old(statusExpected)
      ensures conn.world.fault == if ok then old(conn.world.fault) else Some(NoRoom)
      ensures ok ==> conn.Valid() && conn.phase == Next(conn.server, old(conn.phase), Sent(ServerHello))
      ensures ok ==> old(conn.log) <= conn.log && conn.Added([Sent(ServerHello)])
    {
      hide Connection.Valid, Next, Extended;
      var keepChannelId: bool, keepNextProto: bool, keepStatus: bool := *, *, *;
      channelIdValid := channelIdValid && keepChannelId;
      nextProtoSeen := nextProtoSeen && keepNextProto;
      statusExpected := statusExpected && keepStatus;
      var body: seq<byte> := *;
      ok := conn.AddMessage(ServerHello, body);
    }

    method DoSendServerCertificate() returns (w: Wait)
      requires Valid() && state.SendServerCertificate?
      modifies this`state, this`hasParams, conn, conn.world
      ensures Stepped(w)
      ensures w == Error ==>
                || conn.world.fault == Some(NotComputed)
                || (certAuth && (conn.world.fault == Some(NoCertificate) || conn.world.fault == Some(NoRoom)))
      ensures w == Ok || w == Error
      ensures w == Ok ==> Went(SendServerKeyExchange, Introduction(certAuth, statusExpected))
    {
      hide Connection.Valid, Connection.Pending, Stands, Next, Leads, Decided, Extended, Introduction;
      assert Leads(SendServerCertificate, SendServerKeyExchange, session) by {
        FlightOrder(session);
      }
      var ok := SendCertificate();
      if !ok {
        return Error;
      }
      var computed := conn.world.Try(NotComputed);
      if !computed {
        return Error;
      }
      hasParams := *;
      state := SendServerKeyExchange;
      return Ok;
    }

    /** The messages of do_send_server_certificate. */
    method SendCertificate() returns (ok: bool)
      requires Valid() && state.SendServerCertificate?
      modifies conn`transcript, conn`log, conn`phase, conn.world`fault
      ensures if ok then conn.world.fault == old(conn.world.fault)
              else certAuth && (conn.world.fault == Some(NoCertificate) || conn.world.fault == Some(NoRoom))
      ensures ok ==> conn.Valid() && old(conn.log) <= conn.log && conn.Added(Introduction(certAuth, statusExpected))
      ensures ok ==> Stands(SendServerKeyExchange, Now(), conn.phase)
    {
      hide Connection.Valid, Connection.Pending, Stands, Next, Extended;
      ExtendedNone(conn.log);
      ServerCertificateStep(Now(), conn.phase);
      if !certAuth {
        return true;
      }
      var body: seq<byte> := *;
      ok := conn.world.Try(NoCertificate);
      if !ok {
        return;
      }
      ok := conn.AddMessage(Certificate, body);
      if !ok {
        return;
      }
      if statusExpected {
        ghost var log := conn.log;
        ok := conn.AddMessage(CertificateStatus, body);
        if ok {
          ExtendedAppend(old(conn.log), log, [Sent(Certificate)], conn.log[|log|]);
          assert [Sent(Certificate)] + [Sent(CertificateStatus)] == [Sent(Certificate), Sent(CertificateStatus)];
        }
      }
    }

    method DoSendServerKeyExchange() returns (w: Wait)
      requires Valid() && state.SendServerKeyExchange?
      modifies this`state, this`hasParams, conn, conn.world
      ensures Stepped(w)
      ensures w != Ok ==> old(hasParams)
      ensures w == Error ==> (conn.world.fault == Some(NotSigned) || conn.world.fault == Some(NoRoom))
      ensures (w == Ok || w == PrivateKeyOperation || w == Error) && (w == PrivateKeyOperation ==> certAuth)
      ensures w == Ok ==> Went(SendServerHelloDone, if old(hasParams) then [Sent(ServerKeyExchange)] else [])
    {
      hide Connection.Valid, Connection.Pending, Stands, Next, Leads, Decided, Extended;
      ExtendedNone(conn.log);
      assert Leads(SendServerKeyExchange, SendServerHelloDone, session) by {
        FlightOrder(session);
      }
      ServerKeyExchangeStep(Now(), conn.phase);
      if !hasParams {
        state := SendServerHelloDone;
        return Ok;
      }
      var body: seq<byte> := *;
      if certAuth {
        w := conn.world.Ask(PrivateKeyOperation, NotSigned);
        if w != Ok {
          return;
        }
      }
      var ok := conn.AddMessage(ServerKeyExchange, body);
      if !ok {
        return Error;
      }
      hasParams := false;
      state := SendServerHelloDone;
      return Ok;
    }

    method DoSendServerHelloDone() returns (w: Wait)
      requires Valid() && state.SendServerHelloDone?
      modifies this`state, conn, conn.world
      ensures Stepped(w)
      ensures w == Error ==> conn.world.fault == Some(NoRoom)
      ensures w == Flush || w == Error
      ensures w == Flush ==> Went(ReadClientCertificate, Farewell(certRequest))
    {
      hide ChannelNext;
      hide Connection.Valid, Connection.Pending, Stands, Next, Leads, Decided, Extended, Farewell;
      assert Leads(SendServerHelloDone, ReadClientCertificate, session) by {
        FlightOrder(session);
      }
      ServerHelloDoneStep(Now(), conn.phase);
      var ok := SendDone();
      if !ok {
        return Error;
      }
      state := ReadClientCertificate;
      return Flush;
    }

    /** The messages of do_send_server_hello_done. */
    method SendDone() returns (ok: bool)
      requires conn.Valid()
      modifies conn`transcript, conn`log, conn`phase, conn.world`fault
      ensures conn.world.fault == if ok then old(conn.world.fault) else Some(NoRoom)
      ensures ok ==> conn.Valid() && old(conn.log) <= conn.log && conn.Added(Farewell(certRequest))
      ensures ok ==>
                var p := old(conn.phase);
                var q := if certRequest then Next(conn.server, p, Sent(CertificateRequest)) else p;
                conn.phase == Next(conn.server, q, Sent(Kind.ServerHelloDone))
    {
      hide Connection.Valid, Next;
      var body: seq<byte> := *;
      if certRequest {
        ok := conn.AddMessage(CertificateRequest, body);
        if !ok {
          return;
        }
      }
      ok := conn.AddMessage(Kind.ServerHelloDone, body);
    }

    /** A client without a certificate sends an empty list, or in SSL 3.0 no message; either may be refused. */
    method DoReadClientCertificate() returns (w: Wait)
      requires Valid() && state.ReadClientCertificate?
      modifies this`state, this`peerKey, conn, conn.world
      ensures Stepped(w)
      ensures !certRequest ==> w == Ok
      ensures w == Error ==>
                && old(conn.inbox) != []
                && if old(conn.Offers(Certificate))
                   then
                     || conn.world.fault == Some(Unparsable)
                     || ((ssl3 || required) && conn.world.fault == Some(NoCertificate))
                   else !ssl3 || required || !old(conn.Offers(ClientKeyExchange))
      ensures (w == Ok || w == ReadMessage || w == Error) && (w == ReadMessage ==> old(conn.inbox) == [])
      ensures w == Ok ==>
                var comes := certRequest && old(conn.Offers(Certificate));
                && (peerKey ==> comes) && (certRequest && !comes ==> ssl3 && old(conn.Offers(ClientKeyExchange)))
                && Went(VerifyClientCertificate, if comes then [Consumed(Certificate)] else [])
    {
      hide Connection.Valid, Connection.Pending, Stands, Next, Leads, Decided, Extended;
      ExtendedNone(conn.log);
      assert Leads(ReadClientCertificate, VerifyClientCertificate, session) by {
        FlightOrder(session);
      }
      var nonempty: bool := *;
      ClientCertificateStep(Now(), nonempty, conn.phase);
      if !certRequest {
        state := VerifyClientCertificate;
        return Ok;
      }
      var message := conn.GetMessage();
      if message == None {
        return ReadMessage;
      }
      if message.value.kind != Certificate {
        if ssl3 && message.value.kind == ClientKeyExchange && !required {
          state := VerifyClientCertificate;
          return Ok;
        }
        return Error;
      }
      var parsed := conn.HashAndParse(Unparsable);
      if !parsed {
        return Error;
      }
      if !nonempty && (ssl3 || required) {
        conn.world.Fail(NoCertificate);
        return Error;
      }
      peerKey := nonempty;
      state := VerifyClientCertificate;
      return Ok;
    }

    method DoVerifyClientCertificate() returns (w: Wait)
      requires Valid() && state.VerifyClientCertificate?
      modifies this`state, conn, conn.world
      ensures Stepped(w)
      ensures !peerKey ==> w == Ok
      ensures w == Error ==> conn.world.fault == Some(Untrusted)
      ensures w == Ok || w == CertificateVerifyPending || w == Error
      ensures w == Ok ==> Went(ReadClientKeyExchange, if peerKey then [Checked] else [])
    {
      hide Connection.Valid, Connection.Pending, Stands, Next, Leads, Decided, Extended;
      ExtendedNone(conn.log);
      assert Leads(VerifyClientCertificate, ReadClientKeyExchange, session) by {
        FlightOrder(session);
      }
      VerifyStep(Now(), conn.phase);
      if peerKey {
        var result := conn.VerifyPeerCert();
        if result.VerifyInvalid? {
          return Error;
        }
        if result.VerifyRetry? {
          return CertificateVerifyPending;
        }
      }
      state := ReadClientKeyExchange;
      return Ok;
    }

    method DoReadClientKeyExchange() returns (w: Wait)
      requires Valid() && state.ReadClientKeyExchange?
      modifies this`state, conn, conn.world
      ensures Stepped(w)
      ensures w == Error ==> !old(conn.Offers(ClientKeyExchange)) || conn.world.fault == Some(NotComputed)
      ensures w == Ok || w == ReadMessage || w == PrivateKeyOperation || w == Error
      ensures w == ReadMessage <==> old(conn.inbox) == []
      ensures w == Ok ==> Went(ReadClientCertificateVerify, [Consumed(ClientKeyExchange)])
    {
      hide Connection.Valid, Connection.Pending, Stands, Next, Leads, Decided, Extended;
      assert Leads(ReadClientKeyExchange, ReadClientCertificateVerify, session) by {
        FlightOrder(session);
      }
      ClientKeyExchangeStep(Now(), conn.phase);
      var message := conn.GetMessage();
      if message == None {
        return ReadMessage;
      }
      if message.value.kind != ClientKeyExchange {
        return Error;
      }
      w := conn.world.Ask(PrivateKeyOperation, NotComputed);
      if w != Ok {
        return;
      }
      conn.HashAndConsume();
      state := ReadClientCertificateVerify;
      return Ok;
    }

    /** The signature is over the messages before the CertificateVerify, which is hashed only afterwards. */
    method DoReadClientCertificateVerify() returns (w: Wait)
      requires Valid() && state.ReadClientCertificateVerify?
      modifies this`state, conn, conn.world
      ensures Stepped(w)
      ensures !peerKey ==> w == Ok
      ensures w == Error ==> !old(conn.Offers(CertificateVerify)) || conn.world.fault == Some(BadSignature)
      ensures (w == Ok || w == ReadMessage || w == Error) && (w == ReadMessage ==> old(conn.inbox) == [])
      ensures w == Ok ==> Went(AwaitChangeCipherSpec, if peerKey then [Signed, Consumed(CertificateVerify)] else [])
    {
      hide Connection.Valid, Connection.Pending, Stands, Next, Leads, Decided, Extended;
      ExtendedNone(conn.log);
      assert Leads(ReadClientCertificateVerify, AwaitChangeCipherSpec, session) by {
        SwitchOrder(session);
      }
      CertificateVerifyStep(Now(), conn.phase);
      if !peerKey {
        state := AwaitChangeCipherSpec;
        return Ok;
      }
      var message := conn.GetMessage();
      if message == None {
        return ReadMessage;
      }
      if message.value.kind != CertificateVerify {
        return Error;
      }
      var signed := TakeCertificateVerify();
      if !signed {
        return Error;
      }
      state := AwaitChangeCipherSpec;
      return Ok;
    }

    /** The signature is verified, and then the message is hashed and consumed. */
    method TakeCertificateVerify() returns (signed: bool)
      requires conn.Valid() && conn.Offers(CertificateVerify)
      modifies conn`inbox, conn`transcript, conn`log, conn`phase, conn`protected, conn`finishedProtected
      modifies conn.world`fault
      ensures conn.world.fault == if signed then old(conn.world.fault) else Some(BadSignature)
      ensures signed ==> conn.Valid() && conn.inbox == old(conn.inbox)[1..] && old(conn.log) <= conn.log
      ensures signed ==> conn.Added([Signed, Consumed(CertificateVerify)])
      ensures signed ==>
                conn.phase == Next(conn.server, Next(conn.server, old(conn.phase), Signed), Consumed(CertificateVerify))
    {
      hide Connection.Valid, Next;
      signed := conn.VerifySignature();
      if signed {
        conn.HashAndConsume();
      }
    }

    method DoAwaitChangeCipherSpec() returns (w: Wait)
      requires Valid() && state.AwaitChangeCipherSpec?
      modifies this`state
      ensures Stepped(w)
      ensures w == ReadChangeCipherSpec && Went(ProcessChangeCipherSpec, []) && conn.Untouched()
    {
      hide Connection.Valid, Connection.Pending, Stands, Next, Leads, Decided, Extended;
      ExtendedNone(conn.log);
      SwitchOrder(session);
      AwaitStep(Now(), conn.phase);
      state := ProcessChangeCipherSpec;
      return ReadChangeCipherSpec;
    }

    lemma ConsumedTheSwitch()
      requires Valid() && state.ProcessChangeCipherSpec? && Switched()
      ensures ConsumedCcs in Marks(conn.log)
    {
      hide Follow, Connection.Protected;
      SwitchMarked(true, Marks(conn.log));
    }

    /** The read cipher is changed, and only where no message is left from before. */
    method DoProcessChangeCipherSpec() returns (w: Wait)
      requires Valid() && state.ProcessChangeCipherSpec? && Switched()
      modifies this`state, conn, conn.world
      ensures Stepped(w)
      ensures w == Error ==> old(conn.inbox) != [] || conn.world.fault == Some(KeysNotDerived)
      ensures w == Ok || w == Error
      ensures w == Ok ==> Went(ReadNextProto, []) && conn.Untouched() && conn.inbox == [] && conn.readKeyed
    {
      hide Connection.Valid, Connection.Pending, Stands, Next, Leads, Decided, Extended;
      ExtendedNone(conn.log);
      assert Leads(ProcessChangeCipherSpec, ReadNextProto, session) by {
        SwitchOrder(session);
      }
      ChangeCipherSpecStep(Now(), conn.phase);
      ConsumedTheSwitch();
      var switched := conn.SetReadState();
      if !switched {
        return Error;
      }
      state := ReadNextProto;
      return Ok;
    }

    method DoReadNextProto() returns (w: Wait)
      requires Valid() && state.ReadNextProto?
      modifies this`state, conn, conn.world
      ensures Stepped(w)
      ensures !nextProtoSeen ==> w == Ok
      ensures w == Error ==> !old(conn.Offers(NextProto)) || conn.world.fault == Some(Unparsable)
      ensures (w == Ok || w == ReadMessage || w == Error) && (w == ReadMessage ==> old(conn.inbox) == [])
      ensures w == Ok ==> Went(ReadChannelId, if nextProtoSeen then [Consumed(NextProto)] else [])
    {
      hide Connection.Valid, Connection.Pending, Stands, Next, Leads, Decided, Extended;
      ExtendedNone(conn.log);
      assert Leads(ReadNextProto, ReadChannelId, session) by {
        SwitchOrder(session);
      }
      NextProtoStep(Now(), conn.phase);
      if !nextProtoSeen {
        state := ReadChannelId;
        return Ok;
      }
      var message := conn.GetMessage();
      if message == None {
        return ReadMessage;
      }
      if message.value.kind != NextProto {
        return Error;
      }
      var parsed := conn.HashAndParse(Unparsable);
      if !parsed {
        return Error;
      }
      state := ReadChannelId;
      return Ok;
    }

    method DoReadChannelId() returns (w: Wait)
      requires Valid() && state.ReadChannelId?
      modifies this`state, conn, conn.world
      ensures Stepped(w)
      ensures !channelIdValid ==> w == Ok
      ensures w == Error ==> !old(conn.Offers(ChannelId)) || conn.world.fault == Some(BadSignature)
      ensures (w == Ok || w == ReadMessage || w == Error) && (w == ReadMessage ==> old(conn.inbox) == [])
      ensures w == Ok ==> Went(ReadClientFinished, if channelIdValid then [Consumed(ChannelId)] else [])
    {
      hide Connection.Valid, Connection.Pending, Stands, Next, Leads, Decided, Extended;
      ExtendedNone(conn.log);
      assert Leads(ReadChannelId, ReadClientFinished, session) by {
        SwitchOrder(session);
      }
      ChannelIdStep(Now(), conn.phase);
      if !channelIdValid {
        state := ReadClientFinished;
        return Ok;
      }
      var message := conn.GetMessage();
      if message == None {
        return ReadMessage;
      }
      if message.value.kind != ChannelId {
        return Error;
      }
      var proved := conn.HashAndParse(BadSignature);
      if !proved {
        return Error;
      }
      state := ReadClientFinished;
      return Ok;
    }

    method DoReadClientFinished() returns (w: Wait)
      requires Valid() && state.ReadClientFinished?
      modifies this`state, conn, conn.world
      ensures Stepped(w)
      ensures w == Error ==>
                || !old(conn.Offers(Finished)) || old(conn.inbox[0]).body != conn.mac(old(conn.transcript), false)
                || (!session && channelIdValid && conn.world.fault == Some(Denied))
      ensures (w == Ok || w == ReadMessage || w == Error) && (w == ReadMessage ==> old(conn.inbox) == [])
      ensures w == Ok ==>
                && Went(if session then FinishServerHandshake else SendServerFinished, [Consumed(Finished)])
                && old(conn.Offers(Finished)) && old(conn.inbox[0]).body == conn.mac(old(conn.transcript), false)
    {
      hide Connection.Valid, Connection.Pending, Stands, Next, Leads, Decided, Extended;
      ExtendedNone(conn.log);
      assert Leads(ReadClientFinished, if session then FinishServerHandshake else SendServerFinished, session) by {
        FinishOrder(session);
      }
      ClientFinishedStep(Now(), conn.phase);
      w := conn.GetFinished();
      if w != Ok {
        return;
      }
      if !session && channelIdValid {
        var recorded := conn.world.Try(Denied);
        if !recorded {
          return Error;
        }
      }
      state := if session then FinishServerHandshake else SendServerFinished;
    }

    method DoSendServerFinished() returns (w: Wait)
      requires Valid() && state.SendServerFinished?
      modifies this`state, conn, conn.world
      ensures Stepped(w)
      ensures w == Error ==> (conn.world.fault == Some(NoRoom) || conn.world.fault == Some(KeysNotDerived))
      ensures w == Flush || w == Error
      ensures w == Flush ==>
                Went(if session then AwaitChangeCipherSpec else FinishServerHandshake,
                     Switch(ticketExpected) + [Sent(Finished)])
    {
      hide Connection.Valid, Connection.Pending, Stands, Next, Leads, Decided, Extended, Switch;
      assert Leads(SendServerFinished, if session then AwaitChangeCipherSpec else FinishServerHandshake, session) by {
        FinishOrder(session);
      }
      var ok := SendSwitchAndFinished();
      if !ok {
        return Error;
      }
      state := if session then AwaitChangeCipherSpec else FinishServerHandshake;
      return Flush;
    }

    /** All that do_send_server_finished sends. */
    method SendSwitchAndFinished() returns (ok: bool)
      requires Valid() && state.SendServerFinished?
      modifies conn`transcript, conn`log, conn`phase, conn.world`fault
      ensures if ok then conn.world.fault == old(conn.world.fault)
              else conn.world.fault == Some(NoRoom) || conn.world.fault == Some(KeysNotDerived)
      ensures ok ==> conn.Valid() && old(conn.log) <= conn.log && conn.Added(Switch(ticketExpected) + [Sent(Finished)])
      ensures ok ==> Stands(if session then AwaitChangeCipherSpec else FinishServerHandshake, Now(), conn.phase)
    {
      hide Connection.Valid, Connection.Pending, Stands, Next, Extended, Switch;
      ServerFinishedStep(Now(), conn.phase, ticketExpected);
      ok := SendSwitch();
      if !ok {
        return;
      }
      ghost var log := conn.log;
      ok := conn.SendFinished();
      if ok {
        ExtendedAppend(old(conn.log), log, Switch(ticketExpected), conn.log[|log|]);
      }
    }

    /** The part of do_send_server_finished before the Finished: the ticket, if one is expected, and
        ChangeCipherSpec. */
    method SendSwitch() returns (ok: bool)
      requires conn.Valid()
      modifies conn`transcript, conn`log, conn`phase, conn.world`fault
      ensures if ok then conn.world.fault == old(conn.world.fault)
              else conn.world.fault == Some(NoRoom) || conn.world.fault == Some(KeysNotDerived)
      ensures ok ==> conn.Valid() && old(conn.log) <= conn.log && conn.Added(Switch(ticketExpected))
      ensures ok ==>
                var p := old(conn.phase);
                var q := if ticketExpected then Next(conn.server, p, Sent(NewSessionTicket)) else p;
                conn.phase == Next(conn.server, q, SentCcs)
    {
      hide Connection.Valid, Next;
      var body: seq<byte> := *;
      if ticketExpected {
        ok := conn.AddMessage(NewSessionTicket, body);
        if !ok {
          return;
        }
      }
      ok := conn.AddChangeCipherSpec();
      if ok {
        ok := conn.world.Try(KeysNotDerived);
      }
    }

    method DoFinishServerHandshake() returns (w: Wait)
      requires Valid() && state.FinishServerHandshake?
      modifies this`state
      ensures Stepped(w)
      ensures w == Ok && state.Done? && conn.Untouched()
    {
      hide Connection.Valid, Connection.Pending, Stands, Next, Leads, Decided, Extended;
      ExtendedNone(conn.log);
      FinishOrder(session);
      if !tls13 {
        FinishStep(Now(), conn.phase);
      }
      state := Done;
      return Ok;
    }

    /** The log only grew, and no message arrived. */
    twostate predicate Extends()
      reads conn
    {
      old(conn.log) <= conn.log && conn.received == old(conn.received)
    }

    /** Where the handshake is, for the question whether it comes to its end. */
    ghost function Here(): Place
      reads this, conn, conn.world
    {
      Place(state, session, conn.world.patience, conn.world.fault, Right(), conn.inbox == [],
            Awaits(state, Needs(), Due(state, Needs())))
    }

    twostate lemma SteppedForward(w: Wait)
      requires Stepped(w) && !tls13
      ensures Forward(old(Here()), Here(), w)
    {
      hide Right, Leads, Awaits, Due, Decided;
    }

    /** ssl_server_handshake: runs steps until one has to wait, or fails, or the handshake is done. */
    method Handshake() returns (w: Wait)
      requires Valid() && Switched()
      modifies this, conn, conn.world
      ensures w != Error ==> Valid() && (Switched() <==> w != ReadChangeCipherSpec)
      ensures w != Error ==> (w == Ok <==> state.Done?)
      ensures old(Decided(state)) ==> session == old(session) && (w != Error ==> Decided(state))
      ensures (old(tls13) ==> tls13) && (w != Error && !tls13 ==> Extends())
      ensures tls13 || old(state.Done?) || Forward(old(Here()), Here(), w)
      ensures old(state.Done?) ==> w == Ok && unchanged(this) && unchanged(conn) && unchanged(conn.world)
    {
      hide Stands, Connection.Valid, Valid, Right, Leads, Awaits, Decided, Forward, Lively, Here;
      w := Ok;
      ghost var origin := Here();
      ghost var first := true;
      while !state.Done?
        invariant Valid() && Switched() && w == Ok
        invariant old(Decided(state)) ==> Decided(state) && session == old(session)
        invariant (old(tls13) ==> tls13) && (!tls13 ==> Extends())
        invariant tls13 || if first then Here() == origin else Forward(origin, Here(), Ok)
        invariant first ==> state == old(state)
        invariant old(state.Done?) ==> unchanged(this) && unchanged(conn) && unchanged(conn.world)
        decreases Rank(state, session)
      {
        if !Decided(state) {
          SameRank(state);
        }
        ghost var from, before := Here(), state;
        w := Do();
        if w == Ok || (w != Error && state != before) {
          LeadsMeans(before, state, session);
        }
        if !tls13 && !first {
          ForwardOn(origin, from, Here(), w);
        }
        if w != Ok {
          return;
        }
        first := false;
      }
    }

    /** The switch in the loop of ssl_server_handshake. */
    method Do() returns (w: Wait)
      requires Valid() && Switched() && !state.Done?
      modifies this, conn, conn.world
      ensures Stepped(w)
      ensures tls13 || Forward(old(Here()), Here(), w)
    {
      hide Valid, Stepped, Switched, Forward, Here;
      match state {
      case StartAccept => w := DoStartAccept();
      case ReadClientHello => w := DoReadClientHello();
      case SelectCertificate => w := DoSelectCertificate();
      case Tls13 => w := DoTls13();
      case SelectParameters => w := DoSelectParameters();
      case SendServerHello => w := DoSendServerHello();
      case SendServerCertificate => w := DoSendServerCertificate();
      case SendServerKeyExchange => w := DoSendServerKeyExchange();
      case SendServerHelloDone => w := DoSendServerHelloDone();
      case ReadClientCertificate => w := DoReadClientCertificate();
      case VerifyClientCertificate => w := DoVerifyClientCertificate();
      case ReadClientKeyExchange => w := DoReadClientKeyExchange();
      case ReadClientCertificateVerify => w := DoReadClientCertificateVerify();
      case AwaitChangeCipherSpec => w := DoAwaitChangeCipherSpec();
      case ProcessChangeCipherSpec => w := DoProcessChangeCipherSpec();
      case ReadNextProto => w := DoReadNextProto();
      case ReadChannelId => w := DoReadChannelId();
      case ReadClientFinished => w := DoReadClientFinished();
      case SendServerFinished => w := DoSendServerFinished();
      case FinishServerHandshake => w := DoFinishServerHandshake();
      }
      if !tls13 {
        SteppedForward(w);
      }
    }

    /** Between calls: the handshake failed, or it stands somewhere and waits for a ChangeCipherSpec exactly when it
        has not come yet. */
    ghost predicate Rests()
      reads this, conn
    {
      wait != Error ==> Valid() && (Switched() <==> wait != ReadChangeCipherSpec) && (state.Done? ==> wait == Ok)
    }

    /** ssl_run_handshake, with the answers that the record layer and the application give in turn. It goes on as
        long as there are answers, and may be called again after it returned. How many answers it took is given
        back, and the messages received are those that came with them. */
    method Run(answers: seq<Answer>) returns (result: RunResult, used: nat)
      requires Rests()
      modifies this, conn, conn.world
      ensures Rests() && used <= |answers|
      ensures result == HandshakeDone <==> wait == Ok && state.Done?
      ensures result == RunResult.Failed <==> wait == Error
      ensures old(Decided(state)) && wait != Error ==> Decided(state) && session == old(session)
      ensures old(tls13) ==> tls13
      ensures wait != Error && !tls13 ==>
                old(conn.log) <= conn.log && conn.received == old(conn.received) + Arrived(answers[..used])
      ensures old(Ready() && Meets(answers)) ==> Onward()
    {
      hide Rests, Decided, Switched, Arrived, Awake, Met, Nearer, Here, Resolved;
      used := 0;
      NoneArrived(answers);
      ghost var ran := false;
      ghost var promised := Ready() && Meets(answers);
      while true
        invariant 0 <= used <= |answers| && Rests()
        invariant old(Decided(state)) && wait != Error ==> Decided(state) && session == old(session)
        invariant old(tls13) ==> tls13
        invariant wait != Error && !tls13 ==>
                    old(conn.log) <= conn.log && conn.received == old(conn.received) + Arrived(answers[..used])
        invariant promised && !ran ==>
                    used == 0 && Ready() && Meets(answers) && Here() == old(Here()) && wait == old(wait)
        invariant promised && ran ==> used == |answers| && wait != Ok && wait != Error
        invariant promised && ran ==> tls13 || (Awake() && Nearer(old(Here()), old(wait), Here(), wait))
        decreases |answers| - used, if wait == Ok then 1 else 0
      {
        ghost var waited := wait;
        var resolution, taken := Turn(if used < |answers| then Some(answers[used]) else None);
        if taken {
          OneMoreArrived(answers, used);
          used := used + 1;
        }
        if resolution.Return? {
          if promised && ran && !tls13 {
            NearerSame(old(Here()), old(wait), Here(), waited, wait);
          }
          return resolution.result, used;
        }
        if resolution.Proceed? {
          if wait == Error {
            return RunResult.Failed, used;
          }
          if wait == Ok {
            return HandshakeDone, used;
          }
        }
        ran := true;
      }
    }

    /** The handshake rests where it can go on with an answer, and no message but a right one is there. */
    ghost predicate Ready()
      reads this, conn
    {
      Awake() && Stopped(wait)
    }

    ghost predicate Awake()
      reads this, conn
    {
      && Rests() && wait != Error && wait != EndOfEarlyData && wait != EarlyDataRejected && !tls13 && Right()
      && (Reads(wait) ==> conn.inbox == [] && Awaits(state, Needs(), Due(state, Needs())))
    }

    /** An answer that is needed, and if it is a message, a right one. */
    ghost predicate Met(answer: Option<Answer>)
      reads this, conn
    {
      Answers(wait, answer) && (Reads(wait) ==> RightMessage(answer.value.messages[0]))
    }

    ghost predicate Meets(answers: seq<Answer>)
      reads this, conn
    {
      |answers| <= 1 && Met(if answers == [] then None else Some(answers[0]))
    }

    /** Something failed, or the handshake is done, or it is nearer to its end and can go on. */
    twostate predicate Onward()
      reads this, conn, conn.world
    {
      || tls13 || (wait == Error && conn.world.fault.Some?)
      || (Ready() && (state.Done? || Nearer(old(Here()), old(wait), Here(), wait)))
    }

    /** One round of the loop of ssl_run_handshake. */
    method Turn(answer: Option<Answer>) returns (r: Resolution, taken: bool)
      requires Rests()
      modifies this, conn, conn.world
      ensures Rests() && (r, taken) == (Resolved(old(wait), answer, dtls).0, Resolved(old(wait), answer, dtls).1)
      ensures r == Proceed && wait == Ok ==> state.Done?
      ensures r != Proceed && wait != Error ==> !state.Done?
      ensures r == Proceed ==> taken || old(wait) == Ok
      ensures (r == Again ==> taken) && (taken ==> answer.Some?)
      ensures r.Return? ==> !taken && r.result != HandshakeDone && (r.result == RunResult.Failed <==> wait == Error)
      ensures old(wait) == Error ==> r.Return? && wait == Error
      ensures r != Proceed ==> (wait == Error <==> old(wait) == Error)
      ensures r != Proceed ==> wait == Resolved(old(wait), answer, dtls).2
      ensures old(Decided(state)) && wait != Error ==> Decided(state) && session == old(session)
      ensures old(tls13) ==> tls13
      ensures wait != Error && !tls13 ==>
                && old(conn.log) <= conn.log
                && conn.received == old(conn.received) + if taken then Arrived([answer.value]) else []
      ensures old(Ready() && Met(answer)) ==>
                && r == Proceed && taken == answer.Some?
                && (|| tls13 || (wait == Error && conn.world.fault.Some?)
                    || (wait != Error && Awake() && (wait == Ok || Nearer(old(Here()), old(wait), Here(), wait))))
      ensures answer == None && old(Awake() && wait != Ok) ==>
                && r.Return? && !taken && Ready() && Here() == old(Here()) && Stage(wait) == Stage(old(wait))
    {
      assert state.Done? && wait != Error ==> wait == Ok;
      hide Valid, Rests, Switched, Decided, Leads, Awaits, Due, Forward, Nearer, Resolved, Answers, Arrived, Right;
      hide Met, RightMessage;
      ResolvedMeans(wait, answer, dtls);
      ghost var from, waited, met := Here(), wait, Ready() && Met(answer);
      r, taken := Admit(answer);
      ghost var resolved := Here();
      if r == Proceed {
        Continue();
        if met && !tls13 && !old(state.Done?) {
          ForwardNearer(from, waited, resolved, Here(), wait);
        }
      }
    }

    /** Resolve, and what it means for a handshake that can go on. */
    method Admit(answer: Option<Answer>) returns (r: Resolution, taken: bool)
      requires Rests()
      modifies this`wait, conn
      ensures Rests() && (r, taken, wait) == Resolved(old(wait), answer, dtls) && (r == Proceed ==> Switched())
      ensures old(conn.log) <= conn.log
      ensures conn.received == old(conn.received) + if taken then Arrived([answer.value]) else []
      ensures old(Ready() && Met(answer)) ==>
                && r == Proceed && taken == answer.Some? && Right() && (conn.inbox == [] ==> !Reads(old(wait)))
                && Here() == old(Here()).(right := true, empty := Here().empty, due := Here().due)
      ensures answer == None && old(Awake() && wait != Ok) ==>
                && r.Return? && !taken && Ready() && Here() == old(Here()) && Stage(wait) == Stage(old(wait))
    {
      hide Valid, Rests, Switched, Decided, Awaits, Due, Resolved, Answers, Arrived;
      ResolvedMeans(wait, answer, dtls);
      if Ready() && Met(answer) {
        AnswerProceeds(wait, answer, dtls);
      }
      if Awake() && answer == None && wait != Ok {
        NoAnswerReturns(wait, dtls);
      }
      r, taken := Resolve(answer);
    }

    /** What the record layer or the application may answer when the handshake rests: whatever is needed, and for a
        message any that is awaited. */
    method AnyAnswer() returns (answers: seq<Answer>)
      requires Ready()
      ensures Meets(answers)
    {
      if Reads(wait) {
        var m: Message := *;
        if !RightMessage(m) {
          m := Message(Due(state, Needs()), conn.mac(conn.transcript, false), []);
        }
        return [Messages([m])];
      }
      match wait
      case Flush => return [Flushed];
      case ReadChangeCipherSpec => return [Ccs];
      case _ => return [];
    }

    /** A client that sends what is awaited, record by record, and an application and a network that answer what is
        waited for: whatever they choose, the handshake comes to its end, unless something fails that it depends on or
        TLS 1.3 is chosen. */
    method Converse()
      requires Rests() && Ready() && conn.world.fault == None
      modifies this, conn, conn.world
      ensures Rests() && (tls13 || (wait == Error && conn.world.fault.Some?) || (wait != Error && state.Done?))
    {
      assert wait != Error;
      hide Ready, Rests, Rank;
      while !tls13 && wait != Error && !state.Done?
        invariant Rests()
        invariant tls13 || (wait == Error && conn.world.fault.Some?) || (wait != Error && Ready())
        decreases if tls13 || wait == Error then 0 else 1, Rank(state, session), conn.world.patience, Stage(wait)
      {
        Round();
      }
    }

    /** One answer, and what follows from it, brings the handshake nearer to its end. */
    method Round()
      requires Rests() && Ready() && !state.Done?
      modifies this, conn, conn.world
      ensures Rests() && (tls13 || (wait == Error && conn.world.fault.Some?) || (wait != Error && Ready()))
      ensures var rank, patience := Rank(state, session), conn.world.patience;
              tls13 || wait == Error || rank < old(Rank(state, session))
              || (rank == old(Rank(state, session))
                  && (patience < old(conn.world.patience)
                      || (patience == old(conn.world.patience) && Stage(wait) < old(Stage(wait)))))
    {
      hide Awake, Nearer, Met, Rests, Leads, Awaits, Decided, Right, Rank;
      var answers := AnyAnswer();
      ghost var from, waited := Here(), wait;
      var result, used := Run(answers);
      if state.Done? {
        DoneLast(old(state), old(session), session);
      } else if !tls13 && wait != Error {
        NearerMeans(from, waited, Here(), wait);
      }
    }

    /** Runs the state machine again and keeps what it waits for. */
    method Continue()
      requires Rests() && wait != Error && Switched()
      modifies this, conn, conn.world
      ensures Rests() && (wait == Ok ==> state.Done?)
      ensures old(Decided(state)) && wait != Error ==> Decided(state) && session == old(session)
      ensures (old(tls13) ==> tls13) && (wait != Error && !tls13 ==> Extends())
      ensures tls13 || old(state.Done?) || Forward(old(Here()), Here(), wait)
      ensures old(state.Done?) ==> wait == Ok && tls13 == old(tls13) && Here() == old(Here())
    {
      hide Stands, Connection.Valid, Decided, Leads, Awaits, Due, Forward;
      var w := Handshake();
      wait := w;
    }

    /** The switch at the head of ssl_run_handshake: what to do about the wait, and whether an answer was taken. */
    method Resolve(answer: Option<Answer>) returns (r: Resolution, taken: bool)
      requires Rests()
      modifies this`wait, conn
      ensures Rests() && (r, taken, wait) == Resolved(old(wait), answer, dtls)
      ensures r == Proceed ==> Switched()
      ensures conn.transcript == old(conn.transcript)
      ensures conn.log == old(conn.log) + if old(wait) == ReadChangeCipherSpec && r == Proceed
                                          then [Event(ConsumedCcs, NOTHING)] else []
      ensures var came := if taken then Arrived([answer.value]) else [];
              conn.inbox == old(conn.inbox) + came && conn.received == old(conn.received) + came
    {
      hide Stands, Next, Connection.Logged;
      taken := false;
      match wait
      case Error => return Return(RunResult.Failed), false;
      case Ok => return Proceed, false;
      case Flush =>
        if answer == Some(Flushed) {
          return Proceed, true;
        }
        return Return(Waiting), false;
      case ReadServerHello =>
        r, taken := ReadMore(answer);
      case ReadMessage =>
        r, taken := ReadMore(answer);
      case ReadChangeCipherSpec =>
        r, taken := AwaitCcs(answer);
      case EndOfEarlyData =>
        if answer == Some(EarlyDataRead) {
          wait := Ok;
          return Proceed, true;
        }
        return Return(Early), false;
      case EarlyDataRejected => return Return(Waiting), false;
      case EarlyReturn =>
        wait := Ok;
        return Return(Early), false;
      case Handoff | CertificateSelection | X509Lookup | ChannelIdLookup | PrivateKeyOperation | PendingSession
        | PendingTicket | CertificateVerifyPending =>
        wait := Ok;
        return Return(Waiting), false;
    }

    /** The record layer reads on. */
    method ReadMore(answer: Option<Answer>) returns (r: Resolution, taken: bool)
      requires Rests() && Reads(wait)
      modifies conn`inbox, conn`received, conn`protected
      ensures Rests() && (r, taken, wait) == Resolved(wait, answer, dtls)
      ensures var came := if taken then Arrived([answer.value]) else [];
              conn.inbox == old(conn.inbox) + came && conn.received == old(conn.received) + came
    {
      hide Stands, Connection.Logged, Connection.Protected;
      r, taken := conn.Receive(answer);
    }

    /** A ChangeCipherSpec is needed. Over DTLS other records may come first. */
    method AwaitCcs(answer: Option<Answer>) returns (r: Resolution, taken: bool)
      requires Rests() && wait.ReadChangeCipherSpec?
      modifies this`wait, conn`inbox, conn`received, conn`log, conn`phase, conn`protected
      ensures Rests() && (r, taken, wait) == Resolved(ReadChangeCipherSpec, answer, dtls)
      ensures r == Proceed ==> Switched()
      ensures conn.log == old(conn.log) + if r == Proceed then [Event(ConsumedCcs, NOTHING)] else []
      ensures var came := if taken then Arrived([answer.value]) else [];
              conn.inbox == old(conn.inbox) + came && conn.received == old(conn.received) + came
    {
      hide Stands, Next, Connection.Logged;
      if answer == Some(Ccs) {
        ChangeCipherSpecStep(Now(), conn.phase);
        conn.NoteCcs();
        wait := Ok;
        return Proceed, true;
      }
      r, taken := Return(Waiting), false;
      if dtls {
        r, taken := conn.Receive(answer);
        if r == Proceed {
          r := Again;
        }
      }
    }

    /** Every handshake that ends, of TLS 1.2 or below: one Finished was sent and one consumed, each after its side's
        ChangeCipherSpec; the client's came first in a full handshake, the server's in a resumed one; if the client
        sent a certificate, it was verified and so was the signature of its CertificateVerify; and the transcript is
        that of the messages sent and consumed. */
    lemma DoneIsSafe()
      requires Rests() && wait != Error && state.Done? && !tls13
      ensures var marks := Marks(conn.log);
              && Count(marks, Sent(Finished)) == 1 && Count(marks, Consumed(Finished)) == 1
              && Count(marks, SentCcs) == 1 && Count(marks, ConsumedCcs) == 1
              && Before(marks, SentCcs, Sent(Finished)) && Before(marks, ConsumedCcs, Consumed(Finished))
              && (if session then Before(marks, Sent(Finished), Consumed(Finished))
                  else Before(marks, Consumed(Finished), Sent(Finished)))
              && Before(marks, Checked, Sent(Finished)) && Before(marks, Checked, Consumed(Finished))
              && Before(marks, Signed, Sent(Finished)) && Before(marks, Signed, Consumed(Finished))
              && (peerKey ==> Consumed(Certificate) in marks && Checked in marks && Signed in marks)
              && (Consumed(Certificate) in marks ==> Sent(CertificateRequest) in marks)
              && (Consumed(CertificateVerify) in marks ==> Consumed(Certificate) in marks)
              && conn.transcript == Hashed(conn.log) && FinishedCover(conn.mac, true, conn.log)
              && conn.received == Taken(conn.log) + conn.inbox && conn.finishedProtected
    {
      hide Follow;
      VerifiedBefore(true, Marks(conn.log), Checked);
      VerifiedBefore(true, Marks(conn.log), Signed);
      SwitchedBefore(true, Marks(conn.log));
      CertificateOnRequest(true, Marks(conn.log));
      FlowCounts(true, Marks(conn.log));
      FinishedOrder(true, Marks(conn.log));
      FlagsMean(true, Marks(conn.log));
      CountZero(Marks(conn.log), Consumed(Finished));
    }
  }
}
