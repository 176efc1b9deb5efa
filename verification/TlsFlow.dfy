/** The flow of messages in a handshake of TLS 1.2 or below: the figures of section 7.3 of RFC 5246, with the
    messages of the extensions. */
module TlsFlow {

  datatype Kind =
    | ClientHello
    | ServerHello
    | HelloVerifyRequest
    | NewSessionTicket
    | Certificate
    | CertificateStatus
    | ServerKeyExchange
    | CertificateRequest
    | ServerHelloDone
    | CertificateVerify
    | ClientKeyExchange
    | Finished
    | NextProto
    | ChannelId
    | OtherKind(code: int)

  /** What one side does in a handshake. Checked stands for the verification of the peer's certificate, Signed for
      that of the signature in its CertificateVerify. */
  datatype Mark =
    | Sent(kind: Kind)
    | Consumed(kind: Kind)
    | SentCcs
    | ConsumedCcs
    | Reset
    | Checked
    | Signed

  /** Up to where a flow has come. In a full handshake the client finishes first, in a resumed one the server. */
  datatype Step =
    | Idle
    | AfterClientHello
    | AfterVerifyRequest
    | AfterReset
    | AfterEarlySwitch
    | AfterServerHello
    | AfterServerCertificate
    | AfterStatus
    | AfterServerKeys
    | AfterCertificateRequest
    | AfterServerHelloDone
    | AfterClientCertificate
    | AfterClientKeys
    | AfterClientVerify
    | ClientSwitched(resumed: bool)
    | AfterNextProto(resumed: bool)
    | AfterChannelId(resumed: bool)
    | AfterClientFinished
    | AfterTicket(resumed: bool)
    | ServerSwitched(resumed: bool)
    | AfterServerFinished
    | Complete(resumed: bool)
    | Broken

  /** The step, and which certificates, requests for one and verifications the flow holds. */
  datatype Phase = Phase(step: Step, serverCertificate: bool, requested: bool, clientCertificate: bool, checked: bool,
                         signed: bool)

  const START := Phase(Idle, false, false, false, false, false)

  /** A message or ChangeCipherSpec by the side it comes from. */
  datatype Item = FromClient(kind: Kind) | FromServer(kind: Kind) | ClientCcs | ServerCcs

  function ItemOf(server: bool, m: Mark): Item
    requires m.Sent? || m.Consumed? || m.SentCcs? || m.ConsumedCcs?
  {
    match m
    case Sent(k) => if server then FromServer(k) else FromClient(k)
    case Consumed(k) => if server then FromClient(k) else FromServer(k)
    case SentCcs => if server then ServerCcs else ClientCcs
    case ConsumedCcs => if server then ClientCcs else ServerCcs
  }

  /** Where an item leads. */
  function Move(s: Step, i: Item): Step {
    if s.Broken? then Broken else
    match i
    case FromClient(ClientHello) =>
      if s.Idle? || s.AfterReset? then AfterClientHello else Broken
    case FromServer(HelloVerifyRequest) =>
      if s.AfterClientHello? then AfterVerifyRequest else Broken
    case FromServer(ServerHello) =>
      if s.AfterClientHello? then AfterServerHello else Broken
    case FromServer(Certificate) =>
      if s.AfterServerHello? then AfterServerCertificate else Broken
    case FromServer(CertificateStatus) =>
      if s.AfterServerHello? || s.AfterServerCertificate? then AfterStatus else Broken
    case FromServer(ServerKeyExchange) =>
      if s.AfterServerHello? || s.AfterServerCertificate? || s.AfterStatus? then AfterServerKeys else Broken
    case FromServer(CertificateRequest) =>
      if s.AfterServerHello? || s.AfterServerCertificate? || s.AfterStatus? || s.AfterServerKeys?
      then AfterCertificateRequest else Broken
    case FromServer(ServerHelloDone) =>
      if s.AfterServerHello? || s.AfterServerCertificate? || s.AfterStatus? || s.AfterServerKeys?
         || s.AfterCertificateRequest?
      then AfterServerHelloDone else Broken
    case FromClient(Certificate) =>
      if s.AfterServerHelloDone? then AfterClientCertificate else Broken
    case FromClient(ClientKeyExchange) =>
      if s.AfterServerHelloDone? || s.AfterClientCertificate? then AfterClientKeys else Broken
    case FromClient(CertificateVerify) =>
      if s.AfterClientKeys? then AfterClientVerify else Broken
    case ClientCcs =>
      if s.AfterClientKeys? || s.AfterClientVerify? then ClientSwitched(false)
      else if s.AfterServerFinished? then ClientSwitched(true)
      else if s.AfterClientHello? then AfterEarlySwitch
      else Broken
    case FromClient(NextProto) =>
      if s.ClientSwitched? then AfterNextProto(s.resumed) else Broken
    case FromClient(ChannelId) =>
      if s.ClientSwitched? || s.AfterNextProto? then AfterChannelId(s.resumed) else Broken
    case FromClient(Finished) =>
      if s.ClientSwitched? || s.AfterNextProto? || s.AfterChannelId?
      then if s.resumed then Complete(true) else AfterClientFinished
      else Broken
    case FromServer(NewSessionTicket) =>
      if s.AfterClientFinished? then AfterTicket(false)
      else if s.AfterServerHello? then AfterTicket(true) else Broken
    case ServerCcs =>
      if s.AfterClientFinished? then ServerSwitched(false)
      else if s.AfterServerHello? then ServerSwitched(true)
      else if s.AfterTicket? then ServerSwitched(s.resumed) else Broken
    case FromServer(Finished) =>
      if (s.ServerSwitched? && !s.resumed) then Complete(false)
      else if (s.ServerSwitched? && s.resumed) then AfterServerFinished
      else Broken
    case _ => Broken
  }

  /** A client sends Certificate only on request, and CertificateVerify only after Certificate. */
  predicate Allowed(p: Phase, i: Item) {
    && (i == FromClient(Certificate) ==> p.requested)
    && (i == FromClient(CertificateVerify) ==> p.clientCertificate)
  }

  /** Where a mark leads. A certificate is checked after it came and before anything is based on it; a signature is
      verified once the peer's certificate and the keys are there. */
  function Next(server: bool, p: Phase, m: Mark): Phase {
    match m
    case Reset => if p.step.AfterVerifyRequest? then p.(step := AfterReset) else p.(step := Broken)
    case Checked =>
      if server
      then if p.step.AfterClientCertificate? then p.(checked := true) else p.(step := Broken)
      else if p.step.AfterServerCertificate? || p.step.AfterStatus? then p.(checked := true)
      else p.(step := Broken)
    case Signed => if server && p.step.AfterClientKeys? && p.checked then p.(signed := true) else p.(step := Broken)
    case _ =>
      var i := ItemOf(server, m);
      p.(step := if Allowed(p, i) then Move(p.step, i) else Broken,
         serverCertificate := p.serverCertificate || i == FromServer(Certificate),
         requested := p.requested || i == FromServer(CertificateRequest),
         clientCertificate := p.clientCertificate || i == FromClient(Certificate))
  }

  ghost function Follow(server: bool, marks: seq<Mark>): Phase {
    if marks == [] then START else Next(server, Follow(server, marks[..|marks| - 1]), marks[|marks| - 1])
  }

  // What a complete flow holds

  ghost function Count(marks: seq<Mark>, m: Mark): nat {
    if marks == [] then 0
    else Count(marks[..|marks| - 1], m) + if marks[|marks| - 1] == m then 1 else 0
  }

  /** Every x comes before every y. */
  ghost predicate Before(marks: seq<Mark>, x: Mark, y: Mark) {
    forall i, j | 0 <= i < |marks| && 0 <= j < |marks| && marks[i] == x && marks[j] == y :: i < j
  }

  lemma {:induction false} CountZero(marks: seq<Mark>, m: Mark)
    ensures Count(marks, m) == 0 <==> m !in marks
  {
    if marks != [] {
      CountZero(marks[..|marks| - 1], m);
      assert marks == marks[..|marks| - 1] + [marks[|marks| - 1]];
    }
  }

  predicate ClientIsDone(s: Step) {
    s.AfterClientFinished? || (s.AfterTicket? && !s.resumed) || (s.ServerSwitched? && !s.resumed) || s.Complete?
  }

  predicate ServerIsDone(s: Step) {
    s.AfterServerFinished? || s.Complete? || (s.ClientSwitched? && s.resumed) || (s.AfterNextProto? && s.resumed) ||
    (s.AfterChannelId? && s.resumed)
  }

  predicate ClientHasSwitched(s: Step) {
    s.ClientSwitched? || s.AfterNextProto? || s.AfterChannelId? || ClientIsDone(s) || s.AfterEarlySwitch?
  }

  predicate ServerHasSwitched(s: Step) {
    s.ServerSwitched? || ServerIsDone(s)
  }

  function ClientFinished(server: bool): Mark {
    if server then Consumed(Finished) else Sent(Finished)
  }

  function ServerFinished(server: bool): Mark {
    if server then Sent(Finished) else Consumed(Finished)
  }

  function ClientSwitch(server: bool): Mark {
    if server then ConsumedCcs else SentCcs
  }

  function ServerSwitch(server: bool): Mark {
    if server then SentCcs else ConsumedCcs
  }

  function OneIf(b: bool): nat {
    if b then 1 else 0
  }

  lemma ClientDoneMove(s: Step, i: Item)
    requires Move(s, i) != Broken
    ensures OneIf(ClientIsDone(Move(s, i))) == OneIf(ClientIsDone(s)) + OneIf(i == FromClient(Finished))
  {}

  lemma ServerDoneMove(s: Step, i: Item)
    requires Move(s, i) != Broken
    ensures OneIf(ServerIsDone(Move(s, i))) == OneIf(ServerIsDone(s)) + OneIf(i == FromServer(Finished))
  {}

  lemma ClientSwitchMove(s: Step, i: Item)
    requires Move(s, i) != Broken
    ensures OneIf(ClientHasSwitched(Move(s, i))) == OneIf(ClientHasSwitched(s)) + OneIf(i == ClientCcs)
  {}

  lemma ServerSwitchMove(s: Step, i: Item)
    requires Move(s, i) != Broken
    ensures OneIf(ServerHasSwitched(Move(s, i))) == OneIf(ServerHasSwitched(s)) + OneIf(i == ServerCcs)
  {}

  lemma BrokenStays(server: bool, p: Phase, m: Mark)
    requires p.step.Broken?
    ensures Next(server, p, m).step.Broken?
  {}

  predicate IsItem(m: Mark) {
    m.Sent? || m.Consumed? || m.SentCcs? || m.ConsumedCcs?
  }

  lemma CheckKeeps(server: bool, p: Phase, m: Mark)
    requires !IsItem(m) && Next(server, p, m).step != Broken
    ensures OneIf(ClientIsDone(p.step)) == OneIf(ClientIsDone(Next(server, p, m).step)) == 0
    ensures OneIf(ServerIsDone(p.step)) == OneIf(ServerIsDone(Next(server, p, m).step)) == 0
    ensures OneIf(ClientHasSwitched(p.step)) == OneIf(ClientHasSwitched(Next(server, p, m).step)) == 0
    ensures OneIf(ServerHasSwitched(p.step)) == OneIf(ServerHasSwitched(Next(server, p, m).step)) == 0
  {
    hide Move;
  }

  lemma NextCounts(server: bool, p: Phase, m: Mark)
    requires Next(server, p, m).step != Broken
    ensures !p.step.Broken?
    ensures var s, t := p.step, Next(server, p, m).step;
            && OneIf(ClientIsDone(t)) == OneIf(ClientIsDone(s)) + OneIf(m == ClientFinished(server))
            && OneIf(ServerIsDone(t)) == OneIf(ServerIsDone(s)) + OneIf(m == ServerFinished(server))
            && OneIf(ClientHasSwitched(t)) == OneIf(ClientHasSwitched(s)) + OneIf(m == ClientSwitch(server))
            && OneIf(ServerHasSwitched(t)) == OneIf(ServerHasSwitched(s)) + OneIf(m == ServerSwitch(server))
  {
    hide Move, ClientIsDone, ServerIsDone, ClientHasSwitched, ServerHasSwitched;
    if p.step.Broken? {
      BrokenStays(server, p, m);
    }
    if IsItem(m) {
      var i := ItemOf(server, m);
      ClientDoneMove(p.step, i);
      ServerDoneMove(p.step, i);
      ClientSwitchMove(p.step, i);
      ServerSwitchMove(p.step, i);
    } else {
      CheckKeeps(server, p, m);
    }
  }

  /** As far as a flow has come it holds what it should of either side's Finished and ChangeCipherSpec, once. */
  lemma {:induction false} FlowCounts(server: bool, marks: seq<Mark>)
    requires Follow(server, marks).step != Broken
    ensures var s := Follow(server, marks).step;
            && Count(marks, ClientFinished(server)) == OneIf(ClientIsDone(s))
            && Count(marks, ServerFinished(server)) == OneIf(ServerIsDone(s))
            && Count(marks, ClientSwitch(server)) == OneIf(ClientHasSwitched(s))
            && Count(marks, ServerSwitch(server)) == OneIf(ServerHasSwitched(s))
  {
    hide Next, ClientFinished, ServerFinished, ClientSwitch, ServerSwitch;
    if marks == [] {
    } else {
      hide ClientIsDone, ServerIsDone, ClientHasSwitched, ServerHasSwitched;
      NextCounts(server, Follow(server, marks[..|marks| - 1]), marks[|marks| - 1]);
      FlowCounts(server, marks[..|marks| - 1]);
    }
  }

  /** The steps after the first Finished, by whose it was. */
  predicate ClientFirst(s: Step) {
    || s.AfterClientFinished? || (s.AfterTicket? && !s.resumed) || (s.ServerSwitched? && !s.resumed)
    || (s.Complete? && !s.resumed)
  }

  predicate ServerFirst(s: Step) {
    || s.AfterServerFinished? || (s.ClientSwitched? && s.resumed) || (s.AfterNextProto? && s.resumed)
    || (s.AfterChannelId? && s.resumed) || (s.Complete? && s.resumed)
  }

  lemma FirstMove(server: bool, p: Phase, m: Mark)
    requires Next(server, p, m).step != Broken
    ensures ClientFirst(Next(server, p, m).step) ==>
              (ClientFirst(p.step) && m != ClientFinished(server)) ||
              (m == ClientFinished(server) && !ServerIsDone(p.step))
    ensures ServerFirst(Next(server, p, m).step) ==>
              (ServerFirst(p.step) && m != ServerFinished(server)) ||
              (m == ServerFinished(server) && !ClientIsDone(p.step))
  {}

  lemma BeforeAppend(init: seq<Mark>, m: Mark, x: Mark, y: Mark)
    requires x != y && if m == x then y !in init else Before(init, x, y)
    ensures Before(init + [m], x, y)
  {
    assert forall i | 0 <= i < |init| :: (init + [m])[i] == init[i] && init[i] in init;
  }

  /** In a complete flow the client's Finished comes first in a full handshake, the server's in a resumed one. */
  lemma {:induction false} FinishedOrder(server: bool, marks: seq<Mark>)
    requires Follow(server, marks).step != Broken
    ensures ClientFirst(Follow(server, marks).step) ==>
              Before(marks, ClientFinished(server), ServerFinished(server))
    ensures ServerFirst(Follow(server, marks).step) ==>
              Before(marks, ServerFinished(server), ClientFinished(server))
  {
    hide Next, ServerIsDone, ClientIsDone, ClientHasSwitched, ServerHasSwitched;
    if marks == [] {
    } else {
      hide ClientFirst, ServerFirst, Before;
      var init, m := marks[..|marks| - 1], marks[|marks| - 1];
      assert marks == init + [m];
      NextCounts(server, Follow(server, init), m);
      FirstMove(server, Follow(server, init), m);
      FinishedOrder(server, init);
      FlowCounts(server, init);
      CountZero(init, ClientFinished(server));
      CountZero(init, ServerFinished(server));
      if ClientFirst(Follow(server, marks).step) {
        BeforeAppend(init, m, ClientFinished(server), ServerFinished(server));
      }
      if ServerFirst(Follow(server, marks).step) {
        BeforeAppend(init, m, ServerFinished(server), ClientFinished(server));
      }
    }
  }

  /** Who has finished has switched. */
  lemma DoneHasSwitched(s: Step)
    ensures (ClientIsDone(s) ==> ClientHasSwitched(s)) && (ServerIsDone(s) ==> ServerHasSwitched(s))
  {}

  /** Each side's Finished comes after its ChangeCipherSpec. */
  lemma {:induction false} SwitchedBefore(server: bool, marks: seq<Mark>)
    requires Follow(server, marks).step != Broken
    ensures Before(marks, ClientSwitch(server), ClientFinished(server))
    ensures Before(marks, ServerSwitch(server), ServerFinished(server))
  {
    hide Next, ServerIsDone, ClientIsDone, ClientHasSwitched, ServerHasSwitched;
    if marks != [] {
      hide Before;
      var init, m := marks[..|marks| - 1], marks[|marks| - 1];
      assert marks == init + [m];
      NextCounts(server, Follow(server, init), m);
      DoneHasSwitched(Follow(server, init).step);
      SwitchedBefore(server, init);
      FlowCounts(server, init);
      CountZero(init, ClientFinished(server));
      CountZero(init, ServerFinished(server));
      BeforeAppend(init, m, ClientSwitch(server), ClientFinished(server));
      BeforeAppend(init, m, ServerSwitch(server), ServerFinished(server));
    }
  }

  /** A verification takes place before either side has finished. */
  lemma NotFinishedYet(server: bool, marks: seq<Mark>, m: Mark)
    requires Follow(server, marks + [m]).step != Broken && (m == Checked || m == Signed)
    ensures ClientFinished(server) !in marks && ServerFinished(server) !in marks
  {
    hide Next, ServerIsDone, ClientIsDone, ClientHasSwitched, ServerHasSwitched, ClientFinished, ServerFinished;
    FollowAppend(server, marks, m);
    NextCounts(server, Follow(server, marks), m);
    CheckKeeps(server, Follow(server, marks), m);
    FlowCounts(server, marks);
    CountZero(marks, ClientFinished(server));
    CountZero(marks, ServerFinished(server));
  }

  /** A verification of either kind comes before both sides' Finished. */
  lemma {:induction false} VerifiedBefore(server: bool, marks: seq<Mark>, check: Mark)
    requires Follow(server, marks).step != Broken && (check == Checked || check == Signed)
    ensures Before(marks, check, ClientFinished(server)) && Before(marks, check, ServerFinished(server))
  {
    if marks != [] {
      hide Next, Before, Follow;
      var init, m := marks[..|marks| - 1], marks[|marks| - 1];
      assert marks == init + [m];
      NotBrokenBefore(server, init, m);
      VerifiedBefore(server, init, check);
      if m == check {
        NotFinishedYet(server, init, m);
      }
      BeforeAppend(init, m, check, ClientFinished(server));
      BeforeAppend(init, m, check, ServerFinished(server));
    }
  }

  lemma NotBrokenBefore(server: bool, marks: seq<Mark>, m: Mark)
    requires Follow(server, marks + [m]).step != Broken
    ensures Follow(server, marks).step != Broken
  {
    hide Next;
    FollowAppend(server, marks, m);
    if Follow(server, marks).step.Broken? {
      BrokenStays(server, Follow(server, marks), m);
    }
  }

  /** Once a side has switched its ChangeCipherSpec is in the flow. */
  lemma SwitchMarked(server: bool, marks: seq<Mark>)
    requires Follow(server, marks).step != Broken
    ensures ClientHasSwitched(Follow(server, marks).step) ==> ClientSwitch(server) in marks
    ensures ServerHasSwitched(Follow(server, marks).step) ==> ServerSwitch(server) in marks
  {
    FlowCounts(server, marks);
    CountZero(marks, ClientSwitch(server));
    CountZero(marks, ServerSwitch(server));
  }

  function CertificateDemand(server: bool): Mark {
    if server then Sent(CertificateRequest) else Consumed(CertificateRequest)
  }

  function ClientProof(server: bool): Mark {
    if server then Consumed(CertificateVerify) else Sent(CertificateVerify)
  }

  function ServerCertificate(server: bool): Mark {
    if server then Sent(Certificate) else Consumed(Certificate)
  }

  function ClientCertificate(server: bool): Mark {
    if server then Consumed(Certificate) else Sent(Certificate)
  }

  lemma NextFlags(server: bool, p: Phase, m: Mark)
    requires Next(server, p, m).step != Broken
    ensures var q := Next(server, p, m);
            && !p.step.Broken?
            && q.checked == (p.checked || m == Checked) && q.signed == (p.signed || m == Signed)
            && q.serverCertificate == (p.serverCertificate || m == ServerCertificate(server))
            && q.requested == (p.requested || m == CertificateDemand(server))
            && q.clientCertificate == (p.clientCertificate || m == ClientCertificate(server))
            && (m == ClientCertificate(server) ==> p.requested) && (m == ClientProof(server) ==> p.clientCertificate)
  {
    if p.step.Broken? {
      BrokenStays(server, p, m);
    }
    hide Move;
  }

  /** The flags of the phase say which marks there were. */
  lemma {:induction false} FlagsMean(server: bool, marks: seq<Mark>)
    requires Follow(server, marks).step != Broken
    ensures var p := Follow(server, marks);
            && (p.checked <==> Checked in marks) && (p.signed <==> Signed in marks)
            && (p.serverCertificate <==> ServerCertificate(server) in marks)
            && (p.requested <==> CertificateDemand(server) in marks)
            && (p.clientCertificate <==> ClientCertificate(server) in marks)
  {
    hide Next;
    if marks != [] {
      var init, m := marks[..|marks| - 1], marks[|marks| - 1];
      NextFlags(server, Follow(server, init), m);
      FlagsMean(server, init);
      assert marks == init + [m];
    }
  }

  /** A client sends Certificate only if it was requested, and CertificateVerify only if it sent Certificate. */
  lemma {:induction false} CertificateOnRequest(server: bool, marks: seq<Mark>)
    requires Follow(server, marks).step != Broken
    ensures ClientCertificate(server) in marks ==> CertificateDemand(server) in marks
    ensures ClientProof(server) in marks ==> ClientCertificate(server) in marks
  {
    hide Next;
    if marks != [] {
      var init, m := marks[..|marks| - 1], marks[|marks| - 1];
      NextFlags(server, Follow(server, init), m);
      FlagsMean(server, init);
      CertificateOnRequest(server, init);
      assert marks == init + [m];
    }
  }

  lemma FollowAppend(server: bool, marks: seq<Mark>, m: Mark)
    ensures Follow(server, marks + [m]) == Next(server, Follow(server, marks), m)
  {
    assert (marks + [m])[..|marks|] == marks;
  }
}
