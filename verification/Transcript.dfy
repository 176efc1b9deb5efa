/** Handshake messages, what a connection did with them, and the transcript it hashes. */
module Transcript {
  import opened Bytes
  import opened TlsFlow

  /** A handshake message: its type, its body and the bytes that are hashed. */
  datatype Message = Message(kind: Kind, body: seq<byte>, raw: seq<byte>)

  datatype Event = Event(mark: Mark, message: Message)

  const NOTHING := Message(OtherKind(0), [], [])

  ghost function Marks(log: seq<Event>): seq<Mark> {
    seq(|log|, i requires 0 <= i < |log| => log[i].mark)
  }

  /** The messages sent and consumed since the last reset, one after the other. */
  ghost function Hashed(log: seq<Event>): seq<byte> {
    if log == [] then []
    else
      var last := log[|log| - 1];
      var before := Hashed(log[..|log| - 1]);
      match last.mark
      case Reset => []
      case Sent(_) => before + last.message.raw
      case Consumed(_) => before + last.message.raw
      case _ => before
  }

  /** The messages consumed, in turn. */
  ghost function Taken(log: seq<Event>): seq<Message> {
    if log == [] then []
    else
      var last := log[|log| - 1];
      Taken(log[..|log| - 1]) + if last.mark.Consumed? then [last.message] else []
  }

  /** The MAC in a Finished message, from the transcript and the side that sends it. */
  type Mac = (seq<byte>, bool) -> seq<byte>

  /** Every Finished holds the MAC of the transcript just before it: that of this side when sent, that of the other
      when consumed. */
  ghost predicate FinishedCover(mac: Mac, server: bool, log: seq<Event>) {
    forall i | 0 <= i < |log| ::
      && (log[i].mark == Sent(Finished) ==> log[i].message.body == mac(Hashed(log[..i]), server))
      && (log[i].mark == Consumed(Finished) ==> log[i].message.body == mac(Hashed(log[..i]), !server))
  }

  lemma HashedAppend(log: seq<Event>, e: Event)
    ensures Hashed(log + [e]) ==
            match e.mark
            case Reset => []
            case Sent(_) => Hashed(log) + e.message.raw
            case Consumed(_) => Hashed(log) + e.message.raw
            case _ => Hashed(log)
    ensures Taken(log + [e]) == Taken(log) + if e.mark.Consumed? then [e.message] else []
    ensures Marks(log + [e]) == Marks(log) + [e.mark]
  {
    assert (log + [e])[..|log|] == log;
  }

  lemma FinishedCoverAppend(mac: Mac, server: bool, log: seq<Event>, e: Event)
    requires FinishedCover(mac, server, log)
    requires e.mark == Sent(Finished) ==> e.message.body == mac(Hashed(log), server)
    requires e.mark == Consumed(Finished) ==> e.message.body == mac(Hashed(log), !server)
    ensures FinishedCover(mac, server, log + [e])
  {
    assert (log + [e])[..|log|] == log;
    forall i | 0 <= i < |log| ensures (log + [e])[..i] == log[..i] {}
  }

  /** The log has grown by events with these marks. */
  ghost predicate Extended(before: seq<Event>, log: seq<Event>, marks: seq<Mark>) {
    && before <= log && |log| == |before| + |marks|
    && forall i | 0 <= i < |marks| :: log[|before| + i].mark == marks[i]
  }

  lemma ExtendedNone(log: seq<Event>)
    ensures Extended(log, log, [])
  {}

  lemma ExtendedAppend(before: seq<Event>, log: seq<Event>, marks: seq<Mark>, e: Event)
    requires Extended(before, log, marks)
    ensures Extended(before, log + [e], marks + [e.mark])
  {}

  // What the handshake depends on and does not decide

  /** What may fail. */
  datatype Fault =
    | NoRoom
    | Unparsable
    | Untrusted
    | BadSignature
    | Denied
    | NotSigned
    | NotComputed
    | KeysNotDerived
    | Incompatible
    | NoCertificate
    | EarlyDataLost
    | NoSession

  /** The application, its keys, the parsers and the memory. */
  class World {
    /** The last thing that failed; None as long as everything goes well. */
    ghost var fault: Option<Fault>
    /** How often a callback may still ask to be called again: any number of times, but not for ever. */
    var patience: nat

    constructor (patience: nat)
      ensures fault == None && this.patience == patience
    {
      fault, this.patience := None, patience;
    }

    /** Something that succeeds or fails. */
    method Try(f: Fault) returns (ok: bool)
      modifies this`fault
      ensures fault == if ok then old(fault) else Some(f)
    {
      ok := *;
      if !ok {
        fault := Some(f);
      }
    }

    /** Something that fails here. */
    ghost method Fail(f: Fault)
      modifies this`fault
      ensures fault == Some(f)
    {
      fault := Some(f);
    }

    /** A callback that succeeds, fails or asks to be called again. */
    method Ask(pause: Wait, f: Fault) returns (w: Wait)
      requires pause != Ok && pause != Error
      modifies this
      ensures w == Ok || w == Error || w == pause
      ensures fault == if w == Error then Some(f) else old(fault)
      ensures if w == pause then patience < old(patience) else patience == old(patience)
    {
      var later := Later();
      if later {
        return pause;
      }
      var ok := Try(f);
      return if ok then Ok else Error;
    }

    /** Whether a callback asks to be called again. */
    method Later() returns (later: bool)
      modifies this`patience
      ensures if later then patience < old(patience) else patience == old(patience)
    {
      later := *;
      later := later && patience > 0;
      if later {
        patience := patience - 1;
      }
    }
  }

  // The parts of a connection that both handshakes use

  class Connection {
    const world: World
    const server: bool
    const mac: Mac
    /** The messages received and not consumed yet. */
    var inbox: seq<Message>
    var transcript: seq<byte>
    /** Whether the read cipher was changed after the peer's ChangeCipherSpec. */
    var readKeyed: bool
    /** All messages received. */
    ghost var received: seq<Message>
    /** Which messages of the inbox came after the peer's ChangeCipherSpec, and whether the Finished consumed did. */
    ghost var protected: seq<bool>
    ghost var finishedProtected: bool
    /** What happened, and how far the flow of messages has come with it. */
    ghost var log: seq<Event>
    ghost var phase: Phase

    /** The transcript is that of the messages in the log, and the messages received are those consumed, in their
        order, and those in the inbox. */
    ghost predicate Valid()
      reads this
    {
      transcript == Hashed(log) && received == Taken(log) + inbox && Logged() && Protected()
    }

    /** After the read cipher was changed, all that is in the inbox came after the peer's ChangeCipherSpec; and so did
        the Finished that was consumed. */
    ghost predicate Protected()
      reads this
    {
      && |protected| == |inbox|
      && (readKeyed ==> ConsumedCcs in Marks(log) && forall i | 0 <= i < |protected| :: protected[i])
      && (Consumed(Finished) in Marks(log) ==> finishedProtected)
    }

    ghost predicate Logged()
      reads this
    {
      FinishedCover(mac, server, log) && phase == Follow(server, Marks(log))
    }

    /** The next message is hashed and not consumed yet. */
    ghost predicate Pending()
      reads this
    {
      && inbox != [] && transcript == Hashed(log) + inbox[0].raw && received == Taken(log) + inbox && Logged()
      && (inbox[0].kind == Finished ==> inbox[0].body == mac(Hashed(log), !server) && readKeyed) && Protected()
    }

    /** Exactly these marks were added to the log. */
    twostate predicate Added(marks: seq<Mark>)
      reads this
    {
      Extended(old(log), log, marks)
    }

    /** Nothing has happened. */
    twostate predicate Untouched()
      reads this
    {
      inbox == old(inbox) && transcript == old(transcript) && log == old(log) && phase == old(phase)
    }

    /** The transcript is that of the last message alone. */
    ghost predicate Anew()
      reads this
    {
      log != [] && transcript == log[|log| - 1].message.raw
    }

    constructor (world: World, server: bool, mac: Mac)
      ensures Valid() && this.world == world && this.server == server && this.mac == mac
      ensures inbox == [] && received == [] && log == [] && phase == START && !readKeyed
    {
      this.world, this.server, this.mac := world, server, mac;
      inbox, transcript, received, log := [], [], [], [];
      phase, readKeyed := START, false;
      protected, finishedProtected := [], false;
    }

    /** get_message */
    function GetMessage(): (m: Option<Message>)
      reads this
    {
      if inbox == [] then None else Some(inbox[0])
    }

    /** Whether the next message is there and of a kind. */
    predicate Offers(kind: Kind)
      reads this
    {
      inbox != [] && inbox[0].kind == kind
    }

    /** For the proof: notes an event. */
    ghost method Note(mark: Mark, m: Message)
      requires Logged()
      requires mark == Sent(Finished) ==> m.body == mac(Hashed(log), server)
      requires mark == Consumed(Finished) ==> m.body == mac(Hashed(log), !server)
      modifies this`log, this`phase
      ensures Logged() && log == old(log) + [Event(mark, m)] && phase == Next(server, old(phase), mark)
      ensures Hashed(log) ==
              if mark == Reset then [] else if mark.Sent? || mark.Consumed? then Hashed(old(log)) + m.raw
              else Hashed(old(log))
      ensures Taken(log) == Taken(old(log)) + if mark.Consumed? then [m] else []
      ensures Marks(log) == Marks(old(log)) + [mark]
    {
      HashedAppend(log, Event(mark, m));
      FinishedCoverAppend(mac, server, log, Event(mark, m));
      FollowAppend(server, Marks(log), mark);
      log, phase := log + [Event(mark, m)], Next(server, phase, mark);
    }

    /** ssl_verify_peer_cert. What the verifier decides is not determined here; that the certificate was verified is
        noted exactly when it was found good. */
    method VerifyPeerCert() returns (r: VerifyResult)
      requires Valid()
      modifies this`log, this`phase, world
      ensures Valid()
      ensures r.VerifyOk? ==> Added([Checked])
      ensures r.VerifyOk? ==> log == old(log) + [Event(Checked, NOTHING)] && phase == Next(server, old(phase), Checked)
      ensures !r.VerifyOk? ==> log == old(log) && phase == old(phase)
      ensures world.fault == if r.VerifyInvalid? then Some(Untrusted) else old(world.fault)
      ensures if r.VerifyRetry? then world.patience < old(world.patience) else world.patience == old(world.patience)
    {
      hide Next, Follow, FinishedCover, Hashed, Taken, Marks;
      var later := world.Later();
      if later {
        return VerifyRetry;
      }
      var good := world.Try(Untrusted);
      if !good {
        return VerifyInvalid;
      }
      Note(Checked, NOTHING);
      return VerifyOk;
    }

    /** Verifies the signature of a CertificateVerify, over the transcript so far. */
    method VerifySignature() returns (ok: bool)
      requires Valid()
      modifies this`log, this`phase, world`fault
      ensures Valid()
      ensures ok ==> log == old(log) + [Event(Signed, NOTHING)] && phase == Next(server, old(phase), Signed)
      ensures !ok ==> log == old(log) && phase == old(phase)
      ensures world.fault == if ok then old(world.fault) else Some(BadSignature)
    {
      hide Next, Follow, FinishedCover, Hashed, Taken, Marks;
      ok := world.Try(BadSignature);
      if ok {
        Note(Signed, NOTHING);
      }
    }

    /** The record layer has a ChangeCipherSpec of the peer. */
    ghost method NoteCcs()
      requires Valid()
      modifies this`log, this`phase
      ensures Valid() && log == old(log) + [Event(ConsumedCcs, NOTHING)]
      ensures phase == Next(server, old(phase), ConsumedCcs)
    {
      hide Next, Follow, FinishedCover, Hashed, Taken, Marks;
      Note(ConsumedCcs, NOTHING);
    }

    /** set_read_state, for the keys of the handshake: refused while messages are buffered that came before. Whether
        part of one is, and whether the keys can be derived, is not determined here. */
    method SetReadState() returns (ok: bool)
      requires Valid() && ConsumedCcs in Marks(log)
      modifies this`readKeyed, world`fault
      ensures Valid() && (ok ==> inbox == [] && readKeyed) && (!ok ==> readKeyed == old(readKeyed))
      ensures world.fault == if ok || inbox != [] then old(world.fault) else Some(KeysNotDerived)
    {
      if inbox != [] {
        return false;
      }
      var derived := world.Try(KeysNotDerived);
      if !derived {
        return false;
      }
      readKeyed := true;
      return true;
    }

    /** ssl_hash_message */
    method HashMessage()
      requires Valid() && inbox != []
      requires inbox[0].kind == Finished ==> inbox[0].body == mac(transcript, !server) && readKeyed
      modifies this`transcript
      ensures Pending()
    {
      transcript := transcript + inbox[0].raw;
    }

    /** next_message, after the message was hashed: this message, and no other, is consumed. */
    method NextMessage()
      requires inbox != [] && Pending()
      modifies this`inbox, this`log, this`phase, this`protected, this`finishedProtected
      ensures Valid() && inbox == old(inbox)[1..] && Added([Consumed(old(inbox)[0].kind)])
      ensures log == old(log) + [Event(Consumed(old(inbox)[0].kind), old(inbox)[0])]
      ensures phase == Next(server, old(phase), Consumed(old(inbox)[0].kind))
    {
      hide Next, Follow, FinishedCover, Hashed, Taken, Marks;
      Note(Consumed(inbox[0].kind), inbox[0]);
      finishedProtected := if inbox[0].kind == Finished then protected[0] else finishedProtected;
      inbox, protected := inbox[1..], protected[1..];
    }

    /** Hashes and consumes the next message. */
    method HashAndConsume()
      requires Valid() && inbox != [] && inbox[0].kind != Finished
      modifies this`inbox, this`transcript, this`log, this`phase, this`protected, this`finishedProtected
      ensures Valid() && inbox == old(inbox)[1..] && Added([Consumed(old(inbox)[0].kind)])
      ensures log == old(log) + [Event(Consumed(old(inbox)[0].kind), old(inbox)[0])]
      ensures phase == Next(server, old(phase), Consumed(old(inbox)[0].kind))
    {
      hide Logged, Next, Hashed, Taken;
      HashMessage();
      NextMessage();
    }

    /** Hashes, parses and consumes the next message. Whether it can be parsed, or whatever else it is checked for, is
        not determined here. */
    method HashAndParse(f: Fault) returns (parsed: bool)
      requires Valid() && inbox != [] && inbox[0].kind != Finished
      modifies this`inbox, this`transcript, this`log, this`phase, this`protected, this`finishedProtected
      modifies world`fault
      ensures world.fault == if parsed then old(world.fault) else Some(f)
      ensures parsed ==> Valid() && inbox == old(inbox)[1..]
      ensures parsed ==> log == old(log) + [Event(Consumed(old(inbox)[0].kind), old(inbox)[0])]
      ensures parsed ==> Added([Consumed(old(inbox)[0].kind)])
      ensures parsed ==> phase == Next(server, old(phase), Consumed(old(inbox)[0].kind))
    {
      hide Logged, Next, Hashed, Taken;
      HashMessage();
      parsed := world.Try(f);
      if parsed {
        NextMessage();
      }
    }

    /** init_message, finish_message and add_message: a message goes out and is hashed. What its bytes are is not
        determined here, but for the body of a Finished. */
    method AddMessage(kind: Kind, body: seq<byte>) returns (ok: bool)
      requires Valid() && (kind == Finished ==> body == mac(transcript, server))
      modifies this`transcript, this`log, this`phase, world`fault
      ensures world.fault == if ok then old(world.fault) else Some(NoRoom)
      ensures ok ==> Valid() && phase == Next(server, old(phase), Sent(kind))
      ensures ok ==>
                && |log| == |old(log)| + 1 && log[|old(log)|].message.kind == kind
                && log[|old(log)|].message.body == body
                && log == old(log) + [Event(Sent(kind), log[|old(log)|].message)]
                && Added([Sent(kind)]) && transcript == old(transcript) + log[|old(log)|].message.raw
    {
      hide Next, Follow, FinishedCover, Hashed, Taken, Marks;
      var raw: seq<byte> := *;
      var fits := world.Try(NoRoom);
      if !fits {
        return false;
      }
      transcript := transcript + raw;
      Note(Sent(kind), Message(kind, body, raw));
      return true;
    }

    /** add_change_cipher_spec */
    method AddChangeCipherSpec() returns (ok: bool)
      requires Valid()
      modifies this`log, this`phase, world`fault
      ensures world.fault == if ok then old(world.fault) else Some(NoRoom)
      ensures ok ==> Valid() && log == old(log) + [Event(SentCcs, NOTHING)] && Added([SentCcs])
      ensures ok ==> phase == Next(server, old(phase), SentCcs)
    {
      hide Next, Follow, FinishedCover, Hashed, Taken, Marks;
      var fits := world.Try(NoRoom);
      if !fits {
        return false;
      }
      Note(SentCcs, NOTHING);
      return true;
    }

    /** HelloVerifyRequest is consumed and the transcript started again. */
    method ConsumeAndReset()
      requires Valid() && inbox != [] && inbox[0].kind == HelloVerifyRequest
      modifies this`inbox, this`transcript, this`log, this`phase, this`protected
      ensures Valid() && transcript == [] && inbox == old(inbox)[1..] && received == old(received)
      ensures log == old(log) + [Event(Consumed(HelloVerifyRequest), old(inbox)[0]), Event(Reset, NOTHING)]
      ensures phase == Next(server, Next(server, old(phase), Consumed(HelloVerifyRequest)), Reset)
    {
      hide Next, Follow, FinishedCover, Hashed, Taken, Marks;
      hide Logged;
      Note(Consumed(HelloVerifyRequest), inbox[0]);
      inbox, protected, transcript := inbox[1..], protected[1..], [];
      Note(Reset, NOTHING);
    }

    /** ssl_get_finished */
    method GetFinished() returns (wait: Wait)
      requires Valid() && readKeyed
      modifies this`inbox, this`transcript, this`log, this`phase, this`protected, this`finishedProtected
      ensures wait in {Ok, Error, ReadMessage}
      ensures wait == Error ==>
                && old(inbox) != []
                && (old(inbox)[0].kind != Finished || old(inbox)[0].body != mac(old(transcript), !server))
      ensures wait == ReadMessage ==> Valid() && Untouched() && inbox == []
      ensures wait == Ok ==>
                && old(Offers(Finished)) && inbox == old(inbox)[1..] && Valid()
                && log == old(log) + [Event(Consumed(Finished), old(inbox)[0])] && Added([Consumed(Finished)])
                && old(inbox)[0].body == mac(old(transcript), !server)
                && phase == Next(server, old(phase), Consumed(Finished))
    {
      hide Next, Follow, FinishedCover, Hashed, Taken, Marks;
      var message := GetMessage();
      if message == None {
        return ReadMessage;
      }
      if message.value.kind != Finished {
        return Error;
      }
      if message.value.body != mac(transcript, !server) {
        return Error;
      }
      HashMessage();
      NextMessage();
      return Ok;
    }

    /** ssl_send_finished */
    method SendFinished() returns (ok: bool)
      requires Valid()
      modifies this`transcript, this`log, this`phase, world`fault
      ensures world.fault == if ok then old(world.fault) else Some(NoRoom)
      ensures ok ==> Valid() && phase == Next(server, old(phase), Sent(Finished))
      ensures ok ==>
                && |log| == |old(log)| + 1 && log[|old(log)|].message.body == mac(old(transcript), server)
                && log == old(log) + [Event(Sent(Finished), log[|old(log)|].message)]
    {
      var finished := mac(transcript, server);
      ok := AddMessage(Finished, finished);
    }

    /** The record layer reads: messages may come, or a record that brings nothing, or it cannot read now. */
    method Receive(answer: Option<Answer>) returns (r: Resolution, taken: bool)
      modifies this`inbox, this`received, this`protected
      ensures (r, taken) == (Resolved(ReadMessage, answer, true).0, Resolved(ReadMessage, answer, true).1)
      ensures old(Valid()) ==> Valid()
      ensures inbox == old(inbox) + if taken then Arrived([answer.value]) else []
      ensures received == old(received) + if taken then Arrived([answer.value]) else []
    {
      hide Follow, FinishedCover, Hashed, Taken, Marks;
      match answer
      case Some(Messages(messages)) =>
        assert Taken(log) + inbox + messages == Taken(log) + (inbox + messages);
        inbox, received := inbox + messages, received + messages;
        ghost var switched := ConsumedCcs in Marks(log);
        protected := protected + seq(|messages|, _ => switched);
        return Proceed, true;
      case Some(Retry) => return Again, true;
      case _ => return Return(Waiting), false;
    }

    /** What the TLS 1.3 handshake leaves is not determined here. */
    method RunTls13()
      modifies this`inbox, this`transcript
    {
      inbox, transcript := *, *;
    }
  }

  datatype VerifyResult = VerifyOk | VerifyInvalid | VerifyRetry

  /** What a handshake waits for. */
  datatype Wait =
    | Ok
    | Error
    | ReadMessage
    | ReadServerHello
    | ReadChangeCipherSpec
    | Flush
    | EarlyReturn
    | Handoff
    | CertificateSelection
    | X509Lookup
    | ChannelIdLookup
    | PrivateKeyOperation
    | PendingSession
    | PendingTicket
    | CertificateVerifyPending
    | EndOfEarlyData
    | EarlyDataRejected

  /** What the record layer and the application answer: a flight flushed, messages, a ChangeCipherSpec, a record
      that brings nothing, early data read by the application, or a refusal. */
  datatype Answer = Flushed | Messages(messages: seq<Message>) | Ccs | Retry | EarlyDataRead | Refused

  /** The messages that come with answers. */
  ghost function Arrived(answers: seq<Answer>): seq<Message> {
    if answers == [] then []
    else
      var last := answers[|answers| - 1];
      Arrived(answers[..|answers| - 1]) + if last.Messages? then last.messages else []
  }

  lemma NoneArrived(answers: seq<Answer>)
    ensures Arrived(answers[..0]) == []
  {}

  lemma OneMoreArrived(answers: seq<Answer>, n: nat)
    requires n < |answers|
    ensures Arrived(answers[..n + 1]) == Arrived(answers[..n]) + Arrived([answers[n]])
  {
    assert answers[..n + 1][..n] == answers[..n];
    assert [answers[n]][..0] == [];
  }

  datatype RunResult = HandshakeDone | Early | Waiting | Failed

  /** What follows from an answer: the handshake goes on, one more answer is needed, or the call returns. */
  datatype Resolution = Proceed | Again | Return(result: RunResult)

  // The switch at the head of ssl_run_handshake

  /** What follows from an answer to a wait, whether the answer is taken, and what is waited for then. Over DTLS records
      may come before a ChangeCipherSpec. */
  function Resolved(wait: Wait, answer: Option<Answer>, dtls: bool): (Resolution, bool, Wait) {
    match wait
    case Error => (Return(Failed), false, Error)
    case Ok => (Proceed, false, Ok)
    case Flush => if answer == Some(Flushed) then (Proceed, true, Flush) else (Return(Waiting), false, Flush)
    case ReadMessage | ReadServerHello =>
      if answer.Some? && answer.value.Messages? then (Proceed, true, wait)
      else if answer == Some(Retry) then (Again, true, wait)
      else (Return(Waiting), false, wait)
    case ReadChangeCipherSpec =>
      if answer == Some(Ccs) then (Proceed, true, Ok)
      else if dtls && answer.Some? && (answer.value.Messages? || answer.value.Retry?) then (Again, true, wait)
      else (Return(Waiting), false, wait)
    case EndOfEarlyData =>
      if answer == Some(EarlyDataRead) then (Proceed, true, Ok) else (Return(Early), false, wait)
    case EarlyDataRejected => (Return(Waiting), false, wait)
    case EarlyReturn => (Return(Early), false, Ok)
    case _ => (Return(Waiting), false, Ok)
  }

  predicate Reads(w: Wait) {
    w == ReadMessage || w == ReadServerHello
  }

  /** Waits with which a call of ssl_run_handshake returns. */
  predicate Stopped(w: Wait) {
    w == Ok || w == Flush || Reads(w) || w == ReadChangeCipherSpec
  }

  /** Whether an answer is what a wait needs. */
  predicate Answers(wait: Wait, answer: Option<Answer>) {
    match wait
    case Ok => answer == None
    case Flush => answer == Some(Flushed)
    case ReadMessage | ReadServerHello => answer.Some? && answer.value.Messages? && |answer.value.messages| == 1
    case ReadChangeCipherSpec => answer == Some(Ccs)
    case _ => false
  }

  lemma ResolvedMeans(wait: Wait, answer: Option<Answer>, dtls: bool)
    ensures var (r, taken, next) := Resolved(wait, answer, dtls);
            && (next == Error <==> wait == Error)
            && (wait == Error ==> r == Return(Failed)) && (wait == Ok ==> r == Proceed)
            && (r == Proceed ==> taken || wait == Ok) && (r == Again ==> taken) && (taken ==> answer.Some?)
            && (r.Return? ==> !taken && r.result != HandshakeDone && (r.result == Failed <==> wait == Error))
  {}

  /** What a wait needs lets the handshake proceed. */
  lemma AnswerProceeds(wait: Wait, answer: Option<Answer>, dtls: bool)
    requires Answers(wait, answer)
    ensures Resolved(wait, answer, dtls).0 == Proceed && Resolved(wait, answer, dtls).1 == answer.Some?
    ensures Reads(wait) ==> Resolved(wait, answer, dtls).2 == wait
    ensures Reads(wait) ==> answer.Some? && answer.value.Messages? && |answer.value.messages| == 1
    ensures Arrived(if answer.Some? then [answer.value] else []) == if Reads(wait) then answer.value.messages else []
  {
    if answer.Some? {
      assert [answer.value][..0] == [];
    }
  }

  /** Without an answer the handshake does not go on from a wait, and callbacks are called again at the next call. */
  lemma NoAnswerReturns(wait: Wait, dtls: bool)
    requires wait != Ok && wait != Error
    ensures Resolved(wait, None, dtls).0.Return? && !Resolved(wait, None, dtls).1
    ensures Resolved(wait, None, dtls).0.result != HandshakeDone && Resolved(wait, None, dtls).0.result != Failed
    ensures Resolved(wait, None, dtls).0.result ==
            if wait == EarlyReturn || wait == EndOfEarlyData then Early else Waiting
    ensures wait == EndOfEarlyData || wait == EarlyDataRejected ==> Resolved(wait, None, dtls).2 == wait
    ensures wait != EndOfEarlyData && wait != EarlyDataRejected ==>
              Resolved(wait, None, dtls).2 == if Stopped(wait) then wait else Ok
  {}

  function Stage(w: Wait): nat {
    if Reads(w) then 0 else 1
  }
}
