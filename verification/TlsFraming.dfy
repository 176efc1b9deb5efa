/** Handshake messages over TLS: cut into records, collected from records of any size, and sent as a flight
    (sections 6.2.1 and 7.4 of RFC 5246). */
module TlsFraming {
  import opened Bytes
  import opened DtlsWire
  import opened RecordTypes

  const HEADER: nat := 4

  // The framing of a stream

  /** What the front of a stream holds: a whole message, or too little; then the number of bytes needed to go on. */
  datatype Front = Whole(msgType: byte, body: seq<byte>, raw: seq<byte>) | Needs(bytes: nat)

  /** parse_message */
  function ParseFront(b: seq<byte>): Front {
    if |b| < HEADER then Needs(HEADER)
    else
      var length := GetU24(b[1..4]);
      if |b| - HEADER < length then Needs(HEADER + length)
      else Whole(b[0], b[HEADER..HEADER + length], b[..HEADER + length])
  }

  /** A message as it goes into the stream. */
  function Framed(msgType: byte, body: seq<byte>): seq<byte>
    requires |body| < 0x100_0000
  {
    [msgType] + PutU24(|body|) + body
  }

  ghost predicate IsMessage(raw: seq<byte>) {
    ParseFront(raw).Whole? && ParseFront(raw).raw == raw
  }

  ghost function Concat(parts: seq<seq<byte>>): seq<byte> {
    if parts == [] then [] else Concat(parts[..|parts| - 1]) + parts[|parts| - 1]
  }

  /** The stream is the messages one after the other and then less than a message. */
  ghost predicate IsFraming(stream: seq<byte>, messages: seq<seq<byte>>, rest: seq<byte>) {
    && stream == Concat(messages) + rest
    && (forall m <- messages :: IsMessage(m))
    && ParseFront(rest).Needs?
  }

  lemma FramedParses(msgType: byte, body: seq<byte>, rest: seq<byte>)
    requires |body| < 0x100_0000
    ensures ParseFront(Framed(msgType, body) + rest) == Whole(msgType, body, Framed(msgType, body))
  {
    var b := Framed(msgType, body) + rest;
    assert b[1..4] == PutU24(|body|);
    U24Inverse(|body|);
    assert b[HEADER..HEADER + |body|] == body;
    assert b[..HEADER + |body|] == Framed(msgType, body);
  }

  /** What parses as a message parses as the same message with more bytes after it. */
  lemma ParseExtends(raw: seq<byte>, rest: seq<byte>)
    requires IsMessage(raw)
    ensures ParseFront(raw + rest) == ParseFront(raw)
  {
    var b := raw + rest;
    assert b[1..4] == raw[1..4];
    var length := GetU24(raw[1..4]);
    assert |raw| == HEADER + length;
    assert b[..HEADER + length] == raw;
    assert b[HEADER..HEADER + length] == raw[HEADER..HEADER + length];
  }

  lemma FrontIsMessage(b: seq<byte>)
    requires ParseFront(b).Whole?
    ensures var raw := ParseFront(b).raw; IsMessage(raw) && |raw| >= HEADER && raw + b[|raw|..] == b
  {
    var raw := ParseFront(b).raw;
    assert raw[1..4] == b[1..4];
  }

  lemma {:induction false} ConcatAppend(a: seq<seq<byte>>, b: seq<seq<byte>>)
    ensures Concat(a + b) == Concat(a) + Concat(b)
  {
    if b == [] {
      assert a + b == a;
    } else {
      assert (a + b)[..|a + b| - 1] == a + b[..|b| - 1];
      ConcatAppend(a, b[..|b| - 1]);
    }
  }

  lemma ConcatFront(parts: seq<seq<byte>>)
    requires parts != []
    ensures Concat(parts) == parts[0] + Concat(parts[1..])
  {
    assert parts == [parts[0]] + parts[1..];
    ConcatAppend([parts[0]], parts[1..]);
    assert Concat([parts[0]]) == parts[0] by {
      var none: seq<seq<byte>> := [];
      assert [parts[0]][..0] == none;
    }
  }

  /** A stream has one framing. */
  lemma {:induction false} FramingUnique(stream: seq<byte>, a: seq<seq<byte>>, restA: seq<byte>,
                                         b: seq<seq<byte>>, restB: seq<byte>)
    requires IsFraming(stream, a, restA) && IsFraming(stream, b, restB)
    ensures a == b && restA == restB
    decreases |a|
  {
    if a == [] {
      assert stream == restA;
      if b != [] {
        FirstParses(stream, b, restB);
      } else {
        assert stream == restB;
      }
    } else if b == [] {
      assert stream == restB;
      FirstParses(stream, a, restA);
    } else {
      FirstParses(stream, a, restA);
      FirstParses(stream, b, restB);
      var tail := stream[|a[0]|..];
      assert forall m <- a[1..] :: m in a;
      assert forall m <- b[1..] :: m in b;
      FramingUnique(tail, a[1..], restA, b[1..], restB);
      assert a == [a[0]] + a[1..] && b == [b[0]] + b[1..];
    }
  }

  lemma FirstParses(stream: seq<byte>, messages: seq<seq<byte>>, rest: seq<byte>)
    requires IsFraming(stream, messages, rest) && messages != []
    ensures ParseFront(stream).Whole? && ParseFront(stream).raw == messages[0]
    ensures |messages[0]| <= |stream| && stream[|messages[0]|..] == Concat(messages[1..]) + rest
  {
    ConcatFront(messages);
    assert messages[0] in messages;
    var after := Concat(messages[1..]) + rest;
    assert stream == messages[0] + after;
    ParseExtends(messages[0], after);
  }

  // The receiving side

  datatype Appended = Accepted | MessagePending | TooLong

  class HandshakeBuffer {
    /** hs_buf; null until the first record and after the last message. */
    var buffer: Option<seq<byte>>
    var hasMessage: bool
    /** The bytes of all the records accepted, and the messages consumed. */
    ghost var stream: seq<byte>
    ghost var taken: seq<seq<byte>>

    ghost function Held(): seq<byte>
      reads this
    {
      if buffer.Some? then buffer.value else []
    }

    /** The messages consumed are the front of the framing of the stream; the buffer holds the rest of it. */
    ghost predicate Valid()
      reads this
    {
      && stream == Concat(taken) + Held()
      && (forall m <- taken :: IsMessage(m))
      && (hasMessage ==> ParseFront(Held()).Whole?)
    }

    constructor ()
      ensures Valid() && stream == [] && taken == []
    {
      buffer, hasMessage := None, false;
      stream, taken := [], [];
    }

    /** tls_can_accept_handshake_data, and the end of ssl3_open_handshake: takes the body of a handshake record, unless
        a message waits to be consumed or the one to come is too long. */
    method Append(body: seq<byte>, maxLen: nat) returns (result: Appended)
      requires Valid()
      modifies this`buffer, this`stream
      ensures Valid()
      ensures result == MessagePending <==> ParseFront(old(Held())).Whole?
      ensures result == TooLong <==> var f := ParseFront(old(Held())); f.Needs? && f.bytes > HEADER + maxLen
      ensures stream == if result == Accepted then old(stream) + body else old(stream)
      ensures result == Accepted ==> Held() == old(Held()) + body
    {
      if buffer == None {
        buffer := Some([]);
      }
      var front := ParseFront(buffer.value);
      if front.Whole? {
        return MessagePending;
      }
      if front.bytes > HEADER + maxLen {
        return TooLong;
      }
      buffer := Some(buffer.value + body);
      stream := stream + body;
      return Accepted;
    }

    /** ssl3_get_message */
    method GetMessage() returns (front: Front)
      requires Valid()
      modifies this`hasMessage
      ensures Valid() && front == ParseFront(Held())
      ensures hasMessage == (old(hasMessage) || front.Whole?)
    {
      front := if buffer.Some? then ParseFront(buffer.value) else Needs(HEADER);
      if front.Whole? {
        hasMessage := true;
      }
    }

    /** ssl3_next_message. After the handshake an empty buffer is released. */
    method NextMessage(inHandshake: bool)
      requires Valid() && ParseFront(Held()).Whole?
      modifies this
      ensures Valid() && stream == old(stream) && !hasMessage
      ensures taken == old(taken) + [ParseFront(old(Held())).raw]
      ensures Held() == old(Held())[|ParseFront(old(Held())).raw|..]
    {
      var raw := ParseFront(buffer.value).raw;
      FrontIsMessage(buffer.value);
      assert (taken + [raw])[..|taken|] == taken;
      buffer := Some(buffer.value[|raw|..]);
      hasMessage := false;
      taken := taken + [raw];
      if !inHandshake && buffer.value == [] {
        buffer := None;
      }
    }

    /** tls_has_unprocessed_handshake_data: whether there is anything besides the message being looked at. */
    method HasUnprocessed() returns (unprocessed: bool)
      requires Valid()
      ensures unprocessed <==> if hasMessage then Held() != ParseFront(Held()).raw else Held() != []
    {
      if buffer == None {
        return false;
      }
      var current := 0;
      if hasMessage {
        FrontIsMessage(buffer.value);
        current := |ParseFront(buffer.value).raw|;
      }
      return |buffer.value| > current;
    }

    /** However the stream was cut into records, and whenever messages were asked for and consumed in between: once no
        whole message is left in the buffer, the messages consumed are those of the one framing of the stream. */
    lemma TakesTheFraming(messages: seq<seq<byte>>, rest: seq<byte>)
      requires Valid() && IsFraming(stream, messages, rest)
      ensures taken <= messages
      ensures ParseFront(Held()).Needs? ==> taken == messages && Held() == rest
    {
      TakenIsFront(stream, taken, Held(), messages, rest);
    }

    /** From one side to the other: as long as the bytes received are the front of the stream that carries a flight,
        the messages taken are the first of the flight, and they are all of it once all bytes are there and no whole
        message is left. */
    lemma TakesTheFlight(sent: seq<byte>, flight: seq<Plain>, most: nat, cuts: seq<seq<seq<byte>>>)
      requires Valid() && Carries(sent, flight, most, cuts) && stream <= sent
      ensures taken <= FramedAll(flight)
      ensures stream == sent && ParseFront(Held()).Needs? ==> taken == FramedAll(flight) && Held() == []
      ensures forall i | 0 <= i < |taken| ::
                ParseFront(taken[i]) == Whole(flight[i].msgType, flight[i].body, taken[i])
    {
      FlightCarried(sent, flight, most, cuts);
      var ahead := sent[|stream|..];
      hide Carries, IsFraming, ParseFront, IsMessage, Concat;
      assert sent == Concat(taken) + (Held() + ahead);
      TakenIsFront(sent, taken, Held() + ahead, FramedAll(flight), []);
      if stream == sent {
        assert Held() + ahead == Held();
      }
    }
  }

  /** Messages taken off a stream are the front of its framing. */
  lemma TakenIsFront(stream: seq<byte>, taken: seq<seq<byte>>, held: seq<byte>, messages: seq<seq<byte>>,
                     rest: seq<byte>)
    requires stream == Concat(taken) + held && (forall m <- taken :: IsMessage(m))
    requires IsFraming(stream, messages, rest)
    ensures taken <= messages
    ensures ParseFront(held).Needs? ==> taken == messages && held == rest
  {
    hide ParseFront, Concat, IsMessage;
    var more, end := Frame(held);
    assert IsFraming(stream, taken + more, end) by {
      ConcatAppend(taken, more);
      assert Concat(taken) + (Concat(more) + end) == Concat(taken) + Concat(more) + end;
    }
    FramingUnique(stream, taken + more, end, messages, rest);
  }

  /** Every stream has a framing. */
  lemma {:induction false} Frame(stream: seq<byte>) returns (messages: seq<seq<byte>>, rest: seq<byte>)
    ensures IsFraming(stream, messages, rest)
    ensures ParseFront(stream).Needs? ==> messages == [] && rest == stream
    decreases |stream|
  {
    if ParseFront(stream).Needs? {
      messages, rest := [], stream;
    } else {
      FrontIsMessage(stream);
      var raw := ParseFront(stream).raw;
      var more, end := Frame(stream[|raw|..]);
      messages, rest := [raw] + more, end;
      ConcatFront(messages);
      assert messages[1..] == more;
    }
  }

  // The sending side

  /** The pieces into which a message is cut: all of the greatest length but the last, which is empty only when the
      message is. */
  ghost predicate IsCut(message: seq<byte>, most: nat, parts: seq<seq<byte>>) {
    && parts != [] && Concat(parts) == message
    && (forall i | 0 <= i < |parts| - 1 :: |parts[i]| == most)
    && |parts[|parts| - 1]| <= most && (parts[|parts| - 1] == [] ==> message == [])
  }

  /** ssl3_init_message and ssl3_finish_message: the length stays open while the body is written, and is filled in when
      the message is finished; a body that does not fit in 24 bits is refused. */
  method BuildMessage(msgType: byte, body: seq<byte>) returns (message: Option<seq<byte>>)
    ensures message.Some? <==> |body| < 0x100_0000
    ensures message.Some? ==> message.value == Framed(msgType, body) && IsMessage(message.value)
    ensures message.Some? ==> ParseFront(message.value) == Whole(msgType, body, message.value)
    ensures message.Some? ==>
              message.value == [msgType, |body| / 0x1_0000, |body| / 0x100 % 0x100, |body| % 0x100] + body
  {
    var data := [msgType] + [0, 0, 0];
    data := data + body;
    if |body| >= 0x100_0000 {
      return None;
    }
    data := data[..1] + PutU24(|data| - HEADER) + data[HEADER..];
    assert data == Framed(msgType, body);
    FramedParses(msgType, body, []);
    PutBytes(|body|);
    assert data + [] == data;
    return Some(data);
  }

  datatype Record = Record(content: byte, payload: seq<byte>)

  /** The payloads of a list of records. */
  ghost function Payloads(records: seq<Record>): seq<seq<byte>> {
    seq(|records|, i requires 0 <= i < |records| => records[i].payload)
  }

  /** As IsCut, before the last piece: rest is still to be cut. */
  ghost predicate IsCutting(message: seq<byte>, most: nat, parts: seq<seq<byte>>, rest: seq<byte>) {
    && Concat(parts) + rest == message
    && (forall i | 0 <= i < |parts| :: |parts[i]| == most)
    && (parts == [] || rest != [])
  }

  lemma CutStep(message: seq<byte>, most: nat, parts: seq<seq<byte>>, rest: seq<byte>, chunk: seq<byte>)
    requires most > 0 && IsCutting(message, most, parts, rest)
    requires chunk == if |rest| <= most then rest else rest[..most]
    ensures if |rest| <= most then IsCut(message, most, parts + [chunk])
            else IsCutting(message, most, parts + [chunk], rest[most..])
  {
    assert (parts + [chunk])[..|parts|] == parts;
    if |rest| > most {
      assert rest == chunk + rest[most..];
    }
  }

  lemma NothingCut(message: seq<byte>, most: nat)
    ensures IsCutting(message, most, Payloads([]), message)
  {
    assert [] + message == message;
  }

  lemma PayloadsAppend(records: seq<Record>, r: Record)
    ensures Payloads(records + [r]) == Payloads(records) + [r.payload]
  {}

  class FlightBuffer {
    /** pending_flight, the bytes of the sealed records, and how many of them were written. */
    var pending: Option<seq<byte>>
    var offset: nat
    /** The messages hashed. */
    var transcript: seq<byte>
    /** The records put into the flight, all the bytes they were sealed to, and the bytes the BIO took. */
    ghost var records: seq<Record>
    ghost var queued: seq<byte>
    ghost var wire: seq<byte>
    /** Whether a record could not be sealed or stored, or the BIO has refused bytes or to flush. */
    ghost var refused: bool

    ghost predicate Valid()
      reads this
    {
      if pending == None then offset == 0 && wire == queued
      else offset <= |pending.value| && wire + pending.value[offset..] == queued
    }

    constructor ()
      ensures Valid() && records == [] && queued == [] && wire == [] && transcript == [] && !refused
    {
      pending, offset, transcript := None, 0, [];
      records, queued, wire, refused := [], [], [], false;
    }

    /** add_record_to_flight. To which bytes the record is sealed is not determined here. */
    method AddRecord(content: byte, payload: seq<byte>) returns (ok: bool)
      requires Valid() && (pending.Some? ==> offset == 0)
      modifies this`pending, this`records, this`queued, this`refused
      ensures Valid() && refused == (old(refused) || !ok)
      ensures records == if ok then old(records) + [Record(content, payload)] else old(records)
      ensures ok ==> pending.Some? && old(queued) <= queued
      ensures !ok ==> queued == old(queued) && pending == old(pending)
    {
      var sealed: seq<byte>, fits: bool := *, *;
      if !fits {
        refused := true;
        return false;
      }
      pending := Some((if pending.Some? then pending.value else []) + sealed);
      queued := queued + sealed;
      records := records + [Record(content, payload)];
      return true;
    }

    /** ssl3_add_message */
    method AddMessage(message: seq<byte>, maxSendFragment: nat, hashing: bool)
      returns (ok: bool, ghost added: seq<Record>)
      requires Valid() && (pending.Some? ==> offset == 0) && maxSendFragment > 0
      modifies this`pending, this`records, this`queued, this`transcript, this`refused
      ensures refused == (old(refused) || !ok)
      ensures Valid() && old(records) <= records
      ensures ok ==>
                && records == old(records) + added && (forall r <- added :: r.content == HANDSHAKE)
                && IsCut(message, maxSendFragment, Payloads(added))
                && transcript == if hashing then old(transcript) + message else old(transcript)
    {
      hide Payloads, IsCut, IsCutting, Concat;
      var rest := message;
      ok, added := true, [];
      NothingCut(message, maxSendFragment);
      while true
        invariant refused == old(refused)
        invariant Valid() && (pending.Some? ==> offset == 0) && transcript == old(transcript)
        invariant records == old(records) + added && forall r <- added :: r.content == HANDSHAKE
        invariant IsCutting(message, maxSendFragment, Payloads(added), rest)
        decreases |rest|
      {
        var chunk := if |rest| <= maxSendFragment then rest else rest[..maxSendFragment];
        CutStep(message, maxSendFragment, Payloads(added), rest, chunk);
        PayloadsAppend(added, Record(HANDSHAKE, chunk));
        rest := rest[|chunk|..];
        ok := AddRecord(HANDSHAKE, chunk);
        if !ok {
          return;
        }
        added := added + [Record(HANDSHAKE, chunk)];
        if rest == [] {
          break;
        }
      }
      if hashing {
        transcript := transcript + message;
      }
    }

    /** ssl3_flush_flight. The BIO may take some of the bytes and then refuse; a later call goes on from there. */
    method FlushFlight(shutDown: bool) returns (ok: bool)
      requires Valid()
      modifies this`pending, this`offset, this`wire, this`refused
      ensures refused == (old(refused) || (!ok && !shutDown))
      ensures old(pending).Some? && shutDown ==> !ok
      ensures old(pending) == None ==> ok
      ensures Valid() && old(wire) <= wire
      ensures ok ==> wire == queued && pending == None
      ensures !ok && shutDown ==> wire == old(wire) && pending == old(pending)
    {
      if pending == None {
        return true;
      }
      if shutDown {
        return false;
      }
      while offset < |pending.value|
        invariant refused == old(refused)
        invariant pending.Some? && pending == old(pending) && Valid() && old(wire) <= wire
        decreases |pending.value| - offset
      {
        var taken: int := *;
        if taken <= 0 || taken > |pending.value| - offset {
          refused := true;
          return false;
        }
        wire := wire + pending.value[offset..offset + taken];
        offset := offset + taken;
      }
      var flushed: bool := *;
      if !flushed {
        refused := true;
        return false;
      }
      pending, offset := None, 0;
      return true;
    }
  }

  // From one side to the other

  ghost function Flatten(cuts: seq<seq<seq<byte>>>): seq<seq<byte>> {
    if cuts == [] then [] else Flatten(cuts[..|cuts| - 1]) + cuts[|cuts| - 1]
  }

  /** The records of the messages of a flight, put together, are a stream whose framing is those messages. */
  lemma {:induction false} CutsCarryMessages(messages: seq<seq<byte>>, most: nat, cuts: seq<seq<seq<byte>>>)
    requires |cuts| == |messages| && (forall m <- messages :: IsMessage(m))
    requires forall i | 0 <= i < |cuts| :: IsCut(messages[i], most, cuts[i])
    ensures IsFraming(Concat(Flatten(cuts)), messages, [])
  {
    if cuts == [] {
      assert Concat(messages) + [] == [];
    } else {
      hide ParseFront, IsMessage, IsCut;
      var n := |cuts| - 1;
      var stream, before := Concat(Flatten(cuts)), Concat(Flatten(cuts[..n]));
      assert forall m <- messages[..n] :: m in messages;
      CutsCarryMessages(messages[..n], most, cuts[..n]);
      assert before == Concat(messages[..n]);
      ConcatAppend(Flatten(cuts[..n]), cuts[n]);
      CutConcat(messages[n], most, cuts[n]);
      assert stream == before + messages[n];
    }
  }

  lemma CutConcat(message: seq<byte>, most: nat, parts: seq<seq<byte>>)
    requires IsCut(message, most, parts)
    ensures Concat(parts) == message
  {}

  datatype Plain = Plain(msgType: byte, body: seq<byte>)

  ghost function FramedAll(flight: seq<Plain>): seq<seq<byte>>
    requires forall m <- flight :: |m.body| < 0x100_0000
  {
    seq(|flight|, i requires 0 <= i < |flight| => Framed(flight[i].msgType, flight[i].body))
  }

  /** The stream carries a flight, cut into records. */
  ghost predicate Carries(stream: seq<byte>, flight: seq<Plain>, most: nat, cuts: seq<seq<seq<byte>>>) {
    && (forall m <- flight :: |m.body| < 0x100_0000) && |cuts| == |flight|
    && (forall i | 0 <= i < |cuts| :: IsCut(FramedAll(flight)[i], most, cuts[i]))
    && stream == Concat(Flatten(cuts))
  }

  /** The messages built for a flight are the framing of the stream that carries it, and each parses to what was
      built. */
  lemma FlightCarried(stream: seq<byte>, flight: seq<Plain>, most: nat, cuts: seq<seq<seq<byte>>>)
    requires Carries(stream, flight, most, cuts)
    ensures IsFraming(stream, FramedAll(flight), [])
    ensures forall i | 0 <= i < |flight| ::
              ParseFront(FramedAll(flight)[i]) == Whole(flight[i].msgType, flight[i].body, FramedAll(flight)[i])
  {
    var messages := FramedAll(flight);
    forall i | 0 <= i < |flight|
      ensures ParseFront(messages[i]) == Whole(flight[i].msgType, flight[i].body, messages[i])
    {
      FramedParses(flight[i].msgType, flight[i].body, []);
      assert messages[i] + [] == messages[i];
    }
    assert forall m <- messages :: IsMessage(m);
    CutsCarryMessages(messages, most, cuts);
  }
}
