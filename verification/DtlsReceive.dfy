/** Receiving handshake messages over DTLS: a ring of partially reassembled messages, filled by fragments in any
    order and emptied in sequence order (section 4.2.6 of RFC 6347). */
module DtlsReceive {
  import opened Bytes
  import opened RecordTypes
  import opened DtlsWire
  import opened DtlsFragment

  /** SSL_MAX_HANDSHAKE_FLIGHT */
  const FLIGHT: nat := 7

  datatype Alert = DecodeError | IllegalParameter | UnexpectedMessage | InternalError

  /** The ring as a value: the messages under reassembly, the number of the next message to deliver, and whether
      that message has been looked at already. */
  datatype Ring = Ring(slots: seq<Option<Partial>>, readSeq: nat, hasMessage: bool)

  /** What processing some fragments does: it always leaves a ring, and may fail. */
  datatype Outcome = Outcome(ring: Ring, alert: Option<Alert>)

  /** The slot for a message number. */
  function Index(seqNum: nat): (i: nat)
    ensures i < FLIGHT
  {
    seqNum % FLIGHT
  }

  // The ring's invariant

  ghost predicate InPlace(p: Partial, i: nat, readSeq: nat) {
    && Index(p.seqNum) == i
    && readSeq <= p.seqNum < readSeq + FLIGHT
    && Header(p.msgType, p.msgLen, p.seqNum, 0, p.msgLen).Fits()
    && forall k <- p.got :: k < p.msgLen
  }

  ghost predicate ValidRing(r: Ring) {
    && |r.slots| == FLIGHT && r.readSeq < 0x1_0000
    && (forall i: nat | i < FLIGHT && r.slots[i].Some? :: InPlace(r.slots[i].value, i, r.readSeq))
    && (r.hasMessage ==> Ready(r))
  }

  /** dtls1_is_current_message_complete */
  ghost predicate Ready(r: Ring)
    requires |r.slots| == FLIGHT
  {
    var slot := r.slots[Index(r.readSeq)];
    slot.Some? && slot.value.Complete()
  }

  // One fragment

  ghost function Slotted(r: Ring, h: Header): Partial
    requires |r.slots| == FLIGHT
  {
    var slot := r.slots[Index(h.seqNum)];
    if slot.Some? then slot.value else Empty(h)
  }

  ghost function Filed(r: Ring, h: Header, body: seq<byte>): Ring
    requires |r.slots| == FLIGHT
  {
    var p := Slotted(r, h);
    r.(slots := r.slots[Index(h.seqNum) := Some(if p.Complete() then p else Stored(p, h.fragOff, body))])
  }

  ghost function ReceiveFragment(r: Ring, epoch: nat, maxLen: nat, h: Header, body: seq<byte>): Outcome
    requires |r.slots| == FLIGHT
  {
    if h.fragOff + h.fragLen > h.msgLen || h.msgLen > maxLen then Outcome(r, Some(IllegalParameter))
    else if epoch == 1 && h.seqNum != r.readSeq then Outcome(r, Some(UnexpectedMessage))
    else if h.seqNum < r.readSeq || h.seqNum > r.readSeq + FLIGHT then Outcome(r, None)
    else if h.seqNum == r.readSeq + FLIGHT then Outcome(r, Some(InternalError))
    else
      var p := Slotted(r, h);
      if p.msgType != h.msgType || p.msgLen != h.msgLen then Outcome(r, Some(IllegalParameter))
      else Outcome(Filed(r, h, body), None)
  }

  /** All the fragments of a record, up to the first one in error. */
  ghost function ReceiveRecord(r: Ring, epoch: nat, maxLen: nat, record: seq<byte>): (o: Outcome)
    requires |r.slots| == FLIGHT
    ensures |o.ring.slots| == FLIGHT
    decreases |record|
  {
    if record == [] then Outcome(r, None)
    else
      match ParseFragment(record)
      case None => Outcome(r, Some(DecodeError))
      case Some(p) =>
        var o := ReceiveFragment(r, epoch, maxLen, p.header, p.body);
        if o.alert.Some? then o else ReceiveRecord(o.ring, epoch, maxLen, p.rest)
  }

  /** What becomes of a fragment, in the order in which it is checked: one that does not lie in its message, or whose
      message is too long, is refused; in epoch 1 so is one of a message that is not the next; one of a message before
      the next or more than seven behind it is ignored, but one exactly seven behind it is an error; one that does not
      agree with its message so far is refused; and any other is filed, unless its message is complete. */
  lemma FragmentAnswered(r: Ring, epoch: nat, maxLen: nat, h: Header, body: seq<byte>)
    requires |r.slots| == 7
    ensures var o, p := ReceiveFragment(r, epoch, maxLen, h, body), r.slots[h.seqNum % 7];
            if h.fragOff + h.fragLen > h.msgLen || h.msgLen > maxLen then o == Outcome(r, Some(IllegalParameter))
            else if epoch == 1 && h.seqNum != r.readSeq then o == Outcome(r, Some(UnexpectedMessage))
            else if h.seqNum < r.readSeq || h.seqNum > r.readSeq + 7 then o == Outcome(r, None)
            else if h.seqNum == r.readSeq + 7 then o == Outcome(r, Some(InternalError))
            else if p.Some? && (p.value.msgType != h.msgType || p.value.msgLen != h.msgLen)
            then o == Outcome(r, Some(IllegalParameter))
            else
              var before := if p.Some? then p.value.got else map[];
              && o.alert == None && o.ring.readSeq == r.readSeq && o.ring.hasMessage == r.hasMessage
              && |o.ring.slots| == 7 && o.ring.slots[h.seqNum % 7].Some?
              && (forall i | 0 <= i < 7 && i != h.seqNum % 7 :: o.ring.slots[i] == r.slots[i])
              && var after := o.ring.slots[h.seqNum % 7].value;
                 && after.msgType == h.msgType && after.msgLen == h.msgLen
                 && after.seqNum == (if p.Some? then p.value.seqNum else h.seqNum)
                 && forall k: nat | k < h.msgLen ::
                      if (exists i: nat | i < h.msgLen :: i !in before) && h.fragOff <= k < h.fragOff + |body|
                      then k in after.got && after.got[k] == body[k - h.fragOff]
                      else (k in after.got <==> k in before) && (k in before ==> after.got[k] == before[k])
  {}

  // Delivery

  /** A message in the form both ends hash: as one unfragmented piece. */
  function Raw(msgType: byte, seqNum: nat, body: seq<byte>): seq<byte>
    requires Header(msgType, |body|, seqNum, 0, |body|).Fits()
  {
    Encode(Header(msgType, |body|, seqNum, 0, |body|)) + body
  }

  ghost function Delivered(r: Ring): Ring
    requires |r.slots| == FLIGHT
  {
    Ring(r.slots[Index(r.readSeq) := None], (r.readSeq + 1) % 0x1_0000, false)
  }

  // The invariant is kept

  lemma SlotOf(r: Ring, seqNum: nat)
    requires ValidRing(r) && r.readSeq <= seqNum < r.readSeq + FLIGHT
    ensures r.slots[seqNum % FLIGHT].Some? ==> r.slots[seqNum % FLIGHT].value.seqNum == seqNum
  {
    if r.slots[seqNum % FLIGHT].Some? {
      assert InPlace(r.slots[seqNum % FLIGHT].value, seqNum % FLIGHT, r.readSeq);
    }
  }

  lemma FragmentKeepsRing(r: Ring, epoch: nat, maxLen: nat, h: Header, body: seq<byte>)
    requires ValidRing(r) && h.Fits() && |body| == h.fragLen
    ensures ValidRing(ReceiveFragment(r, epoch, maxLen, h, body).ring)
  {
    if r.readSeq <= h.seqNum < r.readSeq + FLIGHT {
      SlotOf(r, h.seqNum);
      var p := Slotted(r, h);
      assert InPlace(p, Index(h.seqNum), r.readSeq) by {
        if r.slots[Index(h.seqNum)] == None {
          assert p == Empty(h);
        }
      }
    }
  }

  lemma StoreKeepsRing(r: Ring, index: nat, off: nat, body: seq<byte>)
    requires ValidRing(r) && index < FLIGHT && r.slots[index].Some?
    requires var p := r.slots[index].value; !p.Complete() && off + |body| <= p.msgLen
    ensures ValidRing(r.(slots := r.slots[index := Some(Stored(r.slots[index].value, off, body))]))
  {
    var p := Stored(r.slots[index].value, off, body);
    assert InPlace(p, index, r.readSeq);
  }

  lemma {:induction false} RecordKeepsRing(r: Ring, epoch: nat, maxLen: nat, record: seq<byte>)
    requires ValidRing(r)
    ensures ValidRing(ReceiveRecord(r, epoch, maxLen, record).ring)
    decreases |record|
  {
    if record != [] && ParseFragment(record).Some? {
      var p := ParseFragment(record).value;
      EncodeParsed(record);
      FragmentKeepsRing(r, epoch, maxLen, p.header, p.body);
      RecordKeepsRing(ReceiveFragment(r, epoch, maxLen, p.header, p.body).ring, epoch, maxLen, p.rest);
    }
  }

  /** Delivery takes the message numbered readSeq and keeps the invariant, even where the number wraps around:
      there the ring is empty afterwards. */
  lemma DeliveryKeepsRing(r: Ring)
    requires ValidRing(r) && r.hasMessage
    ensures r.slots[Index(r.readSeq)].value.seqNum == r.readSeq
    ensures ValidRing(Delivered(r))
  {
    SlotOf(r, r.readSeq);
    forall i: nat | i < FLIGHT && Delivered(r).slots[i].Some?
      ensures InPlace(Delivered(r).slots[i].value, i, Delivered(r).readSeq)
    {
      var p := r.slots[i].value;
      assert InPlace(p, i, r.readSeq);
    }
  }

  // Runs

  /** Records of any content arrive, in any epoch; in between the handshake looks for the next message and takes
      the one it has seen. */
  datatype Event = Arrive(epoch: nat, record: seq<byte>) | Look | Take

  datatype History = History(ring: Ring, taken: seq<Partial>)

  ghost function Looked(r: Ring): Ring
    requires |r.slots| == FLIGHT
  {
    if Ready(r) then r.(hasMessage := true) else r
  }

  ghost function Step(s: History, maxLen: nat, e: Event): (t: History)
    requires ValidRing(s.ring)
    ensures ValidRing(t.ring)
  {
    match e
    case Arrive(epoch, record) =>
      RecordKeepsRing(s.ring, epoch, maxLen, record);
      s.(ring := ReceiveRecord(s.ring, epoch, maxLen, record).ring)
    case Look => s.(ring := Looked(s.ring))
    case Take =>
      if s.ring.hasMessage then
        DeliveryKeepsRing(s.ring);
        History(Delivered(s.ring), s.taken + [s.ring.slots[Index(s.ring.readSeq)].value])
      else s
  }

  ghost function Run(r: Ring, maxLen: nat, events: seq<Event>): (t: History)
    requires ValidRing(r)
    ensures ValidRing(t.ring)
    decreases |events|
  {
    if events == [] then History(r, [])
    else Step(Run(r, maxLen, events[..|events| - 1]), maxLen, events[|events| - 1])
  }

  lemma RecordKeepsNumber(r: Ring, epoch: nat, maxLen: nat, record: seq<byte>)
    requires |r.slots| == FLIGHT
    ensures ReceiveRecord(r, epoch, maxLen, record).ring.readSeq == r.readSeq
    decreases |record|
  {
    if record != [] && ParseFragment(record).Some? {
      var p := ParseFragment(record).value;
      var o := ReceiveFragment(r, epoch, maxLen, p.header, p.body);
      if o.alert == None {
        RecordKeepsNumber(o.ring, epoch, maxLen, p.rest);
      }
    }
  }

  /** Whatever arrives, in any run: the messages taken are complete and numbered without a gap or a repeat. */
  lemma {:induction false} TakenInOrder(r: Ring, maxLen: nat, events: seq<Event>)
    requires ValidRing(r)
    ensures var t := Run(r, maxLen, events);
            && t.ring.readSeq == (r.readSeq + |t.taken|) % 0x1_0000
            && forall k | 0 <= k < |t.taken| ::
                 t.taken[k].Complete() && t.taken[k].seqNum == (r.readSeq + k) % 0x1_0000
  {
    if events != [] {
      TakenInOrder(r, maxLen, events[..|events| - 1]);
      var s := Run(r, maxLen, events[..|events| - 1]);
      match events[|events| - 1]
      case Arrive(epoch, record) => RecordKeepsNumber(s.ring, epoch, maxLen, record);
      case Look =>
      case Take =>
        if s.ring.hasMessage {
          DeliveryKeepsRing(s.ring);
        }
    }
  }

  // The ring in memory

  datatype OpenResult = Success | Discard | Error(alert: Alert)

  datatype Message = Message(msgType: byte, body: seq<byte>, raw: seq<byte>)

  ghost function Footprint(f: HmFragment?): set<object>
    reads f
  {
    if f == null then {}
    else if f.reassembly == null then {f, f.data}
    else {f, f.data, f.reassembly}
  }

  ghost predicate Holds(f: HmFragment?, slot: Option<Partial>)
    reads f, Footprint(f)
  {
    if f == null then slot == None else f.Valid() && slot == Some(f.Value())
  }

  class Incoming {
    const incoming: array<HmFragment?>
    var readSeq: nat
    var hasMessage: bool
    var hasChangeCipherSpec: bool
    ghost var ring: Ring
    ghost var repr: set<object>

    ghost predicate Valid()
      reads this, repr
      ensures Valid() ==> this in repr && ValidRing(ring)
    {
      && this in repr && incoming in repr && incoming.Length == FLIGHT
      && ValidRing(ring) && ring.readSeq == readSeq && ring.hasMessage == hasMessage
      && (forall i: nat | i < FLIGHT ::
            && (incoming[i] != null ==> incoming[i] in repr)
            && Footprint(incoming[i]) <= repr - {this, incoming}
            && Holds(incoming[i], ring.slots[i]))
      && Apart()
    }

    ghost predicate Apart()
      requires incoming.Length == FLIGHT
      reads incoming, set i: nat | i < FLIGHT && incoming[i] != null :: incoming[i] as object
    {
      forall i: nat, j: nat | i < j < FLIGHT :: Footprint(incoming[i]) !! Footprint(incoming[j])
    }

    constructor ()
      ensures Valid() && fresh(repr)
      ensures ring == Ring(seq(FLIGHT, i => None), 0, false) && !hasChangeCipherSpec
    {
      incoming := new HmFragment?[FLIGHT](i => null);
      readSeq, hasMessage, hasChangeCipherSpec := 0, false, false;
      ring := Ring(seq(FLIGHT, i => None), 0, false);
      new;
      repr := {this, incoming};
    }

    /** dtls1_get_incoming_message */
    method GetIncomingMessage(h: Header) returns (frag: HmFragment?, alert: Alert)
      requires Valid() && h.Fits()
      modifies repr
      ensures Valid() && fresh(repr - old(repr))
      ensures readSeq == old(readSeq) && hasMessage == old(hasMessage)
      ensures hasChangeCipherSpec == old(hasChangeCipherSpec)
      ensures if !(readSeq <= h.seqNum < readSeq + FLIGHT)
              then frag == null && alert == InternalError && ring == old(ring)
              else
                var p := Slotted(old(ring), h);
                if p.msgType != h.msgType || p.msgLen != h.msgLen
                then frag == null && alert == IllegalParameter && ring == old(ring)
                else frag != null && frag == incoming[h.seqNum % FLIGHT] &&
                     ring == old(ring).(slots := old(ring).slots[h.seqNum % FLIGHT := Some(p)])
    {
      hide HmFragment.Valid, HmFragment.Value, Apart;
      alert := InternalError;
      if h.seqNum < readSeq || h.seqNum - readSeq >= FLIGHT {
        return null, InternalError;
      }
      var index := h.seqNum % FLIGHT;
      frag := incoming[index];
      SlotOf(ring, h.seqNum);
      if frag != null {
        assert frag.seqNum == h.seqNum;
        if frag.msgType != h.msgType || frag.msgLen != h.msgLen {
          return null, IllegalParameter;
        }
        return frag, alert;
      }
      frag := new HmFragment(h);
      Insert(h, frag);
    }

    /** Puts the first fragment of a message in its empty slot. */
    method Insert(h: Header, frag: HmFragment)
      requires Valid() && h.Fits() && readSeq <= h.seqNum < readSeq + FLIGHT
      requires incoming[h.seqNum % FLIGHT] == null
      requires frag.Valid() && frag.Value() == Empty(h) && Footprint(frag) !! repr
      modifies this, incoming
      ensures Valid() && repr == old(repr) + Footprint(frag)
      ensures incoming[h.seqNum % FLIGHT] == frag
      ensures readSeq == old(readSeq) && hasMessage == old(hasMessage)
      ensures hasChangeCipherSpec == old(hasChangeCipherSpec)
      ensures ring == old(ring).(slots := old(ring).slots[h.seqNum % FLIGHT := Some(Empty(h))])
    {
      hide HmFragment.Valid, HmFragment.Value;
      incoming[h.seqNum % FLIGHT] := frag;
      ring := ring.(slots := ring.slots[h.seqNum % FLIGHT := Some(Empty(h))]);
      repr := repr + Footprint(frag);
    }

    /** Messages stay apart when one of them gives up its bitmask. */
    twostate lemma ShrinkKeepsApart(index: nat)
      requires incoming.Length == FLIGHT && index < FLIGHT && old(Apart())
      requires forall i: nat | i < FLIGHT :: incoming[i] == old(incoming[i])
      requires forall i: nat | i < FLIGHT && i != index :: Footprint(incoming[i]) == old(Footprint(incoming[i]))
      requires Footprint(incoming[index]) <= old(Footprint(incoming[index]))
      ensures Apart()
    {}

    /** Copies a fragment into a message that is not complete yet. */
    method StoreIn(index: nat, off: nat, body: seq<byte>)
      requires Valid() && index < FLIGHT && incoming[index] != null && incoming[index].reassembly != null
      requires off + |body| <= incoming[index].msgLen
      modifies this`ring, Footprint(incoming[index])
      ensures Valid()
      ensures readSeq == old(readSeq) && hasMessage == old(hasMessage)
      ensures hasChangeCipherSpec == old(hasChangeCipherSpec) && repr == old(repr)
      ensures ring == old(ring).(slots := old(ring).slots[index :=
                        Some(Stored(old(ring).slots[index].value, off, body))])
    {
      hide HmFragment.Valid, HmFragment.Value, HmFragment.ValidMask;
      var frag := incoming[index];
      frag.ReleasedIsComplete();
      StoreKeepsRing(ring, index, off, body);
      hide ValidRing, Stored, Apart;
      frag.Store(off, body);
      assert Footprint(frag) <= old(Footprint(frag));
      assert forall i: nat | i < FLIGHT && i != index :: Footprint(incoming[i]) == old(Footprint(incoming[i]));
      ShrinkKeepsApart(index);
      ring := ring.(slots := ring.slots[index := Some(Stored(ring.slots[index].value, off, body))]);
    }

    /** The body of the loop of dtls1_open_handshake. */
    method AcceptFragment(h: Header, body: seq<byte>, epoch: nat, maxLen: nat) returns (alert: Option<Alert>)
      requires Valid() && h.Fits() && |body| == h.fragLen
      modifies repr
      ensures Valid() && fresh(repr - old(repr)) && hasChangeCipherSpec == old(hasChangeCipherSpec)
      ensures Outcome(ring, alert) == ReceiveFragment(old(ring), epoch, maxLen, h, body)
    {
      hide HmFragment.Valid, HmFragment.Value, HmFragment.ValidMask, Apart, Ready, InPlace;
      if h.fragOff > h.msgLen || h.fragOff + h.fragLen > h.msgLen || h.msgLen > maxLen {
        return Some(IllegalParameter);
      }
      if epoch == 1 && h.seqNum != readSeq {
        return Some(UnexpectedMessage);
      }
      if h.seqNum < readSeq || h.seqNum > readSeq + FLIGHT {
        return None;
      }
      var frag, wrong := GetIncomingMessage(h);
      if frag == null {
        return Some(wrong);
      }
      assert frag.msgLen == h.msgLen;
      frag.ReleasedIsComplete();
      if frag.reassembly == null {
        return None;
      }
      StoreIn(h.seqNum % FLIGHT, h.fragOff, body);
      return None;
    }

    /** dtls1_open_handshake, on a record that dtls_open_record accepted. */
    method OpenHandshake(contentType: byte, record: seq<byte>, nullCipher: bool, epoch: nat, maxLen: nat)
      returns (result: OpenResult)
      requires Valid()
      modifies repr
      ensures Valid() && fresh(repr - old(repr))
      ensures contentType != HANDSHAKE ==> ring == old(ring)
      ensures contentType == APPLICATION_DATA ==>
                result == if nullCipher then Error(UnexpectedMessage) else Discard
      ensures contentType == CHANGE_CIPHER_SPEC ==>
                result == if !nullCipher then Error(UnexpectedMessage)
                          else if record != [CCS] then Error(IllegalParameter) else Success
      ensures hasChangeCipherSpec <==>
              old(hasChangeCipherSpec) || (contentType == CHANGE_CIPHER_SPEC && result == Success)
      ensures contentType == HANDSHAKE ==>
                var o := ReceiveRecord(old(ring), epoch, maxLen, record);
                ring == o.ring && result == if o.alert.Some? then Error(o.alert.value) else Success
      ensures contentType !in {HANDSHAKE, CHANGE_CIPHER_SPEC, APPLICATION_DATA} ==> result == Error(UnexpectedMessage)
    {
      hide Valid, ReceiveFragment, ParseFragment, Encode;
      if contentType == APPLICATION_DATA {
        return if nullCipher then Error(UnexpectedMessage) else Discard;
      } else if contentType == CHANGE_CIPHER_SPEC {
        if !nullCipher {
          return Error(UnexpectedMessage);
        }
        if |record| != 1 || record[0] != CCS {
          return Error(IllegalParameter);
        }
        SetChangeCipherSpec(true);
        return Success;
      } else if contentType != HANDSHAKE {
        return Error(UnexpectedMessage);
      }
      var rest := record;
      while rest != []
        invariant Valid() && fresh(repr - old(repr)) && hasChangeCipherSpec == old(hasChangeCipherSpec)
        invariant |ring.slots| == FLIGHT
        invariant ReceiveRecord(ring, epoch, maxLen, rest) == ReceiveRecord(old(ring), epoch, maxLen, record)
        decreases |rest|
      {
        var parsed := ParseFragment(rest);
        if parsed == None {
          return Error(DecodeError);
        }
        EncodeParsed(rest);
        var alert := AcceptFragment(parsed.value.header, parsed.value.body, epoch, maxLen);
        if alert.Some? {
          return Error(alert.value);
        }
        rest := parsed.value.rest;
      }
      return Success;
    }

    method SetChangeCipherSpec(flag: bool)
      requires Valid()
      modifies this`hasChangeCipherSpec
      ensures Valid() && hasChangeCipherSpec == flag
    {
      hasChangeCipherSpec := flag;
    }

    /** dtls1_get_message */
    method GetMessage() returns (message: Option<Message>)
      requires Valid()
      modifies this`hasMessage, this`ring
      ensures Valid() && ring == Looked(old(ring)) && repr == old(repr)
      ensures message.Some? <==> Ready(old(ring))
      ensures Ready(old(ring)) ==>
                var p := old(ring).slots[old(ring).readSeq % FLIGHT].value;
                p.seqNum == readSeq && message == Some(Message(p.msgType, p.Body(), Raw(p.msgType, p.seqNum, p.Body())))
    {
      var frag := incoming[readSeq % FLIGHT];
      if frag == null {
        return None;
      }
      frag.ReleasedIsComplete();
      if frag.reassembly != null {
        return None;
      }
      SlotOf(ring, readSeq);
      message := Some(Message(frag.msgType, frag.data[HEADER_LENGTH..], frag.data[..]));
      assert frag.data[..] == frag.data[..HEADER_LENGTH] + frag.data[HEADER_LENGTH..];
      hasMessage := true;
      ring := ring.(hasMessage := true);
    }

    /** dtls1_next_message */
    method NextMessage()
      requires Valid() && hasMessage
      modifies this, incoming
      ensures Valid() && ring == Delivered(old(ring)) && repr == old(repr)
      ensures hasChangeCipherSpec == old(hasChangeCipherSpec)
    {
      var index := readSeq % FLIGHT;
      assert incoming[index] != null;
      incoming[index].ReleasedIsComplete();
      assert incoming[index].reassembly == null;
      DeliveryKeepsRing(ring);
      hide HmFragment.Valid, HmFragment.Value, HmFragment.ValidMask, ValidRing, Ready;
      incoming[index] := null;
      readSeq := (readSeq + 1) % 0x1_0000;
      hasMessage := false;
      ring := Delivered(ring);
    }

    /** dtls_has_unprocessed_handshake_data */
    method HasUnprocessedData() returns (unprocessed: bool)
      requires Valid()
      ensures unprocessed <==>
              || hasChangeCipherSpec
              || exists i: nat :: i < FLIGHT && ring.slots[i].Some? && !(hasMessage && i == readSeq % FLIGHT)
    {
      if hasChangeCipherSpec {
        return true;
      }
      var current := readSeq % FLIGHT;
      for i := 0 to FLIGHT
        invariant forall j: nat | j < i && ring.slots[j].Some? :: hasMessage && j == current
      {
        assert Holds(incoming[i], ring.slots[i]);
        if hasMessage && i == current {
          continue;
        }
        if incoming[i] != null {
          return true;
        }
      }
      return false;
    }
  }
}
