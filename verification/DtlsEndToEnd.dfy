/** A flight of handshake messages from sender to receiver over a network that loses, repeats and reorders records. */
module DtlsEndToEnd {
  import opened Bytes
  import opened DtlsWire
  import opened DtlsFragment
  import opened DtlsReceive
  import DtlsFlight

  datatype Msg = Msg(msgType: byte, body: seq<byte>)

  /** A flight: at most as many messages as the ring has slots, numbered from base. */
  datatype Flight = Flight(base: nat, msgs: seq<Msg>) {
    ghost predicate Valid(maxLen: nat) {
      && |msgs| <= FLIGHT && base + |msgs| <= 0x1_0000
      && forall m <- msgs :: |m.body| <= maxLen && |m.body| < 0x100_0000
    }

    /** The messages as both ends hash them. */
    ghost function RawAt(k: nat): seq<byte>
      requires k < |msgs| && base + |msgs| <= 0x1_0000 && |msgs[k].body| < 0x100_0000
    {
      Raw(msgs[k].msgType, base + k, msgs[k].body)
    }
  }

  datatype Fragment = Fragment(header: Header, body: seq<byte>)

  /** A piece of one of the messages of the flight, of any size and from any position. */
  ghost predicate Piece(fl: Flight, f: Fragment) {
    && f.header.Fits() && |f.body| == f.header.fragLen
    && fl.base <= f.header.seqNum < fl.base + |fl.msgs|
    && var m := fl.msgs[f.header.seqNum - fl.base];
       && f.header.msgType == m.msgType && f.header.msgLen == |m.body|
       && f.header.fragOff + f.header.fragLen <= |m.body|
       && f.body == m.body[f.header.fragOff..f.header.fragOff + f.header.fragLen]
  }

  /** The fragments of a record, in order, up to the first that does not parse. */
  ghost function Fragments(record: seq<byte>): seq<Fragment>
    decreases |record|
  {
    match ParseFragment(record)
    case None => []
    case Some(p) => [Fragment(p.header, p.body)] + Fragments(p.rest)
  }

  /** The payload of a record that carries the fragments given. */
  ghost function Payload(fs: seq<Fragment>): seq<byte>
    requires forall f <- fs :: f.header.Fits()
  {
    if fs == [] then [] else Encode(fs[0].header) + fs[0].body + Payload(fs[1..])
  }

  ghost predicate FromFlight(fl: Flight, record: seq<byte>) {
    exists fs: seq<Fragment> :: (forall f <- fs :: Piece(fl, f)) && record == Payload(fs)
  }

  lemma {:induction false} FragmentsOfPayload(fs: seq<Fragment>)
    requires forall f <- fs :: f.header.Fits() && |f.body| == f.header.fragLen
    ensures Fragments(Payload(fs)) == fs
  {
    if fs != [] {
      ParseEncoded(Payload(fs), fs[0].header, fs[0].body, Payload(fs[1..]));
      FragmentsOfPayload(fs[1..]);
    }
  }

  // What has arrived

  ghost function Arrivals(events: seq<Event>): seq<Fragment> {
    if events == [] then []
    else
      var before := Arrivals(events[..|events| - 1]);
      var last := events[|events| - 1];
      if last.Arrive? then before + Fragments(last.record) else before
  }

  /** The positions of the message numbered seqNum that some fragment covers. */
  ghost function Arrived(fs: seq<Fragment>, seqNum: nat): set<nat> {
    if fs == [] then {}
    else
      var last := fs[|fs| - 1];
      var before := Arrived(fs[..|fs| - 1], seqNum);
      if last.header.seqNum == seqNum
      then before + Range(last.header.fragOff, last.header.fragOff + |last.body|)
      else before
  }

  ghost predicate Touched(fs: seq<Fragment>, seqNum: nat) {
    exists f :: f in fs && f.header.seqNum == seqNum
  }

  /** At least one fragment of message k arrived, and every byte of it did. */
  ghost predicate Whole(fl: Flight, fs: seq<Fragment>, k: nat)
    requires k < |fl.msgs|
  {
    Touched(fs, fl.base + k) && Range(0, |fl.msgs[k].body|) <= Arrived(fs, fl.base + k)
  }

  /** The number of messages at the front of the flight, from message k on, that arrived whole. */
  ghost function Leading(fl: Flight, fs: seq<Fragment>, k: nat): (n: nat)
    requires k <= |fl.msgs|
    ensures k <= n <= |fl.msgs|
    ensures forall j: nat | k <= j < n :: Whole(fl, fs, j)
    ensures n < |fl.msgs| ==> !Whole(fl, fs, n)
    decreases |fl.msgs| - k
  {
    if k < |fl.msgs| && Whole(fl, fs, k) then Leading(fl, fs, k + 1) else k
  }

  // The receiver's state, from what has arrived

  ghost function Slot(fl: Flight, fs: seq<Fragment>, k: nat): Option<Partial> {
    if k < |fl.msgs| && Touched(fs, fl.base + k) then Some(PartOf(fl, k, Arrived(fs, fl.base + k))) else None
  }

  /** Message k of the flight as far as the positions given go. */
  ghost function PartOf(fl: Flight, k: nat, arrived: set<nat>): Partial
    requires k < |fl.msgs|
  {
    var m := fl.msgs[k];
    Partial(m.msgType, fl.base + k, |m.body|, Selected(m.body, arrived))
  }

  ghost function Selected(body: seq<byte>, arrived: set<nat>): map<nat, byte> {
    map i | i in arrived && i < |body| :: body[i]
  }

  lemma SelectedAfter(body: seq<byte>, arrived: set<nat>, from: nat, to: nat)
    requires from <= to <= |body|
    ensures Selected(body, arrived + Range(from, to)) == Selected(body, arrived) + Placed(body[from..to], from)
    ensures (forall i: nat | i < |body| :: i in Selected(body, arrived)) ==>
              Selected(body, arrived + Range(from, to)) == Selected(body, arrived)
  {}

  /** The slots hold exactly what arrived of the messages not taken yet. */
  ghost predicate Mirrors(fl: Flight, fs: seq<Fragment>, ring: Ring, n: nat)
    requires |ring.slots| == FLIGHT
  {
    && n <= |fl.msgs| && ring.readSeq == (fl.base + n) % 0x1_0000
    && forall k: nat | n <= k < n + FLIGHT :: ring.slots[Index(fl.base + k)] == Slot(fl, fs, k)
  }

  lemma PieceArrives(fl: Flight, fs: seq<Fragment>, f: Fragment, k: nat)
    requires Piece(fl, f)
    ensures Touched(fs + [f], fl.base + k) <==> Touched(fs, fl.base + k) || f.header.seqNum == fl.base + k
    ensures Arrived(fs + [f], fl.base + k) ==
            if f.header.seqNum == fl.base + k
            then Arrived(fs, fl.base + k) + Range(f.header.fragOff, f.header.fragOff + |f.body|)
            else Arrived(fs, fl.base + k)
  {
    assert (fs + [f])[..|fs|] == fs;
    if Touched(fs, fl.base + k) {
      var g :| g in fs && g.header.seqNum == fl.base + k;
      assert g in fs + [f];
    }
    assert f in fs + [f];
  }

  // One fragment, one record

  lemma PartFiled(fl: Flight, k: nat, arrived: set<nat>, f: Fragment)
    requires Piece(fl, f) && f.header.seqNum == fl.base + k
    ensures var p := PartOf(fl, k, arrived);
            PartOf(fl, k, arrived + Range(f.header.fragOff, f.header.fragOff + |f.body|)) ==
            if p.Complete() then p else Stored(p, f.header.fragOff, f.body)
  {
    hide Selected, Placed, Range;
    SelectedAfter(fl.msgs[k].body, arrived, f.header.fragOff, f.header.fragOff + |f.body|);
  }

  lemma SlotFiled(fl: Flight, fs: seq<Fragment>, f: Fragment, k: nat)
    requires Piece(fl, f) && f.header.seqNum == fl.base + k
    ensures var p := PartOf(fl, k, Arrived(fs, fl.base + k));
            && (Slot(fl, fs, k) == None ==> p == Empty(f.header))
            && Slot(fl, fs + [f], k) == Some(if p.Complete() then p else Stored(p, f.header.fragOff, f.body))
  {
    hide Touched, Arrived, Stored, Partial.Complete;
    PieceArrives(fl, fs, f, k);
    PartFiled(fl, k, Arrived(fs, fl.base + k), f);
    if !Touched(fs, fl.base + k) {
      NothingArrived(fs, fl.base + k);
      assert Selected(fl.msgs[k].body, {}) == map[];
    }
  }

  lemma {:induction false} NothingArrived(fs: seq<Fragment>, seqNum: nat)
    requires !Touched(fs, seqNum)
    ensures Arrived(fs, seqNum) == {}
  {
    if fs != [] {
      var init := fs[..|fs| - 1];
      assert forall f :: f in init ==> f in fs;
      assert fs[|fs| - 1] in fs;
      NothingArrived(init, seqNum);
    }
  }

  /** Seven messages in a row have different slots. */
  lemma SlotsApart(base: nat, j: nat, k: nat)
    requires j < k < j + FLIGHT
    ensures Index(base + j) != Index(base + k)
  {}

  /** A fragment of a message not taken yet changes the slot of that message, as what has arrived changes. */
  lemma FragmentFiled(fl: Flight, fs: seq<Fragment>, ring: Ring, n: nat, f: Fragment, k: nat)
    requires |ring.slots| == FLIGHT && Mirrors(fl, fs, ring, n)
    requires Piece(fl, f) && f.header.seqNum == fl.base + k && n <= k
    requires |fl.msgs| <= FLIGHT
    ensures var p := Slotted(ring, f.header); p.msgType == f.header.msgType && p.msgLen == f.header.msgLen
    ensures Mirrors(fl, fs + [f], Filed(ring, f.header, f.body), n)
  {
    SlottedPart(fl, fs, ring, n, f, k);
    hide Filed, Slotted, Slot, Piece, PartOf, Arrived, Index;
    forall j: nat | n <= j < n + FLIGHT
      ensures Filed(ring, f.header, f.body).slots[Index(fl.base + j)] == Slot(fl, fs + [f], j)
    {
      FiledSlot(fl, fs, ring, n, f, k, j);
    }
  }

  lemma FiledSlot(fl: Flight, fs: seq<Fragment>, ring: Ring, n: nat, f: Fragment, k: nat, j: nat)
    requires |ring.slots| == FLIGHT && Mirrors(fl, fs, ring, n)
    requires Piece(fl, f) && f.header.seqNum == fl.base + k && n <= k
    requires |fl.msgs| <= FLIGHT && n <= j < n + FLIGHT
    ensures Filed(ring, f.header, f.body).slots[Index(fl.base + j)] == Slot(fl, fs + [f], j)
  {
    assert ring.slots[Index(fl.base + j)] == Slot(fl, fs, j);
    SlottedPart(fl, fs, ring, n, f, k);
    hide Mirrors, Slotted, Slot, Piece, PartOf, Arrived, Index;
    if j == k {
      SlotFiled(fl, fs, f, k);
    } else {
      SlotUntouched(fl, fs, f, j);
      SlotsApart(fl.base, if j < k then j else k, if j < k then k else j);
    }
  }

  lemma SlottedPart(fl: Flight, fs: seq<Fragment>, ring: Ring, n: nat, f: Fragment, k: nat)
    requires |ring.slots| == FLIGHT && Mirrors(fl, fs, ring, n)
    requires Piece(fl, f) && f.header.seqNum == fl.base + k && n <= k
    requires |fl.msgs| <= FLIGHT
    ensures var p := Slotted(ring, f.header);
            p == PartOf(fl, k, Arrived(fs, fl.base + k)) &&
            p.msgType == f.header.msgType && p.msgLen == f.header.msgLen
  {
    SlotFiled(fl, fs, f, k);
    hide Stored, Arrived, Partial.Complete;
    assert ring.slots[Index(fl.base + k)] == Slot(fl, fs, k);
  }

  lemma FragmentIgnored(fl: Flight, fs: seq<Fragment>, ring: Ring, n: nat, f: Fragment)
    requires |ring.slots| == FLIGHT && Mirrors(fl, fs, ring, n)
    requires Piece(fl, f) && f.header.seqNum < fl.base + n
    ensures Mirrors(fl, fs + [f], ring, n)
  {
    forall j: nat | n <= j < n + FLIGHT ensures Slot(fl, fs + [f], j) == Slot(fl, fs, j) {
      SlotUntouched(fl, fs, f, j);
    }
  }

  lemma FragmentMirrored(fl: Flight, fs: seq<Fragment>, ring: Ring, n: nat, epoch: nat, maxLen: nat, f: Fragment)
    requires fl.Valid(maxLen) && ValidRing(ring) && Mirrors(fl, fs, ring, n) && Piece(fl, f)
    ensures var o := ReceiveFragment(ring, epoch, maxLen, f.header, f.body);
            && (o.alert == None <==> epoch != 1 || f.header.seqNum == ring.readSeq)
            && (o.alert == None ==> Mirrors(fl, fs + [f], o.ring, n))
  {
    var k := f.header.seqNum - fl.base;
    assert fl.msgs[k] in fl.msgs;
    if n <= k {
      FragmentFiled(fl, fs, ring, n, f, k);
    } else {
      FragmentIgnored(fl, fs, ring, n, f);
    }
    hide Filed, Slotted, Slot;
  }

  lemma SlotUntouched(fl: Flight, fs: seq<Fragment>, f: Fragment, j: nat)
    requires Piece(fl, f) && f.header.seqNum != fl.base + j
    ensures Slot(fl, fs + [f], j) == Slot(fl, fs, j)
  {
    PieceArrives(fl, fs, f, j);
  }

  ghost predicate AllPieces(fl: Flight, fs: seq<Fragment>) {
    forall f <- fs :: Piece(fl, f)
  }

  /** In epoch 1 only fragments of the next message may come. */
  ghost predicate InTurn(epoch: nat, fs: seq<Fragment>, readSeq: nat) {
    epoch != 1 || forall f <- fs :: f.header.seqNum == readSeq
  }

  lemma RecordTurn(ring: Ring, epoch: nat, maxLen: nat, fs: seq<Fragment>)
    requires |ring.slots| == FLIGHT && fs != []
    requires forall f <- fs :: f.header.Fits() && |f.body| == f.header.fragLen
    ensures var o := ReceiveFragment(ring, epoch, maxLen, fs[0].header, fs[0].body);
            ReceiveRecord(ring, epoch, maxLen, Payload(fs)) ==
            if o.alert.Some? then o else ReceiveRecord(o.ring, epoch, maxLen, Payload(fs[1..]))
  {
    hide ParseFragment, ReceiveFragment, Encode;
    ParseEncoded(Payload(fs), fs[0].header, fs[0].body, Payload(fs[1..]));
  }

  lemma {:induction false} RecordMirrored(fl: Flight, before: seq<Fragment>, ring: Ring, n: nat,
                                          epoch: nat, maxLen: nat, fs: seq<Fragment>)
    requires fl.Valid(maxLen) && ValidRing(ring) && Mirrors(fl, before, ring, n) && AllPieces(fl, fs)
    ensures var o := ReceiveRecord(ring, epoch, maxLen, Payload(fs));
            && (o.alert == None <==> InTurn(epoch, fs, ring.readSeq))
            && (o.alert == None ==> Mirrors(fl, before + fs, o.ring, n))
    decreases |fs|
  {
    assert |ring.slots| == FLIGHT;
    hide *;
    if fs == [] {
      Regroup(before, fs);
      EmptyRecord(ring, epoch, maxLen);
    } else {
      var f, more := fs[0], fs[1..];
      FirstPiece(fl, fs);
      RecordTurn(ring, epoch, maxLen, fs);
      FragmentMirrored(fl, before, ring, n, epoch, maxLen, f);
      InTurnFirst(epoch, fs, ring.readSeq);
      var o := ReceiveFragment(ring, epoch, maxLen, f.header, f.body);
      if o.alert == None {
        FragmentKeepsNumber(ring, epoch, maxLen, f.header, f.body);
        FragmentKeepsRing(ring, epoch, maxLen, f.header, f.body);
        RecordMirrored(fl, before + [f], o.ring, n, epoch, maxLen, more);
        Regroup(before, fs);
      }
    }
  }

  lemma Regroup(before: seq<Fragment>, fs: seq<Fragment>)
    ensures before + fs == if fs == [] then before else before + [fs[0]] + fs[1..]
  {}

  lemma EmptyRecord(ring: Ring, epoch: nat, maxLen: nat)
    requires |ring.slots| == FLIGHT
    ensures ReceiveRecord(ring, epoch, maxLen, Payload([])) == Outcome(ring, None)
    ensures InTurn(epoch, [], ring.readSeq)
  {}

  lemma FragmentKeepsNumber(ring: Ring, epoch: nat, maxLen: nat, h: Header, body: seq<byte>)
    requires |ring.slots| == FLIGHT
    ensures ReceiveFragment(ring, epoch, maxLen, h, body).ring.readSeq == ring.readSeq
  {}

  lemma FirstPiece(fl: Flight, fs: seq<Fragment>)
    requires AllPieces(fl, fs) && fs != []
    ensures Piece(fl, fs[0]) && AllPieces(fl, fs[1..])
    ensures forall f <- fs :: f.header.Fits() && |f.body| == f.header.fragLen
    ensures fs[0].header.Fits() && |fs[0].body| == fs[0].header.fragLen
  {}

  lemma InTurnFirst(epoch: nat, fs: seq<Fragment>, readSeq: nat)
    requires fs != []
    ensures InTurn(epoch, fs, readSeq) <==>
            (epoch != 1 || fs[0].header.seqNum == readSeq) && InTurn(epoch, fs[1..], readSeq)
  {
    assert fs == [fs[0]] + fs[1..];
  }

  // Delivery

  ghost predicate IsMessage(fl: Flight, p: Partial, k: nat) {
    && k < |fl.msgs| && p.Complete()
    && p.msgType == fl.msgs[k].msgType && p.seqNum == fl.base + k && p.Body() == fl.msgs[k].body
  }

  lemma PartIsMessage(fl: Flight, fs: seq<Fragment>, k: nat)
    requires k < |fl.msgs|
    ensures Slot(fl, fs, k).Some? && Slot(fl, fs, k).value.Complete() <==> Whole(fl, fs, k)
    ensures Whole(fl, fs, k) ==> IsMessage(fl, Slot(fl, fs, k).value, k)
  {
    var body := fl.msgs[k].body;
    var p := PartOf(fl, k, Arrived(fs, fl.base + k));
    if Whole(fl, fs, k) {
      assert forall i: nat | i < |body| :: i in Range(0, |body|);
      assert p.Complete();
      assert p.Body() == body;
    } else if Touched(fs, fl.base + k) {
      var i :| i in Range(0, |body|) && i !in Arrived(fs, fl.base + k);
      assert i !in p.got;
    }
  }

  /** Any seven numbers in a row use every slot. */
  lemma AllSlots(base: nat, i: nat) returns (d: nat)
    requires i < FLIGHT
    ensures d < FLIGHT && Index(base + d) == i
  {
    d := (i + FLIGHT - base % FLIGHT) % FLIGHT;
  }

  lemma SlotsCycle(base: nat)
    ensures Index(base + FLIGHT) == Index(base)
  {}

  /** The receiver has a message to deliver exactly when the next one of the flight arrived whole. */
  lemma ReadyIffWhole(fl: Flight, fs: seq<Fragment>, ring: Ring, n: nat)
    requires |ring.slots| == FLIGHT && Mirrors(fl, fs, ring, n) && fl.base + |fl.msgs| <= 0x1_0000
    ensures Ready(ring) <==> n < |fl.msgs| && Whole(fl, fs, n)
    ensures Ready(ring) ==> IsMessage(fl, ring.slots[Index(ring.readSeq)].value, n)
  {
    if n < |fl.msgs| {
      PartIsMessage(fl, fs, n);
      assert ring.slots[Index(fl.base + n)] == Slot(fl, fs, n);
    } else {
      var d := AllSlots(fl.base + n, Index(ring.readSeq));
      assert ring.slots[Index(fl.base + (n + d))] == Slot(fl, fs, n + d);
    }
  }

  lemma TakeMirrored(fl: Flight, fs: seq<Fragment>, ring: Ring, n: nat)
    requires |ring.slots| == FLIGHT && Mirrors(fl, fs, ring, n) && |fl.msgs| <= FLIGHT
    requires n < |fl.msgs| && fl.base + |fl.msgs| <= 0x1_0000
    ensures Mirrors(fl, fs, Delivered(ring), n + 1)
  {
    hide Touched, Arrived, PartOf, Index;
    assert ring.readSeq == fl.base + n;
    forall k: nat | n + 1 <= k < n + 1 + FLIGHT
      ensures Delivered(ring).slots[Index(fl.base + k)] == Slot(fl, fs, k)
    {
      if k < n + FLIGHT {
        assert ring.slots[Index(fl.base + k)] == Slot(fl, fs, k);
        SlotsApart(fl.base, n, k);
      } else {
        SlotsCycle(fl.base + n);
        assert k == n + FLIGHT && Slot(fl, fs, k) == None;
      }
    }
  }

  // Whole runs

  ghost predicate Honest(fl: Flight, events: seq<Event>) {
    forall e <- events :: e.Arrive? ==> FromFlight(fl, e.record)
  }

  /** What the receiver answers to event j of a run. */
  ghost function AlertAt(r: Ring, maxLen: nat, events: seq<Event>, j: nat): Option<Alert>
    requires ValidRing(r) && j < |events|
  {
    var e := events[j];
    if e.Arrive? then ReceiveRecord(Run(r, maxLen, events[..j]).ring, e.epoch, maxLen, e.record).alert else None
  }

  /** Event j does not bring a fragment of any message but the next in epoch 1. */
  ghost predicate InTurnAt(r: Ring, maxLen: nat, events: seq<Event>, j: nat)
    requires ValidRing(r) && j < |events|
  {
    var e := events[j];
    e.Arrive? ==> InTurn(e.epoch, Fragments(e.record), Run(r, maxLen, events[..j]).ring.readSeq)
  }

  ghost predicate AllInTurn(r: Ring, maxLen: nat, events: seq<Event>)
    requires ValidRing(r)
  {
    forall j: nat | j < |events| :: InTurnAt(r, maxLen, events, j)
  }

  ghost predicate Waiting(fl: Flight, r: Ring) {
    fl.base < 0x1_0000 && r == Ring(seq(FLIGHT, i => None), fl.base, false)
  }

  ghost predicate Tracks(fl: Flight, fs: seq<Fragment>, t: History)
    requires |t.ring.slots| == FLIGHT
  {
    && Mirrors(fl, fs, t.ring, |t.taken|)
    && forall k: nat | k < |t.taken| :: IsMessage(fl, t.taken[k], k) && Whole(fl, fs, k)
  }

  lemma {:induction false} ArrivedGrows(before: seq<Fragment>, fs: seq<Fragment>, seqNum: nat)
    ensures Arrived(before, seqNum) <= Arrived(before + fs, seqNum)
  {
    if fs == [] {
      assert before + fs == before;
    } else {
      var init := fs[..|fs| - 1];
      assert (before + fs)[..|before + fs| - 1] == before + init;
      ArrivedGrows(before, init, seqNum);
    }
  }

  lemma WholeGrows(fl: Flight, before: seq<Fragment>, fs: seq<Fragment>, k: nat)
    requires k < |fl.msgs| && Whole(fl, before, k)
    ensures Whole(fl, before + fs, k)
  {
    ArrivedGrows(before, fs, fl.base + k);
    var f :| f in before && f.header.seqNum == fl.base + k;
    assert f in before + fs;
  }

  lemma EventTracked(fl: Flight, fs: seq<Fragment>, t: History, maxLen: nat, e: Event)
    requires fl.Valid(maxLen) && ValidRing(t.ring) && Tracks(fl, fs, t)
    requires e.Arrive? ==> FromFlight(fl, e.record)
    ensures e.Arrive? ==>
              (ReceiveRecord(t.ring, e.epoch, maxLen, e.record).alert == None <==>
               InTurn(e.epoch, Fragments(e.record), t.ring.readSeq))
    ensures (e.Arrive? ==> InTurn(e.epoch, Fragments(e.record), t.ring.readSeq)) ==>
              Tracks(fl, if e.Arrive? then fs + Fragments(e.record) else fs, Step(t, maxLen, e))
  {
    match e
    case Arrive(epoch, record) =>
      var pieces: seq<Fragment> :| (forall f <- pieces :: Piece(fl, f)) && record == Payload(pieces);
      FragmentsOfPayload(pieces);
      RecordMirrored(fl, fs, t.ring, |t.taken|, epoch, maxLen, pieces);
      forall k: nat | k < |t.taken| ensures Whole(fl, fs + pieces, k) {
        WholeGrows(fl, fs, pieces, k);
      }
    case Look =>
    case Take =>
      if t.ring.hasMessage {
        ReadyIffWhole(fl, fs, t.ring, |t.taken|);
        TakeMirrored(fl, fs, t.ring, |t.taken|);
      }
  }

  lemma {:induction false} RunTracks(fl: Flight, maxLen: nat, r: Ring, events: seq<Event>)
    requires fl.Valid(maxLen) && Waiting(fl, r) && ValidRing(r) && Honest(fl, events)
    requires AllInTurn(r, maxLen, events)
    ensures Tracks(fl, Arrivals(events), Run(r, maxLen, events))
  {
    if events == [] {
    } else {
      var init, last := events[..|events| - 1], events[|events| - 1];
      assert last in events && forall e <- init :: e in events;
      forall j: nat | j < |init| ensures InTurnAt(r, maxLen, init, j) {
        assert init[..j] == events[..j];
        assert InTurnAt(r, maxLen, events, j);
      }
      assert InTurnAt(r, maxLen, events, |init|);
      hide Tracks, Step, InTurnAt, FromFlight, ValidRing;
      RunTracks(fl, maxLen, r, init);
      EventTracked(fl, Arrivals(init), Run(r, maxLen, init), maxLen, last);
    }
  }

  lemma PrefixInTurn(r: Ring, maxLen: nat, events: seq<Event>, j: nat)
    requires ValidRing(r) && j <= |events|
    requires forall i: nat | i < j :: InTurnAt(r, maxLen, events, i)
    ensures AllInTurn(r, maxLen, events[..j])
  {
    forall i: nat | i < j ensures InTurnAt(r, maxLen, events[..j], i) {
      assert events[..j][..i] == events[..i];
      assert InTurnAt(r, maxLen, events, i);
    }
  }

  /** Event j is answered with an alert, after a run without one, exactly when it comes out of turn. */
  lemma AlertAtIffOutOfTurn(fl: Flight, maxLen: nat, r: Ring, events: seq<Event>, j: nat)
    requires fl.Valid(maxLen) && Waiting(fl, r) && ValidRing(r) && Honest(fl, events) && j < |events|
    requires forall i: nat | i < j :: InTurnAt(r, maxLen, events, i)
    ensures AlertAt(r, maxLen, events, j) == None <==> InTurnAt(r, maxLen, events, j)
  {
    PrefixInTurn(r, maxLen, events, j);
    assert forall e <- events[..j] :: e in events;
    RunTracks(fl, maxLen, r, events[..j]);
    EventTracked(fl, Arrivals(events[..j]), Run(r, maxLen, events[..j]), maxLen, events[j]);
  }

  /** The fragments of a flight, however they were cut, lost, repeated and reordered, are never refused, unless
      epoch 1 brings one of a message that is not the next: the receiver then answers with an alert. */
  lemma {:induction false} NeverRefused(fl: Flight, maxLen: nat, r: Ring, events: seq<Event>)
    requires fl.Valid(maxLen) && Waiting(fl, r) && ValidRing(r) && Honest(fl, events)
    ensures (forall j: nat | j < |events| :: AlertAt(r, maxLen, events, j) == None) <==> AllInTurn(r, maxLen, events)
  {
    FirstOutOfTurn(fl, maxLen, r, events, |events|);
  }

  lemma {:induction false} FirstOutOfTurn(fl: Flight, maxLen: nat, r: Ring, events: seq<Event>, n: nat)
    requires fl.Valid(maxLen) && Waiting(fl, r) && ValidRing(r) && Honest(fl, events) && n <= |events|
    ensures (forall j: nat | j < n :: AlertAt(r, maxLen, events, j) == None) <==>
            (forall j: nat | j < n :: InTurnAt(r, maxLen, events, j))
  {
    hide AlertAt, InTurnAt;
    if n > 0 {
      FirstOutOfTurn(fl, maxLen, r, events, n - 1);
      if forall j: nat | j < n - 1 :: InTurnAt(r, maxLen, events, j) {
        AlertAtIffOutOfTurn(fl, maxLen, r, events, n - 1);
      } else {
        var j: nat :| j < n - 1 && AlertAt(r, maxLen, events, j).Some?;
        var i: nat :| i < n - 1 && !InTurnAt(r, maxLen, events, i);
      }
    }
  }

  /** The handshake asks for the next message n times. */
  ghost function Asking(n: nat): seq<Event> {
    if n == 0 then [] else Asking(n - 1) + [Look, Take]
  }

  /** The messages taken, in the form that is hashed. */
  ghost function Heard(taken: seq<Partial>): seq<seq<byte>>
    requires forall p <- taken :: p.Complete() && Header(p.msgType, p.msgLen, p.seqNum, 0, p.msgLen).Fits()
  {
    if taken == [] then []
    else
      var p := taken[|taken| - 1];
      Heard(taken[..|taken| - 1]) + [Raw(p.msgType, p.seqNum, p.Body())]
  }

  /** The first n messages of the flight, in the form that the sender hashed. */
  ghost function Hashed(fl: Flight, n: nat): seq<seq<byte>>
    requires n <= |fl.msgs| && fl.base + |fl.msgs| <= 0x1_0000 && forall m <- fl.msgs :: |m.body| < 0x100_0000
  {
    if n == 0 then [] else Hashed(fl, n - 1) + [fl.RawAt(n - 1)]
  }

  lemma RawOfMessage(fl: Flight, p: Partial, k: nat)
    requires IsMessage(fl, p, k)
    requires fl.base + |fl.msgs| <= 0x1_0000 && forall m <- fl.msgs :: |m.body| < 0x100_0000
    ensures k < |fl.msgs| && p.Complete() && Header(p.msgType, p.msgLen, p.seqNum, 0, p.msgLen).Fits()
    ensures Raw(p.msgType, p.seqNum, p.Body()) == fl.RawAt(k)
  {
    assert fl.msgs[k] in fl.msgs;
    assert p.msgLen == |p.Body()|;
  }

  lemma {:induction false} HeardIsHashed(fl: Flight, taken: seq<Partial>)
    requires fl.base + |fl.msgs| <= 0x1_0000 && forall m <- fl.msgs :: |m.body| < 0x100_0000
    requires forall k: nat | k < |taken| :: IsMessage(fl, taken[k], k)
    ensures |taken| <= |fl.msgs|
    ensures forall p <- taken :: p.Complete() && Header(p.msgType, p.msgLen, p.seqNum, 0, p.msgLen).Fits()
    ensures Heard(taken) == Hashed(fl, |taken|)
  {
    hide IsMessage, Partial.Complete, Raw, Flight.RawAt, Header.Fits;
    if taken != [] {
      var init, n := taken[..|taken| - 1], |taken| - 1;
      HeardIsHashed(fl, init);
      RawOfMessage(fl, taken[n], n);
      assert taken == init + [taken[n]];
    }
  }

  /** Asking n times takes what is whole at the front, up to n messages. */
  lemma {:induction false} AskingTakes(fl: Flight, maxLen: nat, r: Ring, events: seq<Event>, n: nat)
    requires fl.Valid(maxLen) && ValidRing(r) && Tracks(fl, Arrivals(events), Run(r, maxLen, events))
    ensures Arrivals(events + Asking(n)) == Arrivals(events)
    ensures var t, was := Run(r, maxLen, events + Asking(n)), |Run(r, maxLen, events).taken|;
            && Tracks(fl, Arrivals(events), t)
            && (|t.taken| < |fl.msgs| && Whole(fl, Arrivals(events), |t.taken|) ==> |t.taken| >= was + n)
  {
    hide Tracks, Whole, Step, Run;
    if n == 0 {
      assert events + Asking(0) == events;
    } else {
      AskingTakes(fl, maxLen, r, events, n - 1);
      var before := events + Asking(n - 1);
      var t := Run(r, maxLen, before);
      assert events + Asking(n) == before + [Look] + [Take];
      RunExtends(r, maxLen, before, Look);
      RunExtends(r, maxLen, before + [Look], Take);
      AskOnce(fl, Arrivals(events), t, maxLen);
    }
  }

  lemma AskOnce(fl: Flight, fs: seq<Fragment>, t: History, maxLen: nat)
    requires fl.Valid(maxLen) && ValidRing(t.ring) && Tracks(fl, fs, t)
    ensures var u := Step(Step(t, maxLen, Look), maxLen, Take);
            && Tracks(fl, fs, u)
            && |u.taken| == if |t.taken| < |fl.msgs| && Whole(fl, fs, |t.taken|) then |t.taken| + 1 else |t.taken|
  {
    ReadyIffWhole(fl, fs, t.ring, |t.taken|);
    EventTracked(fl, fs, t, maxLen, Look);
    EventTracked(fl, fs, Step(t, maxLen, Look), maxLen, Take);
    hide Mirrors, IsMessage, Whole, FromFlight;
  }

  lemma RunExtends(r: Ring, maxLen: nat, events: seq<Event>, e: Event)
    requires ValidRing(r)
    ensures Run(r, maxLen, events + [e]) == Step(Run(r, maxLen, events), maxLen, e)
    ensures Arrivals(events + [e]) ==
            if e.Arrive? then Arrivals(events) + Fragments(e.record) else Arrivals(events)
  {
    assert (events + [e])[..|events|] == events;
  }

  /** However the fragments of a flight were cut, lost, repeated and reordered on the way: the handshake gets
      exactly the messages in front of the first that did not arrive whole, in order, and the bytes it hashes are
      those that the sender hashed. */
  lemma EndToEnd(fl: Flight, maxLen: nat, r: Ring, events: seq<Event>)
    requires fl.Valid(maxLen) && Waiting(fl, r) && ValidRing(r) && Honest(fl, events)
    requires AllInTurn(r, maxLen, events)
    ensures var taken := Run(r, maxLen, events + Asking(FLIGHT)).taken;
            && (forall p <- taken :: p.Complete() && Header(p.msgType, p.msgLen, p.seqNum, 0, p.msgLen).Fits())
            && Heard(taken) == Hashed(fl, Leading(fl, Arrivals(events), 0))
  {
    hide Leading, Run, Mirrors, Tracks, Whole, Heard, Hashed, IsMessage, Honest, AllInTurn, Arrivals, ValidRing;
    RunTracks(fl, maxLen, r, events);
    AskingTakes(fl, maxLen, r, events, FLIGHT);
    var t := Run(r, maxLen, events + Asking(FLIGHT));
    TakenIsLeading(fl, Arrivals(events), t);
    HeardIsHashed(fl, t.taken);
  }

  /** When the ring's number of messages was asked for, what was taken is what arrived whole at the front. */
  lemma TakenIsLeading(fl: Flight, fs: seq<Fragment>, t: History)
    requires ValidRing(t.ring) && Tracks(fl, fs, t) && |fl.msgs| <= FLIGHT
    requires |t.taken| < |fl.msgs| && Whole(fl, fs, |t.taken|) ==> |t.taken| >= FLIGHT
    ensures |t.taken| == Leading(fl, fs, 0)
    ensures forall k: nat | k < |t.taken| :: IsMessage(fl, t.taken[k], k)
  {
    hide Leading, Whole, IsMessage;
    var n := Leading(fl, fs, 0);
    assert n <= |t.taken|;
  }

  /** When everything arrives, everything is delivered. */
  lemma AllDelivered(fl: Flight, maxLen: nat, r: Ring, events: seq<Event>)
    requires fl.Valid(maxLen) && Waiting(fl, r) && ValidRing(r) && Honest(fl, events)
    requires AllInTurn(r, maxLen, events)
    requires forall k: nat | k < |fl.msgs| :: Whole(fl, Arrivals(events), k)
    ensures var taken := Run(r, maxLen, events + Asking(FLIGHT)).taken;
            && (forall p <- taken :: p.Complete() && Header(p.msgType, p.msgLen, p.seqNum, 0, p.msgLen).Fits())
            && Heard(taken) == Hashed(fl, |fl.msgs|)
  {
    hide Heard, Hashed, Whole;
    EndToEnd(fl, maxLen, r, events);
    assert Leading(fl, Arrivals(events), 0) == |fl.msgs|;
  }

  // The sender's side

  /** Every handshake record that the sender seals for a flight is one that the receiver's side allows: it carries one
      piece of one of the messages as hashed. */
  lemma SentIsHonest(fl: Flight, maxLen: nat, flight: seq<DtlsFlight.Outgoing>, e: DtlsFlight.Entry, k: nat)
    requires fl.Valid(maxLen) && k < |fl.msgs|
    requires DtlsFlight.Carries(flight, e) && !flight[e.piece.message].isCcs
    requires flight[e.piece.message].data ==
             (assert fl.msgs[k] in fl.msgs; fl.RawAt(k))
    ensures FromFlight(fl, e.record.payload)
    ensures exists f :: Fragments(e.record.payload) == [f] && Piece(fl, f) && f.header.seqNum == fl.base + k
                        && f.header.fragOff == e.piece.from && |f.body| == e.piece.to - e.piece.from
  {
    var m := fl.msgs[k];
    assert m in fl.msgs;
    ParseEncoded(fl.RawAt(k), Header(m.msgType, |m.body|, fl.base + k, 0, |m.body|), m.body, []);
    var p := e.piece;
    var f := Fragment(Header(m.msgType, |m.body|, fl.base + k, p.from, p.to - p.from), m.body[p.from..p.to]);
    assert Payload([f]) == e.record.payload by {
      assert Payload([f]) == Encode(f.header) + f.body + Payload([]);
    }
    assert Piece(fl, f);
    assert forall g <- [f] :: Piece(fl, g);
    FragmentsOfPayload([f]);
  }

  /** The positions in an outgoing flight that are handshake messages. */
  ghost function Places(flight: seq<DtlsFlight.Outgoing>): seq<nat> {
    if flight == [] then []
    else
      var n := |flight| - 1;
      Places(flight[..n]) + if flight[n].isCcs then [] else [n]
  }

  lemma {:induction false} PlacesAre(flight: seq<DtlsFlight.Outgoing>)
    ensures forall j :: j in Places(flight) <==> 0 <= j < |flight| && !flight[j].isCcs
  {
    if flight != [] {
      PlacesAre(flight[..|flight| - 1]);
    }
  }

  /** The handshake messages of the outgoing flight are those of fl, in their order and as hashed. */
  ghost predicate Sends(flight: seq<DtlsFlight.Outgoing>, fl: Flight)
    requires fl.base + |fl.msgs| <= 0x1_0000 && forall m <- fl.msgs :: |m.body| < 0x100_0000
  {
    var places := Places(flight);
    && |places| == |fl.msgs|
    && forall k: nat | k < |places| :: places[k] < |flight| && flight[places[k]].data == DataOf(fl, k)
  }

  ghost function DataOf(fl: Flight, k: nat): seq<byte>
    requires fl.base + |fl.msgs| <= 0x1_0000 && forall m <- fl.msgs :: |m.body| < 0x100_0000
    requires k < |fl.msgs|
  {
    assert fl.msgs[k] in fl.msgs;
    fl.RawAt(k)
  }

  /** A handshake record, in whatever transmission of the flight and with whatever piece in it. */
  ghost predicate Sealed(flight: seq<DtlsFlight.Outgoing>, e: DtlsFlight.Entry) {
    DtlsFlight.Carries(flight, e) && !flight[e.piece.message].isCcs
  }

  ghost predicate FromSender(flight: seq<DtlsFlight.Outgoing>, record: seq<byte>) {
    exists e :: Sealed(flight, e) && e.record.payload == record
  }

  lemma SealedPiece(fl: Flight, maxLen: nat, flight: seq<DtlsFlight.Outgoing>, e: DtlsFlight.Entry)
    returns (k: nat, f: Fragment)
    requires fl.Valid(maxLen) && Sends(flight, fl) && Sealed(flight, e)
    ensures k < |fl.msgs| && Places(flight)[k] == e.piece.message && FromFlight(fl, e.record.payload)
    ensures Fragments(e.record.payload) == [f] && f.header.seqNum == fl.base + k
    ensures f.header.fragOff == e.piece.from && |f.body| == e.piece.to - e.piece.from
  {
    PlacesAre(flight);
    assert e.piece.message in Places(flight);
    k :| k < |Places(flight)| && Places(flight)[k] == e.piece.message;
    hide DtlsFlight.Carries, FromFlight;
    SentIsHonest(fl, maxLen, flight, e, k);
    f :| Fragments(e.record.payload) == [f] && Piece(fl, f) && f.header.seqNum == fl.base + k
         && f.header.fragOff == e.piece.from && |f.body| == e.piece.to - e.piece.from;
  }

  lemma {:induction false} ArrivalCounts(events: seq<Event>, e: Event, f: Fragment)
    requires e in events && e.Arrive? && f in Fragments(e.record)
    ensures f in Arrivals(events)
  {
    var init := events[..|events| - 1];
    if e in init {
      ArrivalCounts(init, e, f);
    } else {
      assert e == events[|events| - 1];
    }
  }

  lemma {:induction false} FragmentCounts(fs: seq<Fragment>, f: Fragment)
    requires f in fs
    ensures Range(f.header.fragOff, f.header.fragOff + |f.body|) <= Arrived(fs, f.header.seqNum)
  {
    var init := fs[..|fs| - 1];
    if f in init {
      FragmentCounts(init, f);
    } else {
      assert f == fs[|fs| - 1];
    }
  }

  /** A record of the sender has come to the receiver. */
  ghost predicate Came(events: seq<Event>, e: DtlsFlight.Entry) {
    exists v :: v in events && v.Arrive? && v.record == e.record.payload
  }

  lemma CameCounts(fl: Flight, maxLen: nat, flight: seq<DtlsFlight.Outgoing>, events: seq<Event>,
                   e: DtlsFlight.Entry, k: nat)
    requires fl.Valid(maxLen) && Sends(flight, fl) && Sealed(flight, e) && Came(events, e)
    requires k < |fl.msgs| && Places(flight)[k] == e.piece.message
    ensures Touched(Arrivals(events), fl.base + k)
    ensures Range(e.piece.from, e.piece.to) <= Arrived(Arrivals(events), fl.base + k)
  {
    hide Arrived, Arrivals, Sealed, Places, Range;
    var j, f := SealedPiece(fl, maxLen, flight, e);
    PlaceUnique(flight, j, k);
    var v :| v in events && v.Arrive? && v.record == e.record.payload;
    ArrivalCounts(events, v, f);
    FragmentCounts(Arrivals(events), f);
  }

  lemma {:induction false} PlaceUnique(flight: seq<DtlsFlight.Outgoing>, j: nat, k: nat)
    requires j < |Places(flight)| && k < |Places(flight)| && Places(flight)[j] == Places(flight)[k]
    ensures j == k
  {
    var init := flight[..|flight| - 1];
    PlacesAre(init);
    var places := Places(init);
    if j < |places| {
      assert places[j] in places;
    }
    if k < |places| {
      assert places[k] in places;
    }
    if j < |places| && k < |places| {
      PlaceUnique(init, j, k);
    }
  }

  lemma DataParses(fl: Flight, maxLen: nat, k: nat)
    requires fl.Valid(maxLen) && k < |fl.msgs|
    ensures var body := fl.msgs[k].body;
            var header := Header(fl.msgs[k].msgType, |body|, fl.base + k, 0, |body|);
            ParseFragment(DataOf(fl, k)) == Some(Parsed(header, body, []))
  {
    var m := fl.msgs[k];
    assert m in fl.msgs;
    ParseEncoded(fl.RawAt(k), Header(m.msgType, |m.body|, fl.base + k, 0, |m.body|), m.body, []);
  }

  lemma BodyOfData(fl: Flight, maxLen: nat, flight: seq<DtlsFlight.Outgoing>, k: nat)
    requires fl.Valid(maxLen) && Sends(flight, fl) && k < |fl.msgs|
    ensures k < |Places(flight)| && Places(flight)[k] < |flight| && !flight[Places(flight)[k]].isCcs
    ensures DtlsFlight.BodyOf(flight[Places(flight)[k]]) == fl.msgs[k].body
  {
    PlacesAre(flight);
    DataParses(fl, maxLen, k);
    hide ParseFragment, Places, DataOf;
    assert Places(flight)[k] in Places(flight);
  }

  /** A transmission whose handshake records all came makes every message whole. */
  lemma TransmissionIsWhole(fl: Flight, maxLen: nat, flight: seq<DtlsFlight.Outgoing>, log: seq<DtlsFlight.Entry>,
                            events: seq<Event>, k: nat)
    requires fl.Valid(maxLen) && Sends(flight, fl) && k < |fl.msgs|
    requires DtlsFlight.Tiles(flight, log, DtlsFlight.Pos(|flight|, 0))
    requires forall e <- log :: Sealed(flight, e) ==> Came(events, e)
    ensures Whole(fl, Arrivals(events), k)
  {
    hide Places, Sends, Came, DtlsFlight.Tiles, DtlsFlight.BodyOf, DtlsFlight.Carries, Arrived, Arrivals, Touched;
    BodyOfData(fl, maxLen, flight, k);
    var n := |fl.msgs[k].body|;
    ByteCame(fl, maxLen, flight, log, events, k, 0);
    var arrived := Arrived(Arrivals(events), fl.base + k);
    forall i: nat | i < n
      ensures i in arrived
    {
      ByteCame(fl, maxLen, flight, log, events, k, i);
    }
  }

  lemma ByteCame(fl: Flight, maxLen: nat, flight: seq<DtlsFlight.Outgoing>, log: seq<DtlsFlight.Entry>,
                 events: seq<Event>, k: nat, i: nat)
    requires fl.Valid(maxLen) && Sends(flight, fl) && k < |fl.msgs|
    requires DtlsFlight.Tiles(flight, log, DtlsFlight.Pos(|flight|, 0))
    requires forall e <- log :: Sealed(flight, e) ==> Came(events, e)
    requires i < |fl.msgs[k].body| || i == |fl.msgs[k].body| == 0
    ensures Touched(Arrivals(events), fl.base + k)
    ensures i < |fl.msgs[k].body| ==> i in Arrived(Arrivals(events), fl.base + k)
  {
    hide Places, Sends, Came, DtlsFlight.Tiles, DtlsFlight.BodyOf, DtlsFlight.Carries, Arrived, Arrivals, Touched;
    BodyOfData(fl, maxLen, flight, k);
    var e := DtlsFlight.TilesCover(flight, log, DtlsFlight.Pos(|flight|, 0), Places(flight)[k], i);
    CameCounts(fl, maxLen, flight, events, e, k);
  }

  /** What both sides hash is the data of the handshake messages of the flight. */
  lemma {:induction false} HashedIsSent(flight: seq<DtlsFlight.Outgoing>, fl: Flight, n: nat)
    requires fl.base + |fl.msgs| <= 0x1_0000 && forall m <- fl.msgs :: |m.body| < 0x100_0000
    requires Sends(flight, fl) && n <= |fl.msgs|
    ensures |DtlsFlight.Handshakes(flight)| == |fl.msgs|
    ensures Hashed(fl, n) == DtlsFlight.Handshakes(flight)[..n]
  {
    HandshakesAre(flight);
    if n > 0 {
      HashedIsSent(flight, fl, n - 1);
      assert DtlsFlight.Handshakes(flight)[n - 1] == DataOf(fl, n - 1);
    }
  }

  lemma {:induction false} HandshakesAre(flight: seq<DtlsFlight.Outgoing>)
    ensures |DtlsFlight.Handshakes(flight)| == |Places(flight)|
    ensures forall k: nat | k < |Places(flight)| ::
              Places(flight)[k] < |flight| && DtlsFlight.Handshakes(flight)[k] == flight[Places(flight)[k]].data
  {
    if flight != [] {
      HandshakesAre(flight[..|flight| - 1]);
    }
  }

  /** The flight sends fl when the data of its handshake messages are those of fl, as they are built and added. */
  lemma SendsWhatIsAdded(flight: seq<DtlsFlight.Outgoing>, fl: Flight)
    requires fl.base + |fl.msgs| <= 0x1_0000 && forall m <- fl.msgs :: |m.body| < 0x100_0000
    ensures Sends(flight, fl) <==>
            |DtlsFlight.Handshakes(flight)| == |fl.msgs|
            && forall k: nat | k < |fl.msgs| :: DtlsFlight.Handshakes(flight)[k] == DataOf(fl, k)
  {
    HandshakesAre(flight);
  }

  lemma SentRunIsHonest(fl: Flight, maxLen: nat, flight: seq<DtlsFlight.Outgoing>, events: seq<Event>)
    requires fl.Valid(maxLen) && Sends(flight, fl)
    requires forall v <- events :: v.Arrive? ==> FromSender(flight, v.record)
    ensures Honest(fl, events)
  {
    forall v <- events | v.Arrive?
      ensures FromFlight(fl, v.record)
    {
      var e :| Sealed(flight, e) && e.record.payload == v.record;
      var k, f := SealedPiece(fl, maxLen, flight, e);
    }
  }

  /** From the sender's flight to the receiver's transcript: when only records come that the sender sealed, in any
      transmission and cut in any way, and among them, once or more, all handshake records of some transmission from
      the first message to the last, the receiver hashes exactly what the sender hashed. */
  lemma FlightDelivered(fl: Flight, maxLen: nat, r: Ring, flight: seq<DtlsFlight.Outgoing>,
                        log: seq<DtlsFlight.Entry>, events: seq<Event>)
    requires fl.Valid(maxLen) && Waiting(fl, r) && ValidRing(r) && Sends(flight, fl)
    requires forall v <- events :: v.Arrive? ==> FromSender(flight, v.record)
    requires AllInTurn(r, maxLen, events)
    requires DtlsFlight.Tiles(flight, log, DtlsFlight.Pos(|flight|, 0))
    requires forall e <- log :: Sealed(flight, e) ==> Came(events, e)
    ensures var taken := Run(r, maxLen, events + Asking(FLIGHT)).taken;
            && (forall p <- taken :: p.Complete() && Header(p.msgType, p.msgLen, p.seqNum, 0, p.msgLen).Fits())
            && Heard(taken) == Hashed(fl, |fl.msgs|) == DtlsFlight.Handshakes(flight)
  {
    HashedIsSent(flight, fl, |fl.msgs|);
    hide Sends, Came, AllInTurn, DtlsFlight.Tiles, Whole, Run, Heard, Hashed;
    SentRunIsHonest(fl, maxLen, flight, events);
    forall k: nat | k < |fl.msgs| ensures Whole(fl, Arrivals(events), k) {
      TransmissionIsWhole(fl, maxLen, flight, log, events, k);
    }
    AllDelivered(fl, maxLen, r, events);
  }
}
