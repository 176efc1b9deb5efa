/** The pieces in which a flight of outgoing DTLS messages goes out. */
module DtlsFlight {
  import opened Bytes
  import opened DtlsWire
  import opened RecordTypes

  /** DTLS_OUTGOING_MESSAGE; data is the whole message as one fragment, empty for a ChangeCipherSpec. */
  datatype Outgoing = Outgoing(data: seq<byte>, epoch: nat, isCcs: bool)

  /** A record as sealed: its number, its content before encryption and its size after. */
  datatype Record = Record(epoch: nat, seqNo: nat, content: byte, payload: seq<byte>, size: nat)

  /** The position in a flight: the number of messages passed and of bytes of the next one. */
  datatype Pos = Pos(message: nat, offset: nat)

  /** The bytes from to to of a message's body, or a ChangeCipherSpec (from and to are zero). */
  datatype Piece = Piece(message: nat, from: nat, to: nat)

  /** A piece, the record it went into, and whether the packet of that record was written. */
  datatype Entry = Entry(piece: Piece, record: Record, written: bool)

  /** A message that is one fragment holding the whole body. */
  predicate WellFormed(m: Outgoing) {
    var p := ParseFragment(m.data);
    p.Some? && p.value.header.fragOff == 0 && p.value.header.fragLen == |p.value.body|
    && p.value.header.msgLen == |p.value.body| && p.value.rest == []
  }

  function BodyOf(m: Outgoing): seq<byte> {
    if !m.isCcs && WellFormed(m) then ParseFragment(m.data).value.body else []
  }

  ghost predicate ValidPos(flight: seq<Outgoing>, p: Pos) {
    && p.message <= |flight|
    && (p.offset > 0 ==> p.message < |flight| && p.offset < |BodyOf(flight[p.message])|)
  }

  ghost predicate ValidPiece(flight: seq<Outgoing>, p: Piece) {
    && p.message < |flight| && (flight[p.message].isCcs || WellFormed(flight[p.message]))
    && p.from <= p.to <= |BodyOf(flight[p.message])|
    && (p.from == p.to ==> p.to == |BodyOf(flight[p.message])| == 0)
  }

  ghost function Start(p: Piece): Pos {
    Pos(p.message, p.from)
  }

  ghost function End(flight: seq<Outgoing>, p: Piece): Pos
    requires ValidPiece(flight, p)
  {
    if p.to == |BodyOf(flight[p.message])| then Pos(p.message + 1, 0) else Pos(p.message, p.to)
  }

  /** The plaintext in which a piece travels. */
  ghost function PieceBytes(flight: seq<Outgoing>, p: Piece): seq<byte>
    requires ValidPiece(flight, p)
  {
    var m := flight[p.message];
    if m.isCcs then [CCS]
    else
      var parsed := ParseFragment(m.data).value;
      var h := parsed.header;
      EncodeParsed(m.data);
      Encode(Header(h.msgType, h.msgLen, h.seqNum, p.from, p.to - p.from)) + parsed.body[p.from..p.to]
  }

  ghost predicate Carries(flight: seq<Outgoing>, e: Entry) {
    && ValidPiece(flight, e.piece)
    && e.record.payload == PieceBytes(flight, e.piece)
    && e.record.content == if flight[e.piece.message].isCcs then CHANGE_CIPHER_SPEC else HANDSHAKE
  }

  lemma PieceCarried(flight: seq<Outgoing>, p: Piece, r: Record)
    requires ValidPiece(flight, p) && !flight[p.message].isCcs
    requires var parsed := ParseFragment(flight[p.message].data).value;
             var h := Header(parsed.header.msgType, parsed.header.msgLen, parsed.header.seqNum, p.from, p.to - p.from);
             h.Fits() && r.payload == Encode(h) + parsed.body[p.from..p.to]
    requires r.content == HANDSHAKE
    ensures Carries(flight, Entry(p, r, false))
  {}

  /** The pieces of the log lead from the start of the flight to the position given, each from where the one
      before ended. */
  ghost predicate Tiles(flight: seq<Outgoing>, log: seq<Entry>, end: Pos) {
    if log == [] then end == Pos(0, 0)
    else
      var last := log[|log| - 1];
      Carries(flight, last) && End(flight, last.piece) == end && Tiles(flight, log[..|log| - 1], Start(last.piece))
  }

  // What the log sends

  /** The body bytes of message k in the pieces of the log, one after the other. */
  ghost function Gathered(flight: seq<Outgoing>, log: seq<Entry>, k: nat, all: bool): seq<byte>
    requires k < |flight|
  {
    if log == [] then []
    else
      var last := log[|log| - 1];
      var before := Gathered(flight, log[..|log| - 1], k, all);
      if last.piece.message == k && (all || last.written) && ValidPiece(flight, last.piece)
      then before + BodyOf(flight[k])[last.piece.from..last.piece.to]
      else before
  }

  /** How often message k appears in the log. */
  ghost function Pieces(log: seq<Entry>, k: nat): nat {
    if log == [] then 0
    else Pieces(log[..|log| - 1], k) + if log[|log| - 1].piece.message == k then 1 else 0
  }

  /** The pieces of a message put together are its body, as far as the position goes: no gap and no overlap. A
      message without a body, and so a ChangeCipherSpec, goes out once. */
  lemma {:induction false} TilesGather(flight: seq<Outgoing>, log: seq<Entry>, end: Pos, k: nat)
    requires Tiles(flight, log, end) && k < |flight|
    ensures ValidPos(flight, end)
    ensures Gathered(flight, log, k, true) ==
            if k < end.message then BodyOf(flight[k])
            else if k == end.message then BodyOf(flight[k])[..end.offset] else []
    ensures BodyOf(flight[k]) == [] ==> Pieces(log, k) == if k < end.message then 1 else 0
    ensures k < end.message ==> Pieces(log, k) >= 1
  {
    hide PieceBytes, BodyOf, WellFormed;
    if log != [] {
      var last := log[|log| - 1];
      TilesGather(flight, log[..|log| - 1], Start(last.piece), k);
      var body := BodyOf(flight[last.piece.message]);
      assert body[..last.piece.from] + body[last.piece.from..last.piece.to] == body[..last.piece.to];
    }
  }

  /** Every byte of a message passed is in some piece, and a message passed has one even if it is empty. */
  lemma {:induction false} TilesCover(flight: seq<Outgoing>, log: seq<Entry>, end: Pos, k: nat, i: nat)
    returns (e: Entry)
    requires Tiles(flight, log, end) && k < end.message <= |flight|
    requires i < |BodyOf(flight[k])| || i == |BodyOf(flight[k])| == 0
    ensures e in log && Carries(flight, e) && e.piece.message == k
    ensures i < |BodyOf(flight[k])| ==> e.piece.from <= i < e.piece.to
  {
    e := CoverUpTo(flight, log, end, k, i);
  }

  lemma {:induction false} CoverUpTo(flight: seq<Outgoing>, log: seq<Entry>, end: Pos, k: nat, i: nat)
    returns (e: Entry)
    requires Tiles(flight, log, end) && k < |flight|
    requires k < end.message || (k == end.message && i < end.offset)
    requires i < |BodyOf(flight[k])| || i == |BodyOf(flight[k])| == 0
    ensures e in log && Carries(flight, e) && e.piece.message == k
    ensures i < |BodyOf(flight[k])| ==> e.piece.from <= i < e.piece.to
  {
    hide PieceBytes, BodyOf, WellFormed;
    e := log[|log| - 1];
    if e.piece.message != k || i < e.piece.from {
      e := CoverUpTo(flight, log[..|log| - 1], Start(e.piece), k, i);
    }
  }

  /** How often message k appears in packets that were written. */
  ghost function WrittenPieces(log: seq<Entry>, k: nat): nat {
    if log == [] then 0
    else
      var last := log[|log| - 1];
      WrittenPieces(log[..|log| - 1], k) + if last.piece.message == k && last.written then 1 else 0
  }

  /** A piece of message k that was sealed into a packet that was not written. */
  ghost predicate Lost(e: Entry, k: nat) {
    e.piece.message == k && !e.written
  }

  lemma {:induction false} WrittenLess(flight: seq<Outgoing>, log: seq<Entry>, end: Pos, k: nat)
    requires Tiles(flight, log, end) && k < |flight|
    ensures |Gathered(flight, log, k, false)| <= |Gathered(flight, log, k, true)|
    ensures WrittenPieces(log, k) <= Pieces(log, k)
    ensures (forall e <- log :: !Lost(e, k)) ==>
              && Gathered(flight, log, k, false) == Gathered(flight, log, k, true)
              && WrittenPieces(log, k) == Pieces(log, k)
    ensures (exists e <- log :: Lost(e, k)) ==> WrittenPieces(log, k) < Pieces(log, k)
    ensures (exists e <- log :: Lost(e, k)) && BodyOf(flight[k]) != [] ==>
              |Gathered(flight, log, k, false)| < |Gathered(flight, log, k, true)|
  {
    hide PieceBytes, BodyOf, WellFormed;
    if log != [] {
      var init, last := log[..|log| - 1], log[|log| - 1];
      WrittenLess(flight, init, Start(last.piece), k);
      hide Tiles, End;
      assert log == init + [last];
      assert last in log && forall e <- init :: e in log;
      assert (exists e <- log :: Lost(e, k)) <==> Lost(last, k) || exists e <- init :: Lost(e, k);
    }
  }

  /** What was written of a message passed is all of it exactly when no piece of it was sealed into a packet that was
      not written: its whole body, or, if it has none, its one appearance. */
  lemma WrittenGather(flight: seq<Outgoing>, log: seq<Entry>, end: Pos, k: nat)
    requires Tiles(flight, log, end) && k < end.message && k < |flight|
    ensures BodyOf(flight[k]) != [] ==>
              (Gathered(flight, log, k, false) == BodyOf(flight[k]) <==> forall e <- log :: !Lost(e, k))
    ensures BodyOf(flight[k]) == [] ==> (WrittenPieces(log, k) == 1 <==> forall e <- log :: !Lost(e, k))
  {
    TilesGather(flight, log, end, k);
    WrittenLess(flight, log, end, k);
  }

  /** A ChangeCipherSpec that was sealed into a packet that was not written: the position has passed it, and it never
      goes out. */
  lemma CcsLost(epoch: nat, seqNo: nat, size: nat)
    ensures var flight := [Outgoing([], epoch, true)];
            var log := [Entry(Piece(0, 0, 0), Record(epoch, seqNo, CHANGE_CIPHER_SPEC, [CCS], size), false)];
            Tiles(flight, log, Pos(1, 0)) && Lost(log[0], 0) && WrittenPieces(log, 0) == 0 && WrittenRecords(log) == []
  {
    var flight := [Outgoing([], epoch, true)];
    var log := [Entry(Piece(0, 0, 0), Record(epoch, seqNo, CHANGE_CIPHER_SPEC, [CCS], size), false)];
    assert log == [] + [log[0]];
    assert Tiles(flight, [], Pos(0, 0)) && WrittenRecords([]) == [] && WrittenPieces([], 0) == 0;
    TilesExtend(flight, [], log[0]);
  }

  // The handshake messages of a flight

  /** The data of the handshake messages, in order. */
  ghost function Handshakes(flight: seq<Outgoing>): seq<seq<byte>> {
    if flight == [] then []
    else
      var n := |flight| - 1;
      Handshakes(flight[..n]) + if flight[n].isCcs then [] else [flight[n].data]
  }

  ghost predicate EndsWith(all: seq<seq<byte>>, end: seq<seq<byte>>) {
    |end| <= |all| && all[|all| - |end|..] == end
  }

  lemma HandshakesAppend(all: seq<seq<byte>>, flight: seq<Outgoing>, m: Outgoing)
    ensures Handshakes(flight + [m]) == Handshakes(flight) + if m.isCcs then [] else [m.data]
    ensures EndsWith(all, Handshakes(flight)) ==>
              EndsWith(if m.isCcs then all else all + [m.data], Handshakes(flight + [m]))
  {
    assert (flight + [m])[..|flight|] == flight;
  }

  // Keeping the log

  lemma TilesExtend(flight: seq<Outgoing>, log: seq<Entry>, e: Entry)
    requires Carries(flight, e) && Tiles(flight, log, Start(e.piece))
    ensures Tiles(flight, log + [e], End(flight, e.piece))
  {
    assert (log + [e])[..|log|] == log;
  }

  lemma CarriesGrow(flight: seq<Outgoing>, m: Outgoing, e: Entry)
    requires Carries(flight, e)
    ensures Carries(flight + [m], e) && End(flight + [m], e.piece) == End(flight, e.piece)
  {
    assert (flight + [m])[e.piece.message] == flight[e.piece.message];
    hide BodyOf, WellFormed, Encode, ParseFragment;
  }

  /** Later messages do not disturb what was sent. */
  lemma {:induction false} TilesGrow(flight: seq<Outgoing>, m: Outgoing, log: seq<Entry>, end: Pos)
    requires Tiles(flight, log, end)
    ensures Tiles(flight + [m], log, end)
    ensures ValidPos(flight, end) ==> ValidPos(flight + [m], end)
  {
    hide Carries, End;
    if log != [] {
      var last := log[|log| - 1];
      TilesGrow(flight, m, log[..|log| - 1], Start(last.piece));
      CarriesGrow(flight, m, last);
    }
  }

  ghost function MarkWritten(log: seq<Entry>): seq<Entry> {
    seq(|log|, i requires 0 <= i < |log| => log[i].(written := true))
  }

  lemma {:induction false} TilesMark(flight: seq<Outgoing>, log: seq<Entry>, n: nat, end: Pos)
    requires Tiles(flight, log, end) && n <= |log|
    ensures Tiles(flight, log[..n] + MarkWritten(log[n..]), end)
  {
    hide PieceBytes, ValidPiece, End;
    var marked := log[..n] + MarkWritten(log[n..]);
    if n == |log| {
      assert marked == log;
    } else {
      var init, last := log[..|log| - 1], log[|log| - 1];
      TilesMark(flight, init, n, Start(last.piece));
      assert marked[..|log| - 1] == init[..n] + MarkWritten(init[n..]);
    }
  }

  /** The records of the written pieces, in order. */
  ghost function WrittenRecords(log: seq<Entry>): seq<Record> {
    if log == [] then []
    else
      var before := WrittenRecords(log[..|log| - 1]);
      if log[|log| - 1].written then before + [log[|log| - 1].record] else before
  }

  ghost function Records(log: seq<Entry>): seq<Record> {
    seq(|log|, i requires 0 <= i < |log| => log[i].record)
  }

  lemma RecordsAppend(log: seq<Entry>, more: seq<Entry>)
    ensures Records(log + more) == Records(log) + Records(more)
    ensures |more| == 1 ==> Records(more) == [more[0].record]
    ensures more == [] ==> Records(more) == []
  {}

  ghost function Flat(packets: seq<seq<Record>>): seq<Record> {
    if packets == [] then [] else Flat(packets[..|packets| - 1]) + packets[|packets| - 1]
  }

  lemma {:induction false} WrittenAppend(log: seq<Entry>, more: seq<Entry>)
    ensures AllWritten(more) ==> WrittenRecords(log + more) == WrittenRecords(log) + Records(more)
    ensures (forall e <- more :: !e.written) ==> WrittenRecords(log + more) == WrittenRecords(log)
  {
    if more == [] {
      assert log + more == log;
    } else {
      var init, last := more[..|more| - 1], more[|more| - 1];
      assert last in more && forall e <- init :: e in more;
      WrittenAppend(log, init);
      assert (log + more)[..|log + more| - 1] == log + init;
      if AllWritten(more) {
        assert Records(more) == Records(init) + [last.record];
      }
    }
  }

  lemma NothingWritten()
    ensures WrittenRecords([]) == []
  {}

  ghost function TotalSize(packet: seq<Record>): nat {
    if packet == [] then 0 else TotalSize(packet[..|packet| - 1]) + packet[|packet| - 1].size
  }

  lemma TotalAppend(packet: seq<Record>, r: Record)
    ensures TotalSize([]) == 0 && TotalSize(packet + [r]) == TotalSize(packet) + r.size
  {
    assert (packet + [r])[..|packet|] == packet;
  }

  ghost predicate AllWritten(log: seq<Entry>) {
    forall e <- log :: e.written
  }

  ghost predicate WrittenFrom(log: seq<Entry>, n: nat) {
    forall i | n <= i < |log| :: log[i].written
  }

  /** A flight that went out to its end with every packet written: the packets carry each message's body, each piece
      after the one before, and each ChangeCipherSpec once. */
  lemma WholeFlight(flight: seq<Outgoing>, log: seq<Entry>, k: nat)
    requires Tiles(flight, log, Pos(|flight|, 0)) && AllWritten(log) && k < |flight|
    ensures Gathered(flight, log, k, false) == BodyOf(flight[k])
    ensures BodyOf(flight[k]) == [] ==> Pieces(log, k) == WrittenPieces(log, k) == 1
    ensures WrittenRecords(log) == Records(log)
  {
    hide BodyOf, Tiles, Gathered, Pieces, WrittenPieces, WrittenRecords;
    TilesGather(flight, log, Pos(|flight|, 0), k);
    WrittenLess(flight, log, Pos(|flight|, 0), k);
    assert WrittenRecords([]) == [] by {
      NothingWritten();
    }
    WrittenAppend([], log);
    assert [] + log == log;
  }
}
