/** Sealing DTLS records and sending a flight of handshake messages in packets of limited size. */
module DtlsSend {
  import opened Bytes
  import opened DtlsWire
  import opened RecordTypes
  import opened DtlsReceive
  import opened DtlsFlight

  /** kMinMTU and kDefaultMTU */
  const MIN_MTU: nat := 228
  const DEFAULT_MTU: nat := 1472

  /** What is known of an AEAD: the most it adds to the plaintext, and the length of its explicit nonce. */
  datatype Cipher = Cipher(maxOverhead: nat, explicitNonceLen: nat) {
    /** The nonce is part of what is added. */
    predicate Sound() {
      explicitNonceLen <= maxOverhead
    }
  }

  // Record numbers

  ghost predicate NoRepeats(used: seq<(nat, nat)>) {
    forall i, j | 0 <= i < j < |used| :: used[i] != used[j]
  }

  /** The numbers that will be used next are larger than those used before in their epoch. */
  ghost predicate Unused(used: seq<(nat, nat)>, epoch: nat, seqNo: nat, lastSeqNo: nat) {
    forall u <- used ::
      u.0 <= epoch && (u.0 == epoch ==> u.1 < seqNo) && (u.0 + 1 == epoch ==> u.1 < lastSeqNo)
  }

  class RecordWriter {
    var epoch: nat
    var seqNo: nat
    var lastSeqNo: nat
    var cipher: Cipher
    var lastCipher: Cipher
    /** The epoch and sequence number of every record sealed, in order. */
    ghost var used: seq<(nat, nat)>
    /** Whether a sequence number or the epoch went back to zero by overflow. */
    ghost var wrapped: bool
    /** Whether the AEAD has refused to seal a record. */
    ghost var refused: bool

    ghost predicate Valid()
      reads this
    {
      && epoch < 0x1_0000 && seqNo < 0x1_0000_0000_0000 && lastSeqNo < 0x1_0000_0000_0000
      && (!wrapped ==> NoRepeats(used) && Unused(used, epoch, seqNo, lastSeqNo))
    }

    constructor (c: Cipher)
      ensures Valid() && epoch == 0 && used == [] && !wrapped && !refused
    {
      epoch, seqNo, lastSeqNo := 0, 0, 0;
      cipher, lastCipher := c, c;
      used, wrapped, refused := [], false, false;
    }

    /** dtls_max_seal_overhead */
    function MaxSealOverhead(previous: bool): nat
      reads this
    {
      DTLS_RECORD_HEADER_LENGTH + (if previous then lastCipher else cipher).maxOverhead
    }

    /** dtls_seal_prefix_len */
    function PrefixLen(previous: bool): nat
      reads this
    {
      DTLS_RECORD_HEADER_LENGTH + (if previous then lastCipher else cipher).explicitNonceLen
    }

    /** dtls_seal_record. No record number is used twice, in either epoch, as long as none wraps around. */
    method SealRecord(content: byte, payload: seq<byte>, previous: bool, maxOut: nat) returns (record: Option<Record>)
      requires Valid() && (previous ==> epoch >= 1)
      modifies this`seqNo, this`lastSeqNo, this`used, this`wrapped, this`refused
      ensures Valid()
      ensures wrapped ==> old(wrapped) || old(if previous then lastSeqNo else seqNo) == 0xFFFF_FFFF_FFFF
      ensures record == None ==> used == old(used)
      ensures record == None ==>
                || refused || wrapped || maxOut < 13
                || |payload| + (if previous then lastCipher else cipher).maxOverhead >= 0x1_0000
      ensures (old(refused) ==> refused) && (old(wrapped) ==> wrapped) && (record.Some? ==> refused == old(refused))
      ensures record.Some? ==>
                var r := record.value;
                && r.epoch == (if previous then epoch - 1 else epoch)
                && r.seqNo == old(if previous then lastSeqNo else seqNo)
                && r.content == content && r.payload == payload
                && r.size <= maxOut && r.size <= |payload| + MaxSealOverhead(previous)
                && used == old(used) + [(r.epoch, r.seqNo)]
    {
      if maxOut < DTLS_RECORD_HEADER_LENGTH {
        return None;
      }
      var recordEpoch := if previous then epoch - 1 else epoch;
      var recordSeqNo := if previous then lastSeqNo else seqNo;
      var sealed: bool := *;
      if !sealed {
        refused := true;
        return None;
      }
      var overhead := (if previous then lastCipher else cipher).maxOverhead;
      var length: nat :| length <= |payload| + overhead && length <= maxOut - DTLS_RECORD_HEADER_LENGTH;
      var next := (recordSeqNo + 1) % 0x1_0000_0000_0000;
      if previous {
        lastSeqNo := next;
      } else {
        seqNo := next;
      }
      if next == 0 {
        wrapped := true;
        return None;
      }
      if length >= 0x1_0000 {
        return None;
      }
      used := used + [(recordEpoch, recordSeqNo)];
      return Some(Record(recordEpoch, recordSeqNo, content, payload, DTLS_RECORD_HEADER_LENGTH + length));
    }

    /** dtls1_set_write_state */
    method SetWriteState(c: Cipher)
      requires Valid()
      modifies this
      ensures Valid() && used == old(used) && refused == old(refused)
      ensures wrapped <==> old(wrapped) || old(epoch) == 0xFFFF
      ensures epoch == (old(epoch) + 1) % 0x1_0000 && seqNo == 0 && lastSeqNo == old(seqNo)
      ensures cipher == c && lastCipher == old(cipher)
    {
      if epoch == 0xFFFF {
        wrapped := true;
      }
      epoch := (epoch + 1) % 0x1_0000;
      lastSeqNo := seqNo;
      seqNo := 0;
      lastCipher := cipher;
      cipher := c;
    }
  }

  // Flights

  /** What sealing one message, or the rest of it, comes to. */
  datatype SealResult = SealError | NoProgress | SealPartial | SealSuccess

  /** What sending a flight comes to: all of it went out; a write or the flush was refused; or sealing failed. */
  datatype SendResult = Sent | WriteRefused | FlushRefused | SealFailed | ShutDown

  /** The limit on packets after it is updated: one that is too small, or not set, is replaced by what the BIO answers,
      if asking is allowed and the answer will do, and else by the default. */
  function UpdatedMtu(mtu: nat, queried: int, mayQuery: bool): nat {
    if mtu >= 228 || !mayQuery then mtu
    else if 228 <= queried <= 0x4000_0000 then queried
    else 1472
  }

  /** A message that can be sealed: of the current or the previous epoch, and a ChangeCipherSpec or one whole handshake
      message. */
  ghost predicate Fit(m: Outgoing, epoch: nat) {
    (m.epoch == epoch || m.epoch + 1 == epoch) && (m.isCcs || WellFormed(m))
  }

  /** Packets up to a limit can hold a piece of every message of the flight, and no record is too long. */
  ghost predicate FineFor(flight: seq<Outgoing>, epoch: nat, cipher: Cipher, lastCipher: Cipher, limit: nat) {
    && cipher.Sound() && lastCipher.Sound() && limit <= 0x1_0000
    && 26 + cipher.maxOverhead <= limit && 26 + lastCipher.maxOverhead <= limit
    && forall m <- flight :: Fit(m, epoch)
  }

  class Sender {
    const writer: RecordWriter
    var outgoing: seq<Outgoing>
    var complete: bool
    var hasReply: bool
    var written: nat
    var offset: nat
    var handshakeWriteSeq: nat
    var mtu: nat
    /** The handshake messages hashed, in order. */
    ghost var hashed: seq<seq<byte>>
    /** Whether the BIO has refused a packet or to flush. */
    ghost var bioRefused: bool
    /** Whether all handshake messages of the flight were hashed when they were added. */
    ghost var allHashed: bool
    /** The pieces sealed since the flight was last started from its beginning. */
    ghost var log: seq<Entry>
    /** The packets written since then. */
    ghost var packets: seq<seq<Record>>

    ghost predicate Valid()
      reads this, writer
    {
      && writer.Valid()
      && |outgoing| <= FLIGHT && handshakeWriteSeq < 0x1_0000
      && ValidPos(outgoing, Pos(written, offset))
      && Tiles(outgoing, log, Pos(written, offset))
      && Flat(packets) == WrittenRecords(log)
      && (allHashed ==> EndsWith(hashed, Handshakes(outgoing)))
    }

    constructor (w: RecordWriter)
      requires w.Valid()
      ensures Valid() && writer == w && outgoing == [] && hashed == [] && allHashed
      ensures handshakeWriteSeq == 0 && mtu == 0
    {
      writer := w;
      outgoing, written, offset, handshakeWriteSeq, mtu := [], 0, 0, 0, 0;
      complete, hasReply := false, false;
      hashed, log, packets, allHashed, bioRefused := [], [], [], true, false;
    }

    ghost predicate Fine(limit: nat)
      reads this, writer
    {
      FineFor(outgoing, writer.epoch, writer.cipher, writer.lastCipher, limit)
    }

    /** Whether a message can be sealed, in the current or in the previous epoch. */
    predicate Sealable(m: Outgoing)
      reads writer
    {
      m.epoch == writer.epoch || m.epoch + 1 == writer.epoch
    }

    /** The piece of the next message that a packet with maxOut bytes left takes. */
    function NextPiece(maxOut: nat): (p: Piece)
      requires written < |outgoing| && RoomFor(maxOut) && offset <= |BodyOf(outgoing[written])|
      reads this, writer
    {
      var length := |BodyOf(outgoing[written])|;
      var previous := outgoing[written].epoch != writer.epoch;
      if outgoing[written].isCcs then Piece(written, 0, 0)
      else
        var most := maxOut - HEADER_LENGTH - writer.MaxSealOverhead(previous);
        Piece(written, offset, if length - offset > most then offset + most else length)
    }

    /** The piece starts where the last one ended and is as large as fits: 13 bytes go to the record header, 12 to that
        of the fragment, and as many as the cipher may add. A packet takes a piece if one byte fits. */
    lemma PieceFills(maxOut: nat)
      requires written < |outgoing| && offset <= |BodyOf(outgoing[written])|
      ensures var m := outgoing[written];
              var added := (if m.epoch == writer.epoch then writer.cipher else writer.lastCipher).maxOverhead;
              var nonce := (if m.epoch == writer.epoch then writer.cipher else writer.lastCipher).explicitNonceLen;
              && (RoomFor(maxOut) <==>
                    if m.isCcs then maxOut >= 14 + added else maxOut >= 26 + added && maxOut >= 13 + nonce)
              && (RoomFor(maxOut) ==>
                    if m.isCcs then NextPiece(maxOut) == Piece(written, 0, 0)
                    else
                      var most, left := maxOut - 25 - added, |BodyOf(m)| - offset;
                      NextPiece(maxOut) == Piece(written, offset, offset + if most < left then most else left))
    {}

    /** seal_next_message, for the next message of the flight. */
    method SealNextMessage(maxOut: nat) returns (result: SealResult, record: Option<Record>, ghost piece: Piece)
      requires writer.Valid() && written < |outgoing| && ValidPos(outgoing, Pos(written, offset))
      modifies this`offset, writer`seqNo, writer`lastSeqNo, writer`used, writer`wrapped, writer`refused
      ensures writer.Valid() && writer.epoch == old(writer.epoch)
      ensures result == SealError || result == NoProgress ==> offset == old(offset)
      ensures result == SealError ==>
                || writer.refused || writer.wrapped || maxOut > 0x1_0000
                || !writer.cipher.Sound() || !writer.lastCipher.Sound() || !Fit(outgoing[written], writer.epoch)
      ensures (old(writer.refused) ==> writer.refused) && (old(writer.wrapped) ==> writer.wrapped)
      ensures result == NoProgress <==>
              && Sealable(outgoing[written])
              && (outgoing[written].isCcs || WellFormed(outgoing[written])) && !old(RoomFor(maxOut))
      ensures result == SealPartial || result == SealSuccess ==>
                && record.Some? && record.value.size <= maxOut
                && old(RoomFor(maxOut)) && piece == old(NextPiece(maxOut))
                && Carries(outgoing, Entry(piece, record.value, false)) && Start(piece) == Pos(written, old(offset))
                && End(outgoing, piece) == if result == SealPartial then Pos(written, offset) else Pos(written + 1, 0)
      ensures result == SealPartial ==> offset > old(offset)
      ensures result == SealSuccess ==> offset == 0
      ensures ValidPos(outgoing, if result == SealSuccess then Pos(written + 1, 0) else Pos(written, offset))
    {
      piece := Piece(0, 0, 0);
      var msg := outgoing[written];
      var previous := false;
      if writer.epoch >= 1 && msg.epoch == writer.epoch - 1 {
        previous := true;
      } else if msg.epoch != writer.epoch {
        return SealError, None, piece;
      }
      if msg.isCcs {
        if maxOut < 1 + writer.MaxSealOverhead(previous) {
          return NoProgress, None, piece;
        }
        record := writer.SealRecord(CHANGE_CIPHER_SPEC, [CCS], previous, maxOut);
        piece := Piece(written, 0, 0);
        return if record == None then SealError else SealSuccess, record, piece;
      }
      result, record, piece := SealFragment(maxOut, previous);
    }

    /** The part of seal_next_message for handshake messages. */
    method SealFragment(maxOut: nat, previous: bool)
      returns (result: SealResult, record: Option<Record>, ghost piece: Piece)
      requires writer.Valid() && written < |outgoing| && ValidPos(outgoing, Pos(written, offset))
      requires !outgoing[written].isCcs && outgoing[written].epoch + (if previous then 1 else 0) == writer.epoch
      modifies this`offset, writer`seqNo, writer`lastSeqNo, writer`used, writer`wrapped, writer`refused
      ensures writer.Valid() && writer.epoch == old(writer.epoch)
      ensures result == SealError || result == NoProgress ==> offset == old(offset)
      ensures result == SealError ==>
                || writer.refused || writer.wrapped || !WellFormed(outgoing[written]) || maxOut > 0x1_0000
                || !(if previous then writer.lastCipher else writer.cipher).Sound()
      ensures (old(writer.refused) ==> writer.refused) && (old(writer.wrapped) ==> writer.wrapped)
      ensures result == NoProgress <==> WellFormed(outgoing[written]) && !old(RoomFor(maxOut))
      ensures result == SealPartial || result == SealSuccess ==>
                && record.Some? && record.value.size <= maxOut
                && old(RoomFor(maxOut)) && piece == old(NextPiece(maxOut))
                && Carries(outgoing, Entry(piece, record.value, false)) && Start(piece) == Pos(written, old(offset))
                && End(outgoing, piece) == if result == SealPartial then Pos(written, offset) else Pos(written + 1, 0)
      ensures result == SealPartial ==> offset > old(offset)
      ensures result == SealSuccess ==> offset == 0
      ensures ValidPos(outgoing, if result == SealSuccess then Pos(written + 1, 0) else Pos(written, offset))
    {
      hide Encode, ParseFragment, Carries;
      piece := Piece(0, 0, 0);
      var msg := outgoing[written];
      var parsed := ParseFragment(msg.data);
      if parsed == None || parsed.value.header.fragOff != 0
         || parsed.value.header.fragLen != |parsed.value.body| || parsed.value.header.msgLen != |parsed.value.body|
         || offset > |parsed.value.body| || parsed.value.rest != [] {
        return SealError, None, piece;
      }
      EncodeParsed(msg.data);
      assert WellFormed(msg) && BodyOf(msg) == parsed.value.body;
      hide WellFormed, BodyOf;
      var overhead := writer.MaxSealOverhead(previous);
      var prefix := writer.PrefixLen(previous);
      if maxOut < HEADER_LENGTH + 1 + overhead || maxOut < prefix {
        return NoProgress, None, piece;
      }
      var h, body := parsed.value.header, parsed.value.body;
      var todo := |body| - offset;
      if todo > maxOut - HEADER_LENGTH - overhead {
        todo := maxOut - HEADER_LENGTH - overhead;
      }
      if HEADER_LENGTH + todo > maxOut - prefix {
        return SealError, None, piece;
      }
      var fragment := Encode(Header(h.msgType, h.msgLen, h.seqNum, offset, todo)) + body[offset..offset + todo];
      record := writer.SealRecord(HANDSHAKE, fragment, previous, maxOut);
      if record == None {
        return SealError, None, piece;
      }
      piece := Piece(written, offset, offset + todo);
      PieceCarried(outgoing, piece, record.value);
      if todo == |body| - offset {
        offset := 0;
        return SealSuccess, record, piece;
      }
      offset := offset + todo;
      return SealPartial, record, piece;
    }

    /** Whether a packet with maxOut bytes left can take a piece of the next message. */
    predicate RoomFor(maxOut: nat)
      requires written < |outgoing|
      reads this, writer
    {
      var previous := outgoing[written].epoch != writer.epoch;
      if outgoing[written].isCcs then maxOut >= 1 + writer.MaxSealOverhead(previous)
      else
        maxOut >= HEADER_LENGTH + 1 + writer.MaxSealOverhead(previous) && maxOut >= writer.PrefixLen(previous)
    }

    lemma FineFits(limit: nat)
      requires Fine(limit) ==> written < |outgoing|
      ensures Fine(limit) ==>
                && Fit(outgoing[written], writer.epoch) && RoomFor(limit) && limit <= 0x1_0000
                && writer.cipher.Sound() && writer.lastCipher.Sound()
    {
      if Fine(limit) {
        assert outgoing[written] in outgoing;
      }
    }

    /** seal_next_packet */
    method SealNextPacket(maxOut: nat) returns (ok: bool, packet: seq<Record>, ghost added: seq<Entry>)
      requires Valid() && written < |outgoing|
      modifies this`written, this`offset, this`log
      modifies writer`seqNo, writer`lastSeqNo, writer`used, writer`wrapped, writer`refused
      ensures writer.Valid() && writer.epoch == old(writer.epoch)
      ensures ValidPos(outgoing, Pos(written, offset)) && Tiles(outgoing, log, Pos(written, offset))
      ensures log == old(log) + added && packet == Records(added) && forall e <- added :: !e.written
      ensures !ok ==> writer.refused || writer.wrapped || !Fine(maxOut)
      ensures (old(writer.refused) ==> writer.refused) && (old(writer.wrapped) ==> writer.wrapped)
      ensures ok ==> packet != [] && TotalSize(packet) <= maxOut
      ensures ok ==> written > old(written) || (written == old(written) && offset > old(offset))
    {
      var room := maxOut;
      ok, packet, added := false, [], [];
      hide Carries, Tiles, End, WellFormed, NextPiece, RoomFor, Records, FineFor, Fit, TotalSize;
      TotalAppend([], Record(0, 0, 0, [], 0));
      RecordsAppend([], []);
      while written < |outgoing|
        invariant writer.Valid() && writer.epoch == old(writer.epoch)
        invariant (old(writer.refused) ==> writer.refused) && (old(writer.wrapped) ==> writer.wrapped)
        invariant ok || room == maxOut
        invariant log == old(log) + added && packet == Records(added) && forall e <- added :: !e.written
        invariant ValidPos(outgoing, Pos(written, offset)) && Tiles(outgoing, log, Pos(written, offset))
        invariant TotalSize(packet) + room == maxOut && room >= 0
        invariant ok <==> packet != []
        invariant if ok then written > old(written) else written == old(written) && offset == old(offset)
        decreases |outgoing| - written
      {
        FineFits(maxOut);
        var result, record, piece := SealNextMessage(room);
        if result == SealError {
          return false, packet, added;
        }
        if result == NoProgress {
          break;
        }
        room := room - record.value.size;
        TotalAppend(packet, record.value);
        packet := packet + [record.value];
        ok := true;
        ghost var entry := Entry(piece, record.value, false);
        TilesExtend(outgoing, log, entry);
        RecordsAppend(added, [entry]);
        log, added := log + [entry], added + [entry];
        if result == SealPartial {
          break;
        }
        written := written + 1;
      }
    }

    /** dtls1_update_mtu. What the BIO answers is queried; the options may forbid asking. The assertion at its end
        holds exactly when there was a limit that is large enough or asking is allowed; a build without assertions
        goes on with the limit there is. */
    method UpdateMtu(queried: int, mayQuery: bool)
      requires Valid()
      modifies this`mtu
      ensures Valid() && (mtu >= MIN_MTU <==> old(mtu) >= MIN_MTU || mayQuery)
      ensures mtu == UpdatedMtu(old(mtu), queried, mayQuery)
    {
      if mtu < MIN_MTU && mayQuery {
        mtu := if MIN_MTU <= queried <= 0x4000_0000 then queried else DEFAULT_MTU;
      }
    }

    /** The body of the loop of send_flight: a packet is sealed and written. A refused write takes the position back
        to before the packet; a seal that fails leaves it after the pieces it had put into its packet. */
    method SendPacket() returns (result: SendResult)
      requires Valid() && written < |outgoing|
      modifies this`written, this`offset, this`log, this`packets, this`bioRefused
      modifies writer`seqNo, writer`lastSeqNo, writer`used, writer`wrapped, writer`refused
      ensures Valid() && writer.epoch == old(writer.epoch) && result in {Sent, WriteRefused, SealFailed}
      ensures old(log) <= log
      ensures result == SealFailed ==> writer.refused || writer.wrapped || !Fine(mtu)
      ensures bioRefused == (old(bioRefused) || result == WriteRefused)
      ensures (old(writer.refused) ==> writer.refused) && (old(writer.wrapped) ==> writer.wrapped)
      ensures result == WriteRefused ==> log == old(log) && Pos(written, offset) == old(Pos(written, offset))
      ensures result != SealFailed ==> WrittenFrom(log, |old(log)|)
      ensures result != Sent ==> packets == old(packets)
      ensures result == Sent ==>
                && |packets| == |old(packets)| + 1 && old(packets) <= packets
                && packets[|old(packets)|] != [] && TotalSize(packets[|old(packets)|]) <= mtu
                && (written > old(written) || (written == old(written) && offset > old(offset)))
    {
      hide FineFor, Tiles, TotalSize, Flat, Records, WrittenRecords, BodyOf, RecordWriter.Valid;
      var oldWritten, oldOffset := written, offset;
      ghost var oldLog := log;
      var ok, packet, added := SealNextPacket(mtu);
      WrittenAppend(oldLog, added);
      if !ok {
        return SealFailed;
      }
      var accepted: bool := *;
      if !accepted {
        bioRefused := true;
        written, offset, log := oldWritten, oldOffset, oldLog;
        return WriteRefused;
      }
      MarkPacket(oldLog, added, packet);
      return Sent;
    }

    /** send_flight */
    method SendFlight(shutDown: bool, queried: int, mayQuery: bool) returns (result: SendResult)
      requires Valid()
      modifies this`written, this`offset, this`log, this`packets, this`mtu, this`bioRefused
      modifies writer`seqNo, writer`lastSeqNo, writer`used, writer`wrapped, writer`refused
      ensures Valid() && writer.epoch == old(writer.epoch)
      ensures result == Sent || result == FlushRefused ==> written == |outgoing|
      ensures result == SealFailed ==> writer.refused || writer.wrapped || !Fine(mtu)
      ensures bioRefused == (old(bioRefused) || result == WriteRefused || result == FlushRefused)
      ensures (old(writer.refused) ==> writer.refused) && (old(writer.wrapped) ==> writer.wrapped)
      ensures old(log) <= log && old(packets) <= packets
      ensures result != SealFailed ==> WrittenFrom(log, |old(log)|)
      ensures forall i | |old(packets)| <= i < |packets| :: packets[i] != [] && TotalSize(packets[i]) <= mtu
      ensures mtu == if shutDown then old(mtu) else UpdatedMtu(old(mtu), queried, mayQuery)
      ensures result == ShutDown <==> shutDown
      ensures shutDown ==>
                log == old(log) && packets == old(packets) && Pos(written, offset) == old(Pos(written, offset))
    {
      hide FineFor, Tiles, TotalSize, Flat, WrittenRecords, BodyOf, RecordWriter.Valid;
      if shutDown {
        return ShutDown;
      }
      UpdateMtu(queried, mayQuery);
      while written < |outgoing|
        invariant Valid() && writer.epoch == old(writer.epoch)
        invariant bioRefused == old(bioRefused)
        invariant (old(writer.refused) ==> writer.refused) && (old(writer.wrapped) ==> writer.wrapped)
        invariant mtu == UpdatedMtu(old(mtu), queried, mayQuery)
        invariant old(log) <= log && WrittenFrom(log, |old(log)|) && old(packets) <= packets
        invariant forall i | |old(packets)| <= i < |packets| :: packets[i] != [] && TotalSize(packets[i]) <= mtu
        decreases |outgoing| - written, BytesLeft()
      {
        result := SendPacket();
        if result != Sent {
          return;
        }
      }
      var flushed: bool := *;
      bioRefused := bioRefused || !flushed;
      return if flushed then Sent else FlushRefused;
    }

    /** Notes, for the proof, that a packet was written. */
    ghost method MarkPacket(before: seq<Entry>, added: seq<Entry>, packet: seq<Record>)
      requires log == before + added && packet == Records(added) && forall e <- added :: !e.written
      requires Tiles(outgoing, log, Pos(written, offset))
      requires Flat(packets) == WrittenRecords(before)
      modifies this`log, this`packets
      ensures Tiles(outgoing, log, Pos(written, offset)) && Flat(packets) == WrittenRecords(log)
      ensures packets == old(packets) + [packet] && before <= log
      ensures WrittenFrom(log, |before|)
    {
      hide Carries, End;
      TilesMark(outgoing, log, |before|, Pos(written, offset));
      assert log[..|before|] == before && log[|before|..] == added;
      WrittenAppend(before, MarkWritten(added));
      assert Records(MarkWritten(added)) == Records(added);
      log := before + MarkWritten(added);
      assert (packets + [packet])[..|packets|] == packets;
      packets := packets + [packet];
    }

    ghost function BytesLeft(): int
      reads this
    {
      if written < |outgoing| then |BodyOf(outgoing[written])| - offset else 0
    }

    /** dtls1_flush_flight */
    method FlushFlight(shutDown: bool, queried: int, mayQuery: bool) returns (result: SendResult)
      requires Valid()
      modifies this, writer`seqNo, writer`lastSeqNo, writer`used, writer`wrapped, writer`refused
      ensures Valid() && writer.epoch == old(writer.epoch)
      ensures complete && outgoing == old(outgoing) && hasReply == old(hasReply)
      ensures result == Sent || result == FlushRefused ==> written == |outgoing|
      ensures result == SealFailed ==> writer.refused || writer.wrapped || !Fine(mtu)
      ensures result == WriteRefused || result == FlushRefused ==> bioRefused
      ensures result == ShutDown <==> shutDown
      ensures bioRefused == (old(bioRefused) || result == WriteRefused || result == FlushRefused)
      ensures mtu == if shutDown then old(mtu) else UpdatedMtu(old(mtu), queried, mayQuery)
      ensures old(log) <= log && old(packets) <= packets
      ensures result != SealFailed ==> WrittenFrom(log, |old(log)|)
      ensures forall i | |old(packets)| <= i < |packets| :: packets[i] != [] && TotalSize(packets[i]) <= mtu
    {
      complete := true;
      result := SendFlight(shutDown, queried, mayQuery);
    }

    /** dtls1_retransmit_outgoing_messages: the flight goes out again from its beginning. */
    method Retransmit(shutDown: bool, queried: int, mayQuery: bool) returns (result: SendResult)
      requires Valid()
      modifies this, writer`seqNo, writer`lastSeqNo, writer`used, writer`wrapped, writer`refused
      ensures Valid() && writer.epoch == old(writer.epoch)
      ensures outgoing == old(outgoing) && complete == old(complete) && hasReply == old(hasReply)
      ensures result == Sent || result == FlushRefused ==> written == |outgoing|
      ensures result == SealFailed ==> writer.refused || writer.wrapped || !Fine(mtu)
      ensures result == WriteRefused || result == FlushRefused ==> bioRefused
      ensures result == ShutDown <==> shutDown
      ensures bioRefused == (old(bioRefused) || result == WriteRefused || result == FlushRefused)
      ensures mtu == if shutDown then old(mtu) else UpdatedMtu(old(mtu), queried, mayQuery)
      ensures result != SealFailed ==> AllWritten(log)
      ensures forall i | 0 <= i < |packets| :: packets[i] != [] && TotalSize(packets[i]) <= mtu
    {
      written, offset := 0, 0;
      log, packets := [], [];
      result := SendFlight(shutDown, queried, mayQuery);
    }

    /** dtls_clear_outgoing_messages */
    method ClearOutgoing()
      requires Valid()
      modifies this`outgoing, this`written, this`offset, this`complete, this`hasReply
      modifies this`log, this`packets, this`allHashed
      ensures Valid() && allHashed && outgoing == [] && log == [] && packets == [] && !complete && !hasReply
      ensures written == 0 && offset == 0
    {
      outgoing, written, offset, complete, hasReply := [], 0, 0, false, false;
      log, packets, allHashed := [], [], true;
    }

    /** add_outgoing. Starts a new flight when the last one is complete; while the handshake runs, messages are
        hashed, and a ChangeCipherSpec is not. */
    method AddOutgoing(isCcs: bool, data: seq<byte>, hashing: bool) returns (ok: bool)
      requires Valid()
      modifies this
      ensures Valid() && !complete && mtu == old(mtu)
      ensures var flight := if old(complete) then [] else old(outgoing);
              && (ok <==> |flight| < FLIGHT && |data| <= 0xFFFF_FFFF)
              && outgoing == if ok then flight + [Outgoing(data, writer.epoch, isCcs)] else flight
      ensures hashed == if ok && !isCcs && hashing then old(hashed) + [data] else old(hashed)
      ensures ok ==> allHashed == ((old(complete) || old(allHashed)) && (isCcs || hashing))
      ensures handshakeWriteSeq ==
              if ok && !isCcs then (old(handshakeWriteSeq) + 1) % 0x1_0000 else old(handshakeWriteSeq)
      ensures !old(complete) ==> log == old(log) && Pos(written, offset) == old(Pos(written, offset))
      ensures old(complete) ==> log == [] && Pos(written, offset) == Pos(0, 0)
    {
      hide Tiles, ValidPos, Flat, WrittenRecords, RecordWriter.Valid, EndsWith, Handshakes;
      if complete {
        ClearOutgoing();
      }
      if |outgoing| >= FLIGHT || |data| > 0xFFFF_FFFF {
        return false;
      }
      HandshakesAppend(hashed, outgoing, Outgoing(data, writer.epoch, isCcs));
      allHashed := allHashed && (isCcs || hashing);
      if !isCcs {
        if hashing {
          hashed := hashed + [data];
        }
        handshakeWriteSeq := (handshakeWriteSeq + 1) % 0x1_0000;
      }
      TilesGrow(outgoing, Outgoing(data, writer.epoch, isCcs), log, Pos(written, offset));
      outgoing := outgoing + [Outgoing(data, writer.epoch, isCcs)];
      return true;
    }

    /** dtls1_init_message and dtls1_finish_message: the message numbered next, as one fragment. */
    method BuildMessage(msgType: byte, body: seq<byte>) returns (data: Option<seq<byte>>)
      requires Valid()
      ensures data.Some? <==> |body| < 0x100_0000
      ensures data.Some? ==> data.value == Raw(msgType, handshakeWriteSeq, body)
      ensures data.Some? ==> WellFormed(Outgoing(data.value, writer.epoch, false)) &&
                             BodyOf(Outgoing(data.value, writer.epoch, false)) == body
    {
      if |body| >= 0x100_0000 {
        return None;
      }
      var prefixed := Encode(Header(msgType, 0, handshakeWriteSeq, 0, |body|)) + body;
      var message := prefixed[..1] + prefixed[HEADER_LENGTH - 3..HEADER_LENGTH] + prefixed[4..];
      assert message == Raw(msgType, handshakeWriteSeq, body);
      ParseEncoded(message, Header(msgType, |body|, handshakeWriteSeq, 0, |body|), body, []);
      return Some(message);
    }

    /** The end of dtls1_next_message: a message of the peer answers a complete flight. */
    method NoteReply()
      requires Valid()
      modifies this`hasReply
      ensures Valid() && hasReply == (old(hasReply) || complete)
    {
      if complete {
        hasReply := true;
      }
    }

    /** dtls1_on_handshake_complete: a flight that was answered is not needed any more. */
    method OnHandshakeComplete()
      requires Valid()
      modifies this`outgoing, this`written, this`offset, this`complete, this`hasReply
      modifies this`log, this`packets, this`allHashed
      ensures Valid() && outgoing == if old(hasReply) then [] else old(outgoing)
    {
      if hasReply {
        ClearOutgoing();
      }
    }
  }
}
