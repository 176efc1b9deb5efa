/** Which DTLS records are accepted: the sliding window over the record numbers of an epoch (section 4.1.2.6 of
    RFC 6347), and the change of epochs. */
module ReplayWindow {
  import opened Bytes
  import opened Bits
  import opened RecordTypes

  const WINDOW: nat := 64
  const MAX_ENCRYPTED_LENGTH: nat := 16704
  const MAX_PLAIN_LENGTH: nat := 16384
  const DTLS_MAJOR: nat := 0xFE

  /** DTLS1_BITMAP: two 64-bit numbers. A record number holds the epoch in its upper 16 bits. */
  datatype Window = Window(bits: nat, maxSeqNum: nat) {
    predicate Valid() {
      bits < 0x1_0000_0000_0000_0000 && maxSeqNum < 0x1_0000_0000_0000_0000
    }
  }

  /** Bit i of the map stands for the record numbered maxSeqNum - i: set exactly when it was accepted. */
  ghost predicate Stands(w: Window, accepted: set<nat>) {
    && w.Valid()
    && (forall i: nat | i < WINDOW :: Bit(w.bits, i) <==> i <= w.maxSeqNum && w.maxSeqNum - i in accepted)
    && (forall n <- accepted :: n <= w.maxSeqNum)
    && (w.maxSeqNum in accepted || (accepted == {} && w.maxSeqNum == 0))
  }

  /** dtls1_bitmap_should_discard */
  function ShouldDiscard(w: Window, n: nat): bool {
    if n > w.maxSeqNum then false
    else
      var index := w.maxSeqNum - n;
      index >= WINDOW || And(w.bits, Shl(1, index)) != 0
  }

  /** dtls1_bitmap_record */
  function Recorded(w: Window, n: nat): Window {
    var shift := n - w.maxSeqNum;
    var shifted :=
      if shift <= 0 then w.bits
      else if shift >= WINDOW then 0 else Shl(w.bits, shift) % 0x1_0000_0000_0000_0000;
    var last := if shift <= 0 then w.maxSeqNum else n;
    Window(if last - n < WINDOW then Or(shifted, Shl(1, last - n)) else shifted, last)
  }

  /** The window refuses a number exactly when it was accepted before or is 64 or more below the largest. */
  lemma DiscardsExactly(w: Window, accepted: set<nat>, n: nat)
    requires Stands(w, accepted)
    ensures ShouldDiscard(w, n) <==> n in accepted || n + 64 <= w.maxSeqNum
  {
    if n <= w.maxSeqNum < n + WINDOW {
      AndOne(w.bits, w.maxSeqNum - n);
      assert Bit(w.bits, w.maxSeqNum - n) <==> n in accepted;
    }
  }

  lemma RecordedBits(w: Window, n: nat, i: nat)
    requires w.Valid() && i < WINDOW
    ensures var r := Recorded(w, n);
            Bit(r.bits, i) <==> i + n == r.maxSeqNum ||
                                (r.maxSeqNum - w.maxSeqNum <= i && Bit(w.bits, i - (r.maxSeqNum - w.maxSeqNum)))
  {
    var r := Recorded(w, n);
    var shift := r.maxSeqNum - w.maxSeqNum;
    Shl64(1);
    BitMod(Shl(w.bits, shift), 64, i);
    BitShl(w.bits, shift, i);
    BitZero(i);
    if r.maxSeqNum - n < WINDOW {
      BitOne(r.maxSeqNum - n, i);
      BitOr(if shift == 0 then w.bits else if shift >= WINDOW then 0 else Shl(w.bits, shift) % 0x1_0000_0000_0000_0000,
            Shl(1, r.maxSeqNum - n), i);
    }
  }

  lemma RecordedBound(w: Window, n: nat)
    requires w.Valid() && n < 0x1_0000_0000_0000_0000
    ensures Recorded(w, n).Valid()
  {
    var r := Recorded(w, n);
    Shl64(1);
    if r.maxSeqNum - n < WINDOW {
      ShlMonotone(1, 1, r.maxSeqNum - n);
      OneBelow(r.maxSeqNum - n, 64);
      var shift := r.maxSeqNum - w.maxSeqNum;
      OrBound(if shift == 0 then w.bits
              else if shift >= WINDOW then 0 else Shl(w.bits, shift) % 0x1_0000_0000_0000_0000,
              Shl(1, r.maxSeqNum - n), 64);
    }
  }

  lemma {:induction false} OneBelow(i: nat, k: nat)
    requires i < k
    ensures Shl(1, i) < Shl(1, k)
  {
    if i + 1 < k {
      OneBelow(i, k - 1);
    } else {
      ShlMonotone(1, 1, i);
    }
  }

  /** Recording a number adds it to the set, whatever the number is, however far the window moves. */
  lemma RecordedStands(w: Window, accepted: set<nat>, n: nat)
    requires Stands(w, accepted) && n < 0x1_0000_0000_0000_0000
    ensures Stands(Recorded(w, n), accepted + {n})
  {
    RecordedBound(w, n);
    var r := Recorded(w, n);
    var shift := r.maxSeqNum - w.maxSeqNum;
    forall i: nat | i < WINDOW
      ensures Bit(r.bits, i) <==> i <= r.maxSeqNum && r.maxSeqNum - i in accepted + {n}
    {
      RecordedBits(w, n, i);
      if shift <= i {
        assert Bit(w.bits, i - shift) <==> i - shift <= w.maxSeqNum && w.maxSeqNum - (i - shift) in accepted;
      }
    }
  }

  // Runs within an epoch

  /** The record numbers accepted of those that arrive, in order; each comes with whether the record opens. */
  ghost function Accept(arrivals: seq<(nat, bool)>): (r: (Window, seq<nat>))
    decreases |arrivals|
  {
    if arrivals == [] then (Window(0, 0), [])
    else
      var (n, opens) := arrivals[|arrivals| - 1];
      var (w, accepted) := Accept(arrivals[..|arrivals| - 1]);
      if !ShouldDiscard(w, n) && opens then (Recorded(w, n), accepted + [n]) else (w, accepted)
  }

  ghost function Elements(s: seq<nat>): set<nat> {
    set n | n in s
  }

  /** Over every run: the window stands for the numbers accepted, and none is accepted twice. */
  lemma {:induction false} RunStands(arrivals: seq<(nat, bool)>)
    requires forall a <- arrivals :: a.0 < 0x1_0000_0000_0000_0000
    ensures var (w, accepted) := Accept(arrivals);
            && Stands(w, Elements(accepted))
            && forall i, j | 0 <= i < j < |accepted| :: accepted[i] != accepted[j]
  {
    if arrivals == [] {
      forall i: nat | i < WINDOW ensures !Bit(0, i) {
        BitZero(i);
      }
    } else {
      var init := arrivals[..|arrivals| - 1];
      var (n, opens) := arrivals[|arrivals| - 1];
      RunStands(init);
      var (w, accepted) := Accept(init);
      DiscardsExactly(w, Elements(accepted), n);
      assert arrivals[|arrivals| - 1] in arrivals;
      RecordedStands(w, Elements(accepted), n);
      ElementsAppend(accepted, n);
    }
  }

  lemma ElementsAppend(s: seq<nat>, n: nat)
    ensures Elements(s + [n]) == Elements(s) + {n}
  {}

  /** A genuine record that arrives for the first time, not too late, is accepted. */
  lemma FreshAccepted(arrivals: seq<(nat, bool)>, n: nat)
    requires forall a <- arrivals :: a.0 < 0x1_0000_0000_0000_0000
    ensures var (w, accepted) := Accept(arrivals);
            Accept(arrivals + [(n, true)]).1 ==
            if n !in accepted && n + WINDOW > w.maxSeqNum then accepted + [n] else accepted
  {
    RunStands(arrivals);
    var (w, accepted) := Accept(arrivals);
    DiscardsExactly(w, Elements(accepted), n);
    assert (arrivals + [(n, true)])[..|arrivals|] == arrivals;
  }

  // The record header

  /** The number in eight bytes, the most significant first. */
  function Number(b: seq<byte>): (n: nat)
  {
    if b == [] then 0 else 0x100 * Number(b[..|b| - 1]) + b[|b| - 1]
  }

  lemma {:induction false} NumberBound(b: seq<byte>)
    ensures Number(b) < Shl(1, 8 * |b|)
  {
    if b != [] {
      NumberBound(b[..|b| - 1]);
      ShlPlus(1, 8 * |b| - 8, 8);
      Shl8(Shl(1, 8 * |b| - 8));
    }
  }

  function EpochOf(n: nat): nat {
    n / 0x1_0000_0000_0000
  }

  /** The first two of the eight bytes are the epoch. */
  lemma EpochBytes(b: seq<byte>)
    requires |b| == 8
    ensures Number(b) < 0x1_0000_0000_0000_0000 && EpochOf(Number(b)) == Number(b[..2])
  {
    NumberBound(b);
    Shl64(1);
    hide Shl, Number;
    assert b[..8] == b;
    NumberThree(b, 5);
    NumberThree(b, 2);
  }

  lemma NumberThree(b: seq<byte>, i: nat)
    requires i + 3 <= |b|
    ensures 0x100_0000 * Number(b[..i]) <= Number(b[..i + 3]) < 0x100_0000 * (Number(b[..i]) + 1)
  {
    hide Number;
    NumberStep(b, i + 2);
    NumberStep(b, i + 1);
    NumberStep(b, i);
  }

  lemma NumberStep(b: seq<byte>, i: nat)
    requires i < |b|
    ensures Number(b[..i + 1]) == 0x100 * Number(b[..i]) + b[i]
  {
    assert b[..i + 1][..i] == b[..i];
  }

  lemma PowerMonotone(i: nat, k: nat)
    requires i <= k
    ensures Shl(1, i) <= Shl(1, k)
  {
    if i < k {
      OneBelow(i, k);
    }
  }

  lemma {:induction false} OrCommutes(a: nat, b: nat)
    ensures Or(a, b) == Or(b, a)
    decreases a + b
  {
    if a > 0 && b > 0 {
      OrCommutes(a / 2, b / 2);
    }
  }

  /** Shifting a byte into a 64-bit number that has room for it. */
  lemma ShiftIn(n: nat, b: byte)
    requires n < Shl(1, 56)
    ensures Or(Shl(n, 8) % 0x1_0000_0000_0000_0000, b) == 0x100 * n + b
  {
    hide Shl, Or;
    Shl8(n);
    Shl8(Shl(1, 56));
    ShlPlus(1, 56, 8);
    Shl64(1);
    Shl8(1);
    OrDisjoint(b, n, 8);
    OrCommutes(Shl(n, 8), b);
  }

  /** to_u64_be */
  method ToU64Be(b: seq<byte>) returns (n: nat)
    requires |b| == 8
    ensures n == Number(b)
    ensures n == BigEndian(b)
  {
    n := 0;
    for i := 0 to 8
      invariant n == Number(b[..i])
    {
      NumberBound(b[..i]);
      NumberStep(b, i);
      PowerMonotone(8 * i, 56);
      ShiftIn(n, b[i]);
      n := Or(Shl(n, 8) % 0x1_0000_0000_0000_0000, b[i]);
    }
    assert b[..8] == b;
    NumberOfEight(b);
  }

  lemma NumberOfEight(b: seq<byte>)
    requires |b| == 8
    ensures Number(b) == BigEndian(b)
  {
    NumberFour(b[..4]);
    assert b[..4][0] == b[0] && b[..4][1] == b[1] && b[..4][2] == b[2] && b[..4][3] == b[3];
    assert b[..8] == b;
    hide Number;
    NumberStep(b, 4);
    NumberStep(b, 5);
    NumberStep(b, 6);
    NumberStep(b, 7);
  }

  lemma NumberFour(b: seq<byte>)
    requires |b| == 4
    ensures Number(b) == 0x100_0000 * b[0] as int + 0x1_0000 * b[1] as int + 0x100 * b[2] as int + b[3] as int
  {
    assert b[..4] == b && Number(b[..0]) == 0;
    hide Number;
    NumberStep(b, 0);
    NumberStep(b, 1);
    NumberStep(b, 2);
    NumberStep(b, 3);
  }

  /** Eight bytes as a number, the most significant first. */
  function BigEndian(b: seq<byte>): int
    requires |b| == 8
  {
    0x100_0000_0000_0000 * b[0] as int + 0x1_0000_0000_0000 * b[1] as int + 0x100_0000_0000 * b[2] as int
    + 0x1_0000_0000 * b[3] as int + 0x100_0000 * b[4] as int + 0x1_0000 * b[5] as int + 0x100 * b[6] as int
    + b[7] as int
  }

  // The receiving side

  /** What opening a record comes to; consumed is the number of bytes it took of the packet. */
  datatype Opened =
    | CloseNotify
    | Incomplete
    | Dropped(consumed: nat)
    | TooLong(consumed: nat)
    | Alerted(consumed: nat)
    | Accepted(consumed: nat, content: byte, plaintext: seq<byte>)

  ghost function BodyLength(packet: seq<byte>): nat
    requires |packet| >= DTLS_RECORD_HEADER_LENGTH
  {
    Number(packet[11..13])
  }

  /** The header is all there, describes a body that is, and has a version that will do. */
  ghost predicate Readable(packet: seq<byte>, nullCipher: bool, recordVersion: nat) {
    && |packet| >= DTLS_RECORD_HEADER_LENGTH
    && BodyLength(packet) <= |packet| - DTLS_RECORD_HEADER_LENGTH && BodyLength(packet) <= MAX_ENCRYPTED_LENGTH
    && if nullCipher then packet[1] == DTLS_MAJOR else Number(packet[1..3]) == recordVersion
  }

  lemma NumberTwo(high: byte, low: byte)
    ensures Number([high, low]) == 0x100 * (high as int) + low
  {
    NumberStep([high, low], 1);
    NumberStep([high, low], 0);
    assert [high, low][..2] == [high, low];
  }

  /** The part of dtls_open_record that decodes the header. */
  method ReadHeader(packet: seq<byte>, nullCipher: bool, recordVersion: nat) returns (readable: bool, length: nat)
    ensures readable <==> Readable(packet, nullCipher, recordVersion)
    ensures readable ==> length == BodyLength(packet)
    ensures readable <==>
              && |packet| >= 13
              && var bodyLength: nat := 0x100 * packet[11] as int + packet[12] as int;
              && 13 + bodyLength <= |packet| && bodyLength <= 16704
              && if nullCipher then packet[1] == 0xFE
                 else 0x100 * packet[1] as int + packet[2] as int == recordVersion
  {
    length := 0;
    if |packet| < DTLS_RECORD_HEADER_LENGTH {
      return false, length;
    }
    var high: nat, low: nat := packet[11], packet[12];
    length := 0x100 * high + low;
    NumberTwo(packet[11], packet[12]);
    assert packet[11..13] == [packet[11], packet[12]];
    if length > |packet| - DTLS_RECORD_HEADER_LENGTH || length > MAX_ENCRYPTED_LENGTH {
      return false, length;
    }
    var major: nat, minor: nat := packet[1], packet[2];
    NumberTwo(packet[1], packet[2]);
    assert packet[1..3] == [packet[1], packet[2]];
    var versionOk := if nullCipher then major == DTLS_MAJOR else 0x100 * major + minor == recordVersion;
    return versionOk, length;
  }

  class ReadState {
    var epoch: nat
    var bitmap: Window
    /** The numbers accepted since the read state was last changed, and all those accepted ever. */
    ghost var accepted: seq<nat>
    ghost var history: seq<nat>
    /** Whether the epoch went back to zero by overflow. */
    ghost var wrapped: bool

    ghost predicate Valid()
      reads this
    {
      && epoch < 0x1_0000
      && Stands(bitmap, Elements(accepted))
      && (forall n <- accepted :: EpochOf(n) == epoch)
      && (!wrapped ==>
            && (forall i, j | 0 <= i < j < |history| :: history[i] != history[j])
            && forall n <- history :: EpochOf(n) <= epoch && (EpochOf(n) == epoch ==> n in accepted))
    }

    constructor ()
      ensures Valid() && epoch == 0 && accepted == [] && history == [] && !wrapped
    {
      epoch, bitmap := 0, Window(0, 0);
      accepted, history, wrapped := [], [], false;
      new;
      forall i: nat ensures !Bit(0, i) {
        BitZero(i);
      }
    }

    /** dtls1_bitmap_record */
    method Record(n: nat)
      requires bitmap.Valid() && n < 0x1_0000_0000_0000_0000
      modifies this`bitmap
      ensures bitmap == Recorded(old(bitmap), n)
    {
      if n > bitmap.maxSeqNum {
        var shift := n - bitmap.maxSeqNum;
        if shift >= WINDOW {
          bitmap := bitmap.(bits := 0);
        } else {
          bitmap := bitmap.(bits := Shl(bitmap.bits, shift) % 0x1_0000_0000_0000_0000);
        }
        bitmap := bitmap.(maxSeqNum := n);
      }
      var index := bitmap.maxSeqNum - n;
      if index < WINDOW {
        bitmap := bitmap.(bits := Or(bitmap.bits, Shl(1, index)));
      }
    }

    /** dtls_open_record. Whether the cipher opens the body, and to which plaintext, is not determined here; it is given
        back, None when the cipher refuses or is not asked. */
    method OpenRecord(packet: seq<byte>, closed: bool, nullCipher: bool, recordVersion: nat)
      returns (r: Opened, plain: Option<seq<byte>>)
      requires Valid()
      modifies this`bitmap, this`accepted, this`history
      ensures Valid()
      ensures r ==
              if closed then CloseNotify
              else if packet == [] then Incomplete
              else if !Readable(packet, nullCipher, recordVersion) then Dropped(|packet|)
              else
                var n, end := Number(packet[3..11]), 13 + BodyLength(packet);
                if EpochOf(n) != old(epoch) || n in old(accepted) || n + 64 <= old(bitmap).maxSeqNum || plain.None?
                then Dropped(end)
                else if |plain.value| > 16384 then TooLong(end)
                else if packet[0] == 21 then Alerted(end)
                else Accepted(end, packet[0], plain.value)
      ensures if r.Alerted? || r.Accepted?
              then
                var n := Number(packet[3..11]);
                accepted == old(accepted) + [n] && history == old(history) + [n]
              else accepted == old(accepted) && history == old(history) && bitmap == old(bitmap)
    {
      if closed {
        return CloseNotify, None;
      }
      if packet == [] {
        return Incomplete, None;
      }
      var readable, length := ReadHeader(packet, nullCipher, recordVersion);
      if !readable {
        return Dropped(|packet|), None;
      }
      hide Readable, BodyLength, Number, EpochOf, Stands, Elements, Recorded, ShouldDiscard;
      var sequence := packet[3..11];
      EpochBytes(sequence);
      var epochHigh: nat, epochLow: nat := sequence[0], sequence[1];
      NumberTwo(sequence[0], sequence[1]);
      assert sequence[..2] == [sequence[0], sequence[1]];
      var n := ToU64Be(sequence);
      var consumed := DTLS_RECORD_HEADER_LENGTH + length;
      DiscardsExactly(bitmap, Elements(accepted), n);
      if 0x100 * epochHigh + epochLow != epoch || ShouldDiscard(bitmap, n) {
        return Dropped(consumed), None;
      }
      plain := *;
      if plain == None {
        return Dropped(consumed), None;
      }
      if |plain.value| > MAX_PLAIN_LENGTH {
        return TooLong(consumed), plain;
      }
      RecordedStands(bitmap, Elements(accepted), n);
      ElementsAppend(accepted, n);
      Record(n);
      accepted, history := accepted + [n], history + [n];
      return if packet[0] == ALERT then Alerted(consumed) else Accepted(consumed, packet[0], plain.value), plain;
    }

    /** dtls1_set_read_state */
    method SetReadState(unprocessed: bool) returns (ok: bool)
      requires Valid()
      modifies this
      ensures Valid() && history == old(history) && ok == !unprocessed
      ensures ok ==> epoch == (old(epoch) + 1) % 0x1_0000 && accepted == []
      ensures ok ==> (wrapped <==> old(wrapped) || old(epoch) == 0xFFFF)
      ensures !ok ==> unchanged(this)
    {
      if unprocessed {
        return false;
      }
      if epoch == 0xFFFF {
        wrapped := true;
      }
      epoch := (epoch + 1) % 0x1_0000;
      bitmap := Window(0, 0);
      accepted := [];
      forall i: nat ensures !Bit(0, i) {
        BitZero(i);
      }
      return true;
    }
  }
}
