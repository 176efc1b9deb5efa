/** An incoming DTLS handshake message and the bitmask of the bytes of it that have arrived. */
module DtlsFragment {
  import opened Bytes
  import opened DtlsWire

  // Bits of a mask byte

  function OneBit(k: nat): bv32
    requires k <= 8
  {
    (1 as bv32) << k
  }

  /** bit_range: bits start, inclusive, to end, exclusive. */
  function BitRange(start: nat, end: nat): bv8
    requires start <= 8 && end <= 8
  {
    (!(OneBit(start) - 1) & (OneBit(end) - 1) & 0xFF) as bv8
  }

  function BitOf(k: nat): bv8
    requires k < 8
  {
    if k == 0 then 1 else if k == 1 then 2 else if k == 2 then 4 else if k == 3 then 8
    else if k == 4 then 16 else if k == 5 then 32 else if k == 6 then 64 else 128
  }

  predicate Bit(b: bv8, k: nat)
    requires k < 8
  {
    b & BitOf(k) != 0
  }

  lemma OneBitValue(k: nat)
    requires k <= 8
    ensures OneBit(k) == if k == 8 then 256 else BitOf(k) as bv32
  {
    if k == 0 {} else if k == 1 {} else if k == 2 {} else if k == 3 {}
    else if k == 4 {} else if k == 5 {} else if k == 6 {} else if k == 7 {} else {}
  }

  lemma BitRangeBits(start: nat, end: nat, k: nat)
    requires start <= 8 && end <= 8 && k < 8
    ensures Bit(BitRange(start, end), k) <==> start <= k < end
  {
    OneBitValue(start);
    OneBitValue(end);
  }

  lemma OrBits(a: bv8, b: bv8, k: nat)
    requires k < 8
    ensures Bit(a | b, k) <==> Bit(a, k) || Bit(b, k)
  {}

  /** A byte is determined by its bits. */
  lemma SameBits(a: bv8, b: bv8)
    requires forall k | 0 <= k < 8 :: Bit(a, k) == Bit(b, k)
    ensures a == b
  {
    assert Bit(a, 0) == Bit(b, 0) && Bit(a, 1) == Bit(b, 1) && Bit(a, 2) == Bit(b, 2) && Bit(a, 3) == Bit(b, 3);
    assert Bit(a, 4) == Bit(b, 4) && Bit(a, 5) == Bit(b, 5) && Bit(a, 6) == Bit(b, 6) && Bit(a, 7) == Bit(b, 7);
  }

  lemma AllBits(k: nat)
    requires k < 8
    ensures Bit(0xFF, k)
  {}

  // The bytes a mask stands for

  predicate Marked(mask: seq<bv8>, i: nat)
    requires i < 8 * |mask|
  {
    Bit(mask[i / 8], i % 8)
  }

  ghost function MarkedSet(mask: seq<bv8>): set<nat> {
    set i: nat | i < 8 * |mask| && Marked(mask, i)
  }

  ghost function Range(start: nat, end: nat): (r: set<nat>)
    ensures forall i: nat :: i in r <==> start <= i < end
  {
    if end <= start then {} else Range(start, end - 1) + {end - 1}
  }

  /** What receiving the bytes start to end of a message makes of the set of bytes received before;
      None: every byte has arrived, and the mask is released. */
  ghost function Received(msgLen: nat, before: set<nat>, start: nat, end: nat): Option<set<nat>> {
    if start == end then Some(before)
    else if before + Range(start, end) == Range(0, msgLen) then None
    else Some(before + Range(start, end))
  }

  // A sequence of marks, as arriving fragments make them

  ghost function MarkAll(msgLen: nat, ranges: seq<(nat, nat)>): Option<set<nat>> {
    if ranges == [] then Some({})
    else
      var (start, end) := ranges[|ranges| - 1];
      match MarkAll(msgLen, ranges[..|ranges| - 1])
      case None => None
      case Some(before) => Received(msgLen, before, start, end)
  }

  ghost predicate Covered(ranges: seq<(nat, nat)>, i: nat) {
    exists r :: r in ranges && r.0 <= i < r.1
  }

  /** Whatever ranges are marked, overlapping, empty and in any order: a bit is set exactly when a range covered
      its byte, no bit lies beyond the message, and the mask is released exactly when every byte is covered. */
  lemma {:induction false} MaskIsUnion(msgLen: nat, ranges: seq<(nat, nat)>)
    requires msgLen > 0 && forall r <- ranges :: r.0 <= r.1 <= msgLen
    ensures MarkAll(msgLen, ranges) == None <==> forall i: nat | i < msgLen :: Covered(ranges, i)
    ensures MarkAll(msgLen, ranges).Some? ==>
              forall i: nat :: i in MarkAll(msgLen, ranges).value <==> Covered(ranges, i)
    ensures forall i: nat | Covered(ranges, i) :: i < msgLen
  {
    if ranges == [] {
      assert !Covered(ranges, 0);
    } else {
      var last := ranges[|ranges| - 1];
      var init := ranges[..|ranges| - 1];
      assert ranges == init + [last];
      MaskIsUnion(msgLen, init);
      assert last in ranges;
      forall i: nat ensures Covered(ranges, i) <==> Covered(init, i) || last.0 <= i < last.1 {
        if Covered(init, i) {
          var r :| r in init && r.0 <= i < r.1;
          assert r in ranges;
        }
      }
      if MarkAll(msgLen, init).Some? {
        var before := MarkAll(msgLen, init).value;
        if last.0 == last.1 {
          assert forall i: nat :: Covered(ranges, i) <==> i in before;
        } else if before + Range(last.0, last.1) == Range(0, msgLen) {
          assert forall i: nat :: i in Range(0, msgLen) <==> Covered(ranges, i);
        } else {
          assert forall i: nat :: i in before + Range(last.0, last.1) <==> Covered(ranges, i);
        }
      }
    }
  }

  // The message as far as it has arrived

  /** A message under reassembly: its header fields and, by position, the body bytes that have arrived. */
  datatype Partial = Partial(msgType: byte, seqNum: nat, msgLen: nat, got: map<nat, byte>) {
    ghost predicate Complete() {
      forall i: nat | i < msgLen :: i in got
    }

    /** The body of a complete message. */
    ghost function Body(): seq<byte>
      requires Complete()
    {
      seq(msgLen, i requires 0 <= i < msgLen => got[i])
    }
  }

  function Empty(h: Header): Partial {
    Partial(h.msgType, h.seqNum, h.msgLen, map[])
  }

  ghost function Placed(body: seq<byte>, off: nat): map<nat, byte> {
    var arrived := Range(off, off + |body|);
    map i | i in arrived :: body[i - off]
  }

  ghost function Stored(p: Partial, off: nat, body: seq<byte>): Partial {
    p.(got := p.got + Placed(body, off))
  }

  /** The message whose body is in a buffer as far as the mask says so. */
  ghost function Held(msgType: byte, seqNum: nat, buffer: seq<byte>, mask: Option<set<nat>>): Partial {
    var arrived := if mask.None? then Range(0, |buffer|) else mask.value;
    Partial(msgType, seqNum, |buffer|, map i | i in arrived && i < |buffer| :: buffer[i])
  }

  lemma HeldAfter(msgType: byte, seqNum: nat, buffer: seq<byte>, before: set<nat>, off: nat, body: seq<byte>)
    requires off + |body| <= |buffer|
    ensures Held(msgType, seqNum, buffer[..off] + body + buffer[off + |body|..],
                 Received(|buffer|, before, off, off + |body|)) ==
            Stored(Held(msgType, seqNum, buffer, Some(before)), off, body)
  {
    var after := buffer[..off] + body + buffer[off + |body|..];
    var l := Held(msgType, seqNum, after, Received(|buffer|, before, off, off + |body|));
    var r := Stored(Held(msgType, seqNum, buffer, Some(before)), off, body);
    assert forall i: nat :: i in l.got <==> i in r.got;
  }

  // The bitmask

  ghost predicate Confined(mask: seq<bv8>, msgLen: nat) {
    forall i: nat | msgLen <= i < 8 * |mask| :: !Marked(mask, i)
  }

  ghost predicate Full(mask: seq<bv8>, msgLen: nat)
    requires msgLen <= 8 * |mask|
  {
    forall i: nat | i < msgLen :: Marked(mask, i)
  }

  lemma AddBits(b: bv8, start: nat, end: nat, k: nat)
    requires start <= 8 && end <= 8 && k < 8
    ensures Bit(b | BitRange(start, end), k) <==> Bit(b, k) || start <= k < end
  {
    BitRangeBits(start, end, k);
    OrBits(b, BitRange(start, end), k);
  }

  /** The lowest n bits of a byte with no others are all set exactly when it is bit_range(0, n). */
  lemma LowBits(b: bv8, n: nat)
    requires n <= 8 && forall k: nat | n <= k < 8 :: !Bit(b, k)
    ensures b == BitRange(0, n) <==> forall k: nat | k < n :: Bit(b, k)
  {
    forall k: nat | k < 8 ensures Bit(BitRange(0, n), k) <==> k < n {
      BitRangeBits(0, n, k);
    }
    hide Bit, BitRange;
    if forall k: nat | k < n :: Bit(b, k) {
      SameBits(b, BitRange(0, n));
    }
  }

  lemma WholeRange()
    ensures BitRange(0, 8) == 0xFF
  {}

  /** LowBits for byte j of a mask. */
  lemma ByteFull(mask: seq<bv8>, j: nat, n: nat)
    requires j < |mask| && n <= 8 && forall i: nat | 8 * j + n <= i < 8 * j + 8 :: !Marked(mask, i)
    ensures mask[j] == BitRange(0, n) <==> forall i: nat | 8 * j <= i < 8 * j + n :: Marked(mask, i)
  {
    forall k: nat | k < 8 ensures Marked(mask, 8 * j + k) <==> Bit(mask[j], k) {}
    hide Bit, BitRange;
    LowBits(mask[j], n);
    if forall k: nat | k < n :: Bit(mask[j], k) {
      forall i: nat | 8 * j <= i < 8 * j + n ensures Marked(mask, i) {
        assert Bit(mask[j], i - 8 * j);
      }
    }
    if forall i: nat | 8 * j <= i < 8 * j + n :: Marked(mask, i) {
      forall k: nat | k < n ensures Bit(mask[j], k) {
        assert Marked(mask, 8 * j + k);
      }
    }
  }

  /** Byte j of a mask, b before, once the bits 8 * low + from to 8 * high + to are set. */
  function ByteAfter(b: bv8, j: nat, low: nat, from: nat, high: nat, to: nat): bv8
    requires from < 8 && to < 8
  {
    if j < low || high < j then b
    else if low == high then b | BitRange(from, to)
    else if j == low then b | BitRange(from, 8)
    else if j < high then 0xFF
    else if to == 0 then b
    else b | BitRange(0, to)
  }

  lemma ByteAfterBits(b: bv8, j: nat, low: nat, from: nat, high: nat, to: nat, k: nat)
    requires from < 8 && to < 8 && k < 8
    ensures Bit(ByteAfter(b, j, low, from, high, to), k) <==>
            Bit(b, k) || 8 * low + from <= 8 * j + k < 8 * high + to
  {
    hide Bit, BitRange;
    if j < low {
      assert 8 * j + 8 <= 8 * low;
    } else if high < j {
      assert 8 * high + 8 <= 8 * j;
    } else if low == high {
      AddBits(b, from, to, k);
    } else if j == low {
      assert 8 * j + 8 <= 8 * high;
      AddBits(b, from, 8, k);
    } else if j < high {
      assert 8 * low + 8 <= 8 * j && 8 * j + 8 <= 8 * high;
      AllBits(k);
    } else {
      assert 8 * low + 8 <= 8 * j;
      AddBits(b, 0, to, k);
    }
  }

  lemma FullIsRange(mask: seq<bv8>, msgLen: nat)
    requires Confined(mask, msgLen) && msgLen <= 8 * |mask|
    ensures Full(mask, msgLen) <==> MarkedSet(mask) == Range(0, msgLen)
  {
    if Full(mask, msgLen) {
      forall i: nat ensures i in MarkedSet(mask) <==> i in Range(0, msgLen) {}
    } else {
      var i: nat :| i < msgLen && !Marked(mask, i);
      assert i in Range(0, msgLen) && i !in MarkedSet(mask);
    }
  }

  lemma MarkedAfter(before: seq<bv8>, after: seq<bv8>, start: nat, end: nat)
    requires |before| == |after| && start <= end <= 8 * |before|
    requires forall j | 0 <= j < |before| ::
               after[j] == ByteAfter(before[j], j, start / 8, start % 8, end / 8, end % 8)
    ensures forall i: nat | i < 8 * |before| :: Marked(after, i) <==> Marked(before, i) || start <= i < end
    ensures MarkedSet(after) == MarkedSet(before) + Range(start, end)
  {
    hide ByteAfter, Bit;
    forall i: nat | i < 8 * |before|
      ensures Marked(after, i) <==> Marked(before, i) || start <= i < end
    {
      ByteAfterBits(before[i / 8], i / 8, start / 8, start % 8, end / 8, end % 8, i % 8);
    }
  }

  class HmFragment {
    const msgType: byte
    const seqNum: nat
    const msgLen: nat
    const data: array<byte>
    var reassembly: array?<bv8>

    ghost predicate Valid()
      reads this, data, reassembly
    {
      && Header(msgType, msgLen, seqNum, 0, msgLen).Fits()
      && data.Length == HEADER_LENGTH + msgLen
      && data[..HEADER_LENGTH] == Encode(Header(msgType, msgLen, seqNum, 0, msgLen))
      && (reassembly != null ==> ValidMask() && !Full(reassembly[..], msgLen))
    }

    ghost predicate ValidMask()
      requires reassembly != null
      reads this, reassembly
    {
      msgLen > 0 && reassembly.Length == (msgLen + 7) / 8 && Confined(reassembly[..], msgLen)
    }

    ghost function Mask(): (mask: Option<set<nat>>)
      reads this, reassembly
      ensures mask == None <==> reassembly == null
    {
      if reassembly == null then None else Some(MarkedSet(reassembly[..]))
    }

    /** What the fragment holds: every byte once the mask is released, before that the marked bytes. */
    ghost function Value(): (p: Partial)
      requires Valid()
      reads this, data, reassembly
      ensures p.msgType == msgType && p.seqNum == seqNum && p.msgLen == msgLen
    {
      Held(msgType, seqNum, Buffer(), Mask())
    }

    ghost function Buffer(): (b: seq<byte>)
      requires data.Length == HEADER_LENGTH + msgLen
      reads data
      ensures |b| == msgLen
    {
      data[HEADER_LENGTH..]
    }

    /** dtls1_hm_fragment_new */
    constructor (h: Header)
      requires h.Fits()
      ensures Valid() && fresh(data) && (reassembly != null ==> fresh(reassembly))
      ensures Value() == Empty(h)
    {
      msgType, seqNum, msgLen := h.msgType, h.seqNum, h.msgLen;
      var header := Encode(Header(h.msgType, h.msgLen, h.seqNum, 0, h.msgLen));
      data := new byte[HEADER_LENGTH + h.msgLen];
      reassembly := null;
      new;
      forall i | 0 <= i < HEADER_LENGTH {
        data[i] := header[i];
      }
      assert data[..HEADER_LENGTH] == header;
      if msgLen > 0 {
        reassembly := new bv8[(msgLen + 7) / 8](i => 0);
        assert !Marked(reassembly[..], 0);
      }
    }

    /** dtls1_hm_fragment_mark */
    method Mark(start: nat, end: nat)
      requires Valid() && reassembly != null && start <= end <= msgLen
      modifies this`reassembly, reassembly
      ensures Valid() && (reassembly == null || reassembly == old(reassembly))
      ensures Mask() == Received(msgLen, old(Mask()).value, start, end)
      ensures Buffer() == old(Buffer())
    {
      if start == end {
        return;
      }
      SetBits(start, end);
      var full := IsFull();
      FullIsRange(reassembly[..], msgLen);
      if full {
        reassembly := null;
      }
    }

    /** The loop of dtls1_hm_fragment_mark that sets the bits, a byte of the mask at a time. */
    method SetBits(start: nat, end: nat)
      requires reassembly != null && ValidMask() && start < end <= msgLen
      modifies reassembly
      ensures ValidMask()
      ensures MarkedSet(reassembly[..]) == old(MarkedSet(reassembly[..])) + Range(start, end)
    {
      hide BitRange;
      var first, last := start / 8, end / 8;
      var from, to := start % 8, end % 8;
      ghost var before := reassembly[..];
      if first == last {
        reassembly[first] := reassembly[first] | BitRange(from, to);
      } else {
        reassembly[first] := reassembly[first] | BitRange(from, 8);
        for i := first + 1 to last
          invariant forall j | 0 <= j < reassembly.Length ::
                      reassembly[j] == if j < i then ByteAfter(before[j], j, first, from, last, to) else before[j]
        {
          reassembly[i] := 0xFF;
        }
        if to != 0 {
          reassembly[last] := reassembly[last] | BitRange(0, to);
        }
      }
      MarkedAfter(before, reassembly[..], start, end);
    }

    /** The loop of dtls1_hm_fragment_mark that checks whether every byte of the message is marked. */
    method IsFull() returns (full: bool)
      requires reassembly != null && ValidMask()
      ensures full == Full(reassembly[..], msgLen)
    {
      ghost var mask := reassembly[..];
      hide Bit, BitRange, Marked;
      WholeRange();
      for i := 0 to msgLen / 8
        invariant forall k: nat | k < 8 * i :: Marked(mask, k)
      {
        ByteFull(mask, i, 8);
        if reassembly[i] != 0xFF {
          return false;
        }
      }
      if msgLen % 8 != 0 {
        ByteFull(mask, msgLen / 8, msgLen % 8);
      }
      return msgLen % 8 == 0 || reassembly[msgLen / 8] == BitRange(0, msgLen % 8);
    }

    /** Copies a fragment of the body into place and marks it. */
    method Store(off: nat, body: seq<byte>)
      requires Valid() && reassembly != null && off + |body| <= msgLen
      modifies this`reassembly, data, reassembly
      ensures Valid() && (reassembly == null || reassembly == old(reassembly))
      ensures Value() == Stored(old(Value()), off, body)
    {
      hide Buffer, Mask, MarkedSet, Held, Received, Stored, Full, ValidMask, Encode;
      ghost var buffer := Buffer();
      ghost var mask := Mask().value;
      CopyBody(off, body);
      Mark(off, off + |body|);
      HeldAfter(msgType, seqNum, buffer, mask, off, body);
    }

    method CopyBody(off: nat, body: seq<byte>)
      requires Valid() && off + |body| <= msgLen
      modifies data
      ensures Valid() && Mask() == old(Mask())
      ensures Buffer() == old(Buffer())[..off] + body + old(Buffer())[off + |body|..]
    {
      forall i | 0 <= i < |body| {
        data[HEADER_LENGTH + off + i] := body[i];
      }
      assert data[..HEADER_LENGTH] == old(data[..HEADER_LENGTH]);
      assert reassembly != null ==> reassembly[..] == old(reassembly[..]);
      assert data[HEADER_LENGTH..] == old(Buffer())[..off] + body + old(Buffer())[off + |body|..];
    }

    /** A fragment whose mask is released is complete, and only such a fragment. */
    lemma ReleasedIsComplete()
      requires Valid()
      ensures reassembly == null <==> Value().Complete()
      ensures Value().Complete() ==> data[HEADER_LENGTH..] == Value().Body()
    {
      if reassembly != null {
        var i: nat :| i < msgLen && !Marked(reassembly[..], i);
        assert i !in Value().got;
      }
    }
  }
}
