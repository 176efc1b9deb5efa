/** The encoder: an output stream over a buffer (or one that only counts), and the walk over a message. */
module PbEncode {
  import opened Bytes
  import Varint
  import opened PbTypes
  import opened PbWire
  import PbIter

  /** A stream's position, limit and memory at one moment. */
  datatype Snapshot = Snapshot(sizing: bool, state: nat, written: nat, max: nat, memory: seq<byte>) {
    predicate Valid() {
      sizing || (written <= max && state + (max - written) <= |memory|)
    }

    /** The limit leaves room for n more bytes; a sizing stream has no limit. */
    predicate HasRoom(n: nat) {
      sizing || written + n <= max
    }

    /** The stream after bs has been written at its position, and nothing else. */
    function Put(bs: seq<byte>): (s: Snapshot)
      requires Valid() && HasRoom(|bs|)
      ensures s.Valid()
    {
      if sizing then this.(written := written + |bs|)
      else Snapshot(false, state + |bs|, written + |bs|, max, memory[..state] + bs + memory[state + |bs|..])
    }

    /** t is this stream later: the memory outside the room it had is as it was. */
    ghost predicate Confines(t: Snapshot) {
      && Valid() && t.Valid() && t.sizing == sizing && t.max == max && |t.memory| == |memory|
      && (!sizing ==>
            forall k | 0 <= k < |memory| && !(state <= k < state + (max - written)) :: t.memory[k] == memory[k])
      && (!sizing ==> state <= t.state && t.state - state == t.written - written)
    }
  }

  lemma PutConfines(s: Snapshot, bs: seq<byte>)
    requires s.Valid() && s.HasRoom(|bs|)
    ensures s.Confines(s.Put(bs))
  {}

  lemma PutPut(s: Snapshot, a: seq<byte>, b: seq<byte>)
    requires s.Valid() && s.HasRoom(|a| + |b|)
    ensures s.Put(a).Put(b) == s.Put(a + b)
  {
    if !s.sizing {
      assert s.Put(a).Put(b).memory == s.Put(a + b).memory;
    }
  }

  lemma ConfinesTransitive(s: Snapshot, t: Snapshot, u: Snapshot)
    requires s.Confines(t) && t.Confines(u)
    ensures s.Confines(u)
  {}

  /** What an encoder of the bytes e (None: it fails) may do to a stream. */
  ghost predicate Encodes(s: Snapshot, e: Option<seq<byte>>, ok: bool, t: Snapshot) {
    && s.Confines(t)
    && ok == (e.Some? && s.HasRoom(|e.value|))
    && (ok ==> t == s.Put(e.value))
  }

  /** One encoder after another. */
  lemma EncodesBoth(s: Snapshot, a: seq<byte>, t: Snapshot, b: Option<seq<byte>>, ok: bool, u: Snapshot)
    requires Encodes(s, Some(a), true, t) && Encodes(t, b, ok, u)
    ensures Encodes(s, if b.Some? then Some(a + b.value) else None, ok, u)
  {
    ConfinesTransitive(s, t, u);
    if b.Some? && s.HasRoom(|a| + |b.value|) {
      PutPut(s, a, b.value);
    }
  }

  /** An encoder that fails makes whatever comes after it fail. */
  lemma EncodesNot(s: Snapshot, a: Option<seq<byte>>, t: Snapshot, b: Option<seq<byte>>)
    requires Encodes(s, a, false, t)
    ensures Encodes(s, if a.Some? && b.Some? then Some(a.value + b.value) else None, false, t)
    ensures Encodes(s, Then2(a, b), false, t)
  {}

  lemma Spliced(before: seq<byte>, after: seq<byte>, start: nat, bs: seq<byte>)
    requires |after| == |before| && start + |bs| <= |before|
    requires forall k | 0 <= k < |before| :: after[k] == if start <= k < start + |bs| then bs[k - start] else before[k]
    ensures after == before[..start] + bs + before[start + |bs|..]
  {}

  class OStream {
    const dest: array?<byte>
    var state: nat
    const maxSize: nat
    var bytesWritten: nat

    ghost function Now(): Snapshot
      reads this, dest
    {
      Snapshot(dest == null, state, bytesWritten, maxSize, if dest == null then [] else dest[..])
    }

    ghost predicate Valid()
      reads this, dest
    {
      Now().Valid()
    }

    /** pb_ostream_from_buffer, and the substream of a submessage. */
    constructor FromBuffer(buf: array<byte>, start: nat, size: nat)
      requires start + size <= buf.Length
      ensures Valid() && dest == buf && Now() == Snapshot(false, start, 0, size, buf[..])
    {
      dest, state, maxSize, bytesWritten := buf, start, size, 0;
    }

    /** PB_OSTREAM_SIZING */
    constructor Sizing()
      ensures Valid() && dest == null && Now() == Snapshot(true, 0, 0, 0, [])
    {
      dest, state, maxSize, bytesWritten := null, 0, 0, 0;
    }

    /** buf_write */
    method BufWrite(buf: seq<byte>)
      requires Valid() && dest != null && Now().HasRoom(|buf|)
      modifies `state, dest
      ensures dest[..] == old(Now().Put(buf).memory)
      ensures state == old(state) + |buf|
    {
      var start := state;
      state := start + |buf|;
      ghost var before := dest[..];
      for i := 0 to |buf|
        invariant state == start + |buf|
        invariant forall k | 0 <= k < dest.Length ::
                    dest[k] == if start <= k < start + i then buf[k - start] else before[k]
      {
        dest[start + i] := buf[i];
      }
      Spliced(before, dest[..], start, buf);
    }

    /** pb_write */
    method Write(buf: seq<byte>) returns (ok: bool)
      requires Valid()
      modifies this, dest
      ensures Encodes(old(Now()), Some(buf), ok, Now())
    {
      PutConfinesIfRoom(Now(), buf);
      if dest != null {
        if bytesWritten + |buf| > maxSize {
          return false;
        }
        BufWrite(buf);
      }
      bytesWritten := bytesWritten + |buf|;
      return true;
    }

    /** pb_write with no buffer: a sizing stream is told how many bytes would have come. */
    method WriteNothing(ghost bs: seq<byte>, count: nat) returns (ok: bool)
      requires Valid() && dest == null && count == |bs|
      modifies this
      ensures Encodes(old(Now()), Some(bs), ok, Now())
    {
      bytesWritten := bytesWritten + count;
      return true;
    }

    /** pb_encode_varint */
    method EncodeVarint(value: nat) returns (ok: bool)
      requires Valid() && value < 0x1_0000_0000_0000_0000
      modifies this, dest
      ensures Encodes(old(Now()), Some(Varint.Encode(value)), ok, Now())
    {
      if value <= 0x7F {
        ok := Write([value]);
        return;
      }
      var bytes := VarintBytes(value);
      ok := Write(bytes);
    }

    /** pb_encode_svarint */
    method EncodeSvarint(value: int) returns (ok: bool)
      requires Valid() && -0x8000_0000_0000_0000 <= value < 0x8000_0000_0000_0000
      modifies this, dest
      ensures Encodes(old(Now()), Some(Varint.Encode(Varint.ZigZag(value))), ok, Now())
    {
      var zigzagged: nat;
      if value < 0 {
        zigzagged := 0xFFFF_FFFF_FFFF_FFFF - (value + 0x1_0000_0000_0000_0000) * 2 % 0x1_0000_0000_0000_0000;
      } else {
        zigzagged := value * 2;
      }
      ok := EncodeVarint(zigzagged);
    }

    /** pb_encode_tag */
    method EncodeTag(wireType: nat, tag: nat) returns (ok: bool)
      requires Valid() && wireType < 8 && tag < 0x1_0000_0000
      modifies this, dest
      ensures Encodes(old(Now()), Some(Tag(tag, wireType)), ok, Now())
    {
      ok := EncodeVarint(tag * 8 + wireType);
    }

    /** pb_encode_string */
    method EncodeString(buffer: seq<byte>) returns (ok: bool)
      requires Valid() && |buffer| < 0x1_0000_0000_0000_0000
      modifies this, dest
      ensures Encodes(old(Now()), Some(Prefixed(buffer)), ok, Now())
    {
      ghost var s := Now();
      ok := EncodeVarint(|buffer|);
      if !ok {
        EncodesNot(s, Some(Varint.Encode(|buffer|)), Now(), Some(buffer));
        return;
      }
      ghost var t := Now();
      ok := Write(buffer);
      EncodesBoth(s, Varint.Encode(|buffer|), t, Some(buffer), ok, Now());
    }
  }

  lemma PutConfinesIfRoom(s: Snapshot, bs: seq<byte>)
    requires s.Valid()
    ensures s.HasRoom(|bs|) ==> s.Confines(s.Put(bs))
  {}

  /** What the loop below leaves in its buffer: the varint with the top bit set on every byte. */
  ghost function Groups(v: nat): (bs: seq<byte>)
    ensures v > 0 ==> bs != [] && bs[|bs| - 1] >= 128
  {
    if v == 0 then [] else [v % 128 + 128] + Groups(v / 128)
  }

  lemma {:induction false} GroupsLast(v: nat)
    requires v > 0
    ensures Varint.Encode(v) == Groups(v)[|Groups(v)| - 1 := Groups(v)[|Groups(v)| - 1] - 128]
  {
    if v >= 128 {
      GroupsLast(v / 128);
    } else {
      assert Groups(v / 128) == [];
    }
  }

  lemma GroupsTurn(whole: seq<byte>, done: seq<byte>, v: nat)
    requires v > 0 && whole == done + Groups(v)
    ensures |done| < |whole|
    ensures var b: byte := v % 128 + 128; whole == done + [b] + Groups(v / 128)
  {}

  /** The loop of pb_encode_varint; its local buffer holds ten bytes. */
  method VarintBytes(value: nat) returns (buffer: seq<byte>)
    requires 0x7F < value < 0x1_0000_0000_0000_0000
    ensures buffer == Varint.Encode(value) && |buffer| <= 10
  {
    GroupsLength(value);
    GroupsLast(value);
    hide *;
    buffer := [];
    var v: nat := value;
    while v != 0
      invariant |buffer| <= 10 && Groups(value) == buffer + Groups(v)
      decreases v
    {
      GroupsTurn(Groups(value), buffer, v);
      var b: byte := v % 128 + 128;
      buffer := buffer + [b];
      v := v / 128;
    }
    NoGroups(buffer);
    var last: byte := buffer[|buffer| - 1] - 128;
    buffer := buffer[|buffer| - 1 := last];
  }

  lemma GroupsLength(v: nat)
    requires 0 < v < 0x1_0000_0000_0000_0000
    ensures |Groups(v)| <= 10
  {
    Varint.Encode64Length(v);
    GroupsLast(v);
  }

  lemma NoGroups(done: seq<byte>)
    ensures done + Groups(0) == done
  {}

  // Walking a message

  /** No submessage and no packed array is too long for size_t to count its bytes. */
  ghost predicate SizedValue(f: Field, v: Value)
    requires FitsValue(f, v) && (f.ltype.LSubmessage? ==> Typed(f.ltype.desc))
    decreases f, 0
  {
    match f.ltype
    case LSubmessage(desc) =>
      && Sized(desc, v.msg)
      && (EncodeMessage(desc, v.msg).Some? ==> |EncodeMessage(desc, v.msg).value| < 0x1_0000_0000_0000_0000)
    case LBytes => |v.data| < 0x1_0000_0000_0000_0000
    case _ => true
  }

  ghost predicate SizedSlot(f: Field, unions: nat, slot: Slot)
    requires TypedField(f, unions) && FitsSlot(f, slot)
    decreases f, 1
  {
    if f.rule.Repeated? then
      && (forall k | 0 <= k < slot.count && k < |slot.items| :: SizedValue(f, slot.items[k]))
      && (slot.count <= |slot.items| && EncodeItems(f, slot.items[..slot.count]).Some?
          ==> |EncodeItems(f, slot.items[..slot.count]).value| < 0x1_0000_0000_0000_0000)
    else SizedValue(f, slot.v)
  }

  ghost predicate Sized(d: Desc, m: Message)
    requires Typed(d) && FitsMessage(d, m)
    decreases d
  {
    forall i | 0 <= i < |d.fields| :: SizedSlot(d.fields[i], d.unions, m.slots[i])
  }

  /** pb_encode_tag_for_field */
  method EncodeTagForField(stream: OStream, f: Field) returns (ok: bool)
    requires stream.Valid() && f.tag < 0x1_0000_0000
    modifies stream, stream.dest
    ensures Encodes(old(stream.Now()), Some(Tag(f.tag, WireType(f.ltype))), ok, stream.Now())
  {
    var wireType: nat;
    match f.ltype {
      case LVarint | LUVarint | LSVarint => wireType := WT_VARINT;
      case LFixed32 => wireType := WT_32BIT;
      case LFixed64 => wireType := WT_64BIT;
      case LBytes | LString | LSubmessage(_) | LFixedBytes => wireType := WT_STRING;
    }
    ok := stream.EncodeTag(wireType, f.tag);
  }

  /** pb_enc_varint, pb_enc_uvarint, pb_enc_svarint, pb_enc_fixed32 and pb_enc_fixed64 */
  method EncodeScalarField(stream: OStream, f: Field, v: Value) returns (ok: bool)
    requires stream.Valid() && Packable(f.ltype) && FitsValue(f, v)
    modifies stream, stream.dest
    ensures Encodes(old(stream.Now()), EncodeScalar(f, v), ok, stream.Now())
  {
    if f.ltype.LFixed32? {
      ok := stream.Write(Varint.Fixed(v.v, 4));
      return;
    }
    if f.ltype.LFixed64? {
      ok := stream.Write(Varint.Fixed(v.v, 8));
      return;
    }
    if f.dataSize != 1 && f.dataSize != 2 && f.dataSize != 4 && f.dataSize != 8 {
      return false;
    }
    if f.ltype.LVarint? {
      ok := stream.EncodeVarint(ToUnsigned(v.v));
    } else if f.ltype.LUVarint? {
      ok := stream.EncodeVarint(v.v);
    } else {
      ok := stream.EncodeSvarint(v.v);
    }
  }

  /** The loop of pb_enc_string: the length of a string that may lack its NUL. */
  method StringLength(buf: seq<byte>) returns (size: nat)
    ensures size <= |buf| && buf[..size] == Text(buf)
  {
    size := 0;
    while size < |buf| && buf[size] != 0
      invariant size <= |buf| && 0 !in buf[..size]
    {
      size := size + 1;
    }
    TextEnds(buf, size);
  }

  lemma {:induction false} TextEnds(buf: seq<byte>, size: nat)
    requires size <= |buf| && 0 !in buf[..size] && (size < |buf| ==> buf[size] == 0)
    ensures Text(buf) == buf[..size]
  {
    if size > 0 {
      assert buf[0] in buf[..size];
      assert buf[1..][..size - 1] == buf[1..size];
      assert forall x | x in buf[1..size] :: x in buf[..size];
      TextEnds(buf[1..], size - 1);
    }
  }

  /** The encoder of f's type. */
  method EncodeFieldValue(stream: OStream, f: Field, v: Value) returns (ok: bool)
    requires stream.Valid() && FitsValue(f, v) && f.dataSize < 0x1_0000_0000
    requires f.ltype.LSubmessage? ==> Typed(f.ltype.desc)
    requires SizedValue(f, v)
    modifies stream, stream.dest
    ensures Encodes(old(stream.Now()), EncodeValue(f, v), ok, stream.Now())
    decreases f, 0
  {
    match f.ltype {
      case LBytes =>
        if |v.data| + BYTES_HEADER > f.dataSize {
          return false;
        }
        ok := stream.EncodeString(v.data);
      case LString =>
        var size := StringLength(v.buf);
        ok := stream.EncodeString(v.buf[..size]);
      case LFixedBytes => ok := stream.EncodeString(v.data);
      case LSubmessage(desc) => ok := EncodeSubmessage(stream, desc, v.msg);
      case LVarint | LUVarint | LSVarint | LFixed32 | LFixed64 => ok := EncodeScalarField(stream, f, v);
    }
  }

  /** pb_get_encoded_size */
  method GetEncodedSize(d: Desc, m: Message) returns (ok: bool, size: nat)
    requires Typed(d) && FitsMessage(d, m) && Sized(d, m)
    ensures ok == EncodeMessage(d, m).Some?
    ensures ok ==> size == |EncodeMessage(d, m).value|
    decreases d, 3
  {
    var stream := new OStream.Sizing();
    ok := Encode(stream, d, m);
    size := stream.bytesWritten;
  }

  /** A walk through a stream limited to the bytes it needs fills it, and its parent stream with it. */
  lemma Substream(t: Snapshot, body: seq<byte>, ok: bool, sub: Snapshot, u: Snapshot)
    requires t.Valid() && !t.sizing && t.HasRoom(|body|)
    requires Encodes(Snapshot(false, t.state, 0, |body|, t.memory), Some(body), ok, sub)
    requires u == Snapshot(false, sub.state, t.written + sub.written, t.max, sub.memory)
    ensures ok && sub.written == |body| && Encodes(t, Some(body), true, u)
  {
    PutConfines(t, body);
  }

  /** pb_encode_submessage: once to count, once to write through a stream limited to the count. */
  method EncodeSubmessage(stream: OStream, d: Desc, m: Message) returns (ok: bool)
    requires stream.Valid() && Typed(d) && FitsMessage(d, m) && Sized(d, m)
    requires EncodeMessage(d, m).Some? ==> |EncodeMessage(d, m).value| < 0x1_0000_0000_0000_0000
    modifies stream, stream.dest
    ensures Encodes(old(stream.Now()),
                    if EncodeMessage(d, m).Some? then Some(Prefixed(EncodeMessage(d, m).value)) else None,
                    ok, stream.Now())
    decreases d, 4
  {
    var sized, size := GetEncodedSize(d, m);
    if !sized {
      return false;
    }
    ghost var body := EncodeMessage(d, m).value;
    ghost var s := stream.Now();
    hide EncodeMessage, Typed, FitsMessage, Snapshot.Confines, Snapshot.Put;
    ok := stream.EncodeVarint(size);
    if !ok {
      EncodesNot(s, Some(Varint.Encode(size)), stream.Now(), Some(body));
      return;
    }
    ghost var t := stream.Now();
    if stream.dest == null {
      ok := stream.WriteNothing(body, size);
      EncodesBoth(s, Varint.Encode(size), t, Some(body), ok, stream.Now());
      return;
    }
    if stream.bytesWritten + size > stream.maxSize {
      EncodesBoth(s, Varint.Encode(size), t, Some(body), false, t);
      return false;
    }
    var substream := new OStream.FromBuffer(stream.dest, stream.state, size);
    ghost var sub := substream.Now();
    ok := Encode(substream, d, m);
    stream.bytesWritten := stream.bytesWritten + substream.bytesWritten;
    stream.state := substream.state;
    Substream(t, body, ok, substream.Now(), stream.Now());
    // The second walk writes exactly what the first one counted.
    assert ok && substream.bytesWritten == size;
    EncodesBoth(s, Varint.Encode(size), t, Some(body), true, stream.Now());
  }

  /** The bytes of an entry of an array: with a tag of its own unless the array is packed. */
  ghost function ItemBytes(f: Field, v: Value): Option<seq<byte>>
    requires FitsValue(f, v) && (f.ltype.LSubmessage? ==> Typed(f.ltype.desc))
  {
    Then(if Packable(f.ltype) then [] else Tag(f.tag, WireType(f.ltype)), EncodeValue(f, v))
  }

  /** One turn of the loops of encode_array. */
  method EncodeItem(stream: OStream, f: Field, v: Value) returns (ok: bool)
    requires stream.Valid() && f.tag < 0x1_0000_0000 && f.dataSize < 0x1_0000_0000
    requires (f.ltype.LSubmessage? ==> Typed(f.ltype.desc)) && FitsValue(f, v) && SizedValue(f, v)
    modifies stream, stream.dest
    ensures Encodes(old(stream.Now()), ItemBytes(f, v), ok, stream.Now())
    decreases f, 1
  {
    ghost var s := stream.Now();
    ghost var tag := if Packable(f.ltype) then [] else Tag(f.tag, WireType(f.ltype));
    NothingYet(s);
    hide EncodeValue, Typed, FitsValue, SizedValue, Encodes;
    if !Packable(f.ltype) {
      ok := EncodeTagForField(stream, f);
      if !ok {
        EncodesNot(s, Some(tag), stream.Now(), EncodeValue(f, v));
        return;
      }
    }
    ghost var t := stream.Now();
    ok := EncodeFieldValue(stream, f, v);
    EncodesBoth(s, tag, t, EncodeValue(f, v), ok, stream.Now());
  }

  /** The loops of encode_array: the entries one after the other. */
  method EncodeItemsOf(stream: OStream, f: Field, values: seq<Value>) returns (ok: bool)
    requires stream.Valid() && f.tag < 0x1_0000_0000 && f.dataSize < 0x1_0000_0000
    requires f.ltype.LSubmessage? ==> Typed(f.ltype.desc)
    requires forall k | 0 <= k < |values| :: FitsValue(f, values[k])
    requires forall k | 0 <= k < |values| :: SizedValue(f, values[k])
    modifies stream, stream.dest
    ensures Encodes(old(stream.Now()), EncodeItems(f, values), ok, stream.Now())
    decreases f, 2
  {
    ghost var s := stream.Now();
    ghost var done: seq<byte> := [];
    ghost var whole := EncodeItems(f, values);
    assert values[0..] == values;
    assert values[|values|..] == [] && EncodeItems(f, []) == Some([]);
    NothingYet(s);
    ThenNothing(whole);
    hide EncodeItems, EncodeValue, ItemBytes, Typed, FitsValue, SizedValue, Encodes, Then2;
    for i := 0 to |values|
      invariant stream.Valid() && Encodes(s, Some(done), true, stream.Now())
      invariant whole == Then(done, EncodeItems(f, values[i..]))
    {
      ghost var t := stream.Now();
      ghost var item, rest := ItemBytes(f, values[i]), EncodeItems(f, values[i + 1..]);
      ItemsTurn(f, values, i, done);
      ok := EncodeItem(stream, f, values[i]);
      EncodesBoth(s, done, t, item, ok, stream.Now());
      if !ok {
        EncodesNot(s, Then(done, item), stream.Now(), rest);
        assert whole == Then2(Then(done, item), rest);
        return;
      }
      done := done + item.value;
    }
    assert done + [] == done;
    ok := true;
  }

  /** Bytes that have been written, then those of an encoder that may fail. */
  ghost function Then(done: seq<byte>, e: Option<seq<byte>>): Option<seq<byte>> {
    if e.Some? then Some(done + e.value) else None
  }

  ghost function Then2(a: Option<seq<byte>>, b: Option<seq<byte>>): Option<seq<byte>> {
    if a.Some? && b.Some? then Some(a.value + b.value) else None
  }

  lemma ThenNothing(e: Option<seq<byte>>)
    ensures Then([], e) == e
  {
    if e.Some? {
      assert [] + e.value == e.value;
    }
  }

  lemma ThenThen(done: seq<byte>, item: Option<seq<byte>>, rest: Option<seq<byte>>)
    ensures Then(done, Then2(item, rest)) == Then2(Then(done, item), rest)
    ensures item.Some? ==> Then(done, Then2(item, rest)) == Then(done + item.value, rest)
  {
    if item.Some? && rest.Some? {
      assert done + (item.value + rest.value) == done + item.value + rest.value;
    }
  }

  lemma ItemsTurn(f: Field, values: seq<Value>, i: nat, done: seq<byte>)
    requires i < |values| && (f.ltype.LSubmessage? ==> Typed(f.ltype.desc))
    requires forall k | 0 <= k < |values| :: FitsValue(f, values[k])
    ensures var item, rest := ItemBytes(f, values[i]), EncodeItems(f, values[i + 1..]);
            var all := Then(done, EncodeItems(f, values[i..]));
            && all == Then2(Then(done, item), rest)
            && (item.Some? ==> all == Then(done + item.value, rest))
  {
    var items := values[i..];
    assert items[1..] == values[i + 1..];
    assert EncodeItems(f, items) == Then2(ItemBytes(f, items[0]), EncodeItems(f, items[1..]));
    hide ItemBytes, EncodeItems;
    ThenThen(done, ItemBytes(f, values[i]), EncodeItems(f, values[i + 1..]));
  }

  lemma NothingYet(s: Snapshot)
    requires s.Valid()
    ensures Encodes(s, Some([]), true, s)
  {
    if !s.sizing {
      assert s.Put([]).memory == s.memory;
    }
  }

  lemma {:induction false} FixedItems(f: Field, values: seq<Value>, width: nat)
    requires (f.ltype.LFixed32? && width == 4) || (f.ltype.LFixed64? && width == 8)
    requires forall k | 0 <= k < |values| :: FitsValue(f, values[k])
    ensures EncodeItems(f, values).Some? && |EncodeItems(f, values).value| == width * |values|
  {
    if values != [] {
      FixedItems(f, values[1..], width);
    }
  }

  /** The length of a packed array: by its number of entries when they are fixed, and otherwise by a walk on a sizing
      stream. */
  method PackedSize(f: Field, values: seq<Value>) returns (ok: bool, size: nat)
    requires Packable(f.ltype) && f.tag < 0x1_0000_0000 && f.dataSize < 0x1_0000_0000
    requires forall k | 0 <= k < |values| :: FitsValue(f, values[k])
    requires forall k | 0 <= k < |values| :: SizedValue(f, values[k])
    ensures ok == EncodeItems(f, values).Some? && (ok ==> size == |EncodeItems(f, values).value|)
    decreases f, 3
  {
    if f.ltype.LFixed32? {
      FixedItems(f, values, 4);
      return true, 4 * |values|;
    }
    if f.ltype.LFixed64? {
      FixedItems(f, values, 8);
      return true, 8 * |values|;
    }
    var sizestream := new OStream.Sizing();
    ok := EncodeItemsOf(sizestream, f, values);
    size := sizestream.bytesWritten;
  }

  /** encode_array */
  method EncodeArray(stream: OStream, f: Field, unions: nat, slot: Slot) returns (ok: bool)
    requires stream.Valid() && TypedField(f, unions) && f.rule.Repeated?
    requires FitsSlot(f, slot) && SizedSlot(f, unions, slot)
    modifies stream, stream.dest
    ensures Encodes(old(stream.Now()), EncodeSlot(f, slot, seq(unions, _ => 0)), ok, stream.Now())
    decreases f, 4
  {
    ghost var s := stream.Now();
    if slot.count == 0 {
      NothingYet(s);
      return true;
    }
    if slot.count > f.arraySize {
      return false;
    }
    var values := slot.items[..slot.count];
    if !Packable(f.ltype) {
      ok := EncodeItemsOf(stream, f, values);
      return;
    }
    ghost var body, tag := EncodeItems(f, values), Tag(f.tag, WT_STRING);
    assert EncodeSlot(f, slot, seq(unions, _ => 0)) == Then(tag, Packed(body));
    hide EncodeSlot, EncodeItems, EncodeValue, Typed, Tag, Snapshot.Confines, Snapshot.Put;
    ok := stream.EncodeTag(WT_STRING, f.tag);
    ghost var t := stream.Now();
    EncodesNotIf(s, tag, t, ok, Packed(body));
    if !ok {
      return;
    }
    var size: nat;
    ok, size := PackedSize(f, values);
    if !ok {
      EncodesBoth(s, tag, t, None, false, t);
      return;
    }
    ok := stream.EncodeVarint(size);
    ghost var u := stream.Now();
    EncodesNotIf(t, Varint.Encode(size), u, ok, body);
    if !ok {
      EncodesBoth(s, tag, t, Packed(body), ok, u);
      return;
    }
    if stream.dest == null {
      ok := stream.WriteNothing(body.value, size);
    } else {
      ok := EncodeItemsOf(stream, f, values);
    }
    EncodesBoth(t, Varint.Encode(size), u, body, ok, stream.Now());
    EncodesBoth(s, tag, t, Packed(body), ok, stream.Now());
  }

  ghost function Packed(body: Option<seq<byte>>): Option<seq<byte>> {
    if body.Some? then Some(Prefixed(body.value)) else None
  }

  lemma EncodesNotIf(s: Snapshot, a: seq<byte>, t: Snapshot, ok: bool, b: Option<seq<byte>>)
    requires Encodes(s, Some(a), ok, t)
    ensures !ok ==> Encodes(s, Then(a, b), false, t)
  {}

  /** encode_basic_field */
  method EncodeBasicField(stream: OStream, f: Field, slot: Slot, which: seq<nat>) returns (ok: bool)
    requires stream.Valid() && TypedField(f, |which|) && FitsSlot(f, slot) && SizedSlot(f, |which|, slot)
    modifies stream, stream.dest
    ensures Encodes(old(stream.Now()), EncodeSlot(f, slot, which), ok, stream.Now())
    decreases f, 5
  {
    ghost var s := stream.Now();
    NothingYet(s);
    match f.rule {
      case Repeated => ok := EncodeArray(stream, f, |which|, slot);
      case Required => ok := EncodeTagAndValue(stream, f, slot.v);
      case Optional =>
        if slot.has {
          ok := EncodeTagAndValue(stream, f, slot.v);
        } else {
          ok := true;
        }
      case Singular =>
        var implicitHas := !IsZeroValue(f, slot.v);
        if implicitHas {
          ok := EncodeTagAndValue(stream, f, slot.v);
        } else {
          ok := true;
        }
      case OneOf(union) =>
        if which[union] == f.tag {
          ok := EncodeTagAndValue(stream, f, slot.v);
        } else {
          ok := true;
        }
    }
  }

  method EncodeTagAndValue(stream: OStream, f: Field, v: Value) returns (ok: bool)
    requires stream.Valid() && f.tag < 0x1_0000_0000 && f.dataSize < 0x1_0000_0000 && FitsValue(f, v)
    requires (f.ltype.LSubmessage? ==> Typed(f.ltype.desc)) && SizedValue(f, v)
    modifies stream, stream.dest
    ensures Encodes(old(stream.Now()), Then(Tag(f.tag, WireType(f.ltype)), EncodeValue(f, v)), ok, stream.Now())
    decreases f, 1
  {
    ghost var s, tag := stream.Now(), Tag(f.tag, WireType(f.ltype));
    ok := EncodeTagForField(stream, f);
    ghost var t := stream.Now();
    EncodesNotIf(s, tag, t, ok, EncodeValue(f, v));
    if ok {
      ok := EncodeFieldValue(stream, f, v);
      EncodesBoth(s, tag, t, EncodeValue(f, v), ok, stream.Now());
    }
  }

  /** The fields before the i-th have been encoded as done, and all of them are to be encoded as whole. */
  ghost predicate EncodedSoFar(d: Desc, m: Message, i: nat, s: Snapshot, done: seq<byte>, whole: Option<seq<byte>>,
                               now: Snapshot)
    requires Typed(d) && FitsMessage(d, m) && i <= |d.fields|
  {
    Encodes(s, Some(done), true, now) && whole == Then(done, EncodeFrom(d, m, i))
  }

  /** The field at place i, for pb_encode. */
  method EncodeNext(stream: OStream, d: Desc, m: Message, i: nat, ghost s: Snapshot, ghost done: seq<byte>,
                    ghost whole: Option<seq<byte>>) returns (ok: bool, ghost done': seq<byte>)
    requires stream.Valid() && Typed(d) && FitsMessage(d, m) && Sized(d, m) && i < |d.fields|
    requires EncodedSoFar(d, m, i, s, done, whole, stream.Now())
    modifies stream, stream.dest
    ensures stream.Valid()
    ensures ok ==> EncodedSoFar(d, m, i + 1, s, done', whole, stream.Now())
    ensures !ok ==> Encodes(s, whole, false, stream.Now())
    decreases d, 0
  {
    FieldReady(d, m, i);
    var f := d.fields[i];
    ghost var t, first, rest := stream.Now(), EncodeSlot(f, m.slots[i], m.which), EncodeFrom(d, m, i + 1);
    FieldTurn(d, m, i, done);
    hide Encodes, EncodeFrom, EncodeSlot, Typed, TypedField, FitsMessage, FitsSlot, Sized, SizedSlot, Then2;
    done' := done;
    ok := EncodeBasicField(stream, f, m.slots[i], m.which);
    EncodesBoth(s, done, t, first, ok, stream.Now());
    if !ok {
      EncodesNot(s, Then(done, first), stream.Now(), rest);
      return;
    }
    ThenMore(done, first, rest);
    done' := done + first.value;
  }

  /** One turn of the loop of pb_encode. */
  method EncodeTurn(stream: OStream, iter: PbIter.FieldIter, m: Message, ghost s: Snapshot, ghost done: seq<byte>,
                    ghost whole: Option<seq<byte>>) returns (ok: bool, more: bool, ghost done': seq<byte>)
    requires iter.Valid() && iter.pos < |iter.d.fields|
    requires stream.Valid() && Typed(iter.d) && FitsMessage(iter.d, m) && Sized(iter.d, m)
    requires EncodedSoFar(iter.d, m, iter.pos, s, done, whole, stream.Now())
    modifies stream, stream.dest, iter
    ensures stream.Valid() && iter.Valid()
    ensures ok ==> EncodedSoFar(iter.d, m, old(iter.pos) + 1, s, done', whole, stream.Now())
    ensures ok ==> more == (old(iter.pos) + 1 < |iter.d.fields|) && iter.pos == if more then old(iter.pos) + 1 else 0
    ensures !ok ==> Encodes(s, whole, false, stream.Now())
    decreases iter.d, 1
  {
    hide EncodedSoFar, Encodes, Typed, FitsMessage, Sized, PbIter.FieldIter.Valid;
    more := true;
    ok, done' := EncodeNext(stream, iter.d, m, iter.pos, s, done, whole);
    if ok {
      more := iter.Next();
    }
  }

  /** pb_encode */
  method Encode(stream: OStream, d: Desc, m: Message) returns (ok: bool)
    requires stream.Valid() && Typed(d) && FitsMessage(d, m) && Sized(d, m)
    modifies stream, stream.dest
    ensures Encodes(old(stream.Now()), EncodeMessage(d, m), ok, stream.Now())
    decreases d, 2
  {
    ghost var s, whole := stream.Now(), EncodeMessage(d, m);
    ghost var done: seq<byte> := [];
    hide *;
    NothingEncoded(d, m, s);
    var iter := new PbIter.FieldIter(d);
    if d.fields == [] {
      return true;
    }
    var more := true;
    ghost var i := 0;
    while more
      invariant iter.Valid() && stream.Valid() && i <= |d.fields| && fresh(iter)
      invariant if more then iter.pos == i < |d.fields| else i == |d.fields|
      invariant EncodedSoFar(d, m, i, s, done, whole, stream.Now())
      decreases |d.fields| - i
    {
      ok, more, done := EncodeTurn(stream, iter, m, s, done, whole);
      if !ok {
        return;
      }
      i := i + 1;
    }
    AllEncoded(d, m, s, done, whole, stream.Now());
    ok := true;
  }

  /** Before the first turn of the loop of pb_encode. */
  lemma NothingEncoded(d: Desc, m: Message, s: Snapshot)
    requires s.Valid() && Typed(d) && FitsMessage(d, m)
    ensures EncodedSoFar(d, m, 0, s, [], EncodeMessage(d, m), s)
    ensures d.fields == [] ==> Encodes(s, EncodeMessage(d, m), true, s)
  {
    NothingYet(s);
    ThenNothing(EncodeFrom(d, m, 0));
  }

  /** After the last. */
  lemma AllEncoded(d: Desc, m: Message, s: Snapshot, done: seq<byte>, whole: Option<seq<byte>>, now: Snapshot)
    requires Typed(d) && FitsMessage(d, m) && EncodedSoFar(d, m, |d.fields|, s, done, whole, now)
    ensures Encodes(s, whole, true, now)
  {
    assert done + [] == done;
  }

  lemma FieldReady(d: Desc, m: Message, i: nat)
    requires Typed(d) && FitsMessage(d, m) && Sized(d, m) && i < |d.fields|
    ensures i < |m.slots| && |m.which| == d.unions && TypedField(d.fields[i], d.unions)
    ensures FitsSlot(d.fields[i], m.slots[i]) && SizedSlot(d.fields[i], d.unions, m.slots[i])
  {}

  lemma ThenMore(done: seq<byte>, first: Option<seq<byte>>, rest: Option<seq<byte>>)
    requires first.Some?
    ensures Then2(Then(done, first), rest) == Then(done + first.value, rest)
  {}

  lemma FieldTurn(d: Desc, m: Message, i: nat, done: seq<byte>)
    requires Typed(d) && FitsMessage(d, m) && i < |d.fields|
    requires TypedField(d.fields[i], |m.which|)
    ensures Then(done, EncodeFrom(d, m, i))
         == Then2(Then(done, EncodeSlot(d.fields[i], m.slots[i], m.which)), EncodeFrom(d, m, i + 1))
  {
    var first, rest := EncodeSlot(d.fields[i], m.slots[i], m.which), EncodeFrom(d, m, i + 1);
    if first.Some? && rest.Some? {
      assert done + (first.value + rest.value) == done + first.value + rest.value;
    }
  }
}
