/** The decoder: an input stream over a buffer, and the loop that fills in a message. */
module PbDecode {
  import opened Bytes
  import Varint
  import opened PbTypes
  import opened PbWire
  import PbIter

  class IStream {
    /** The caller's buffer, which the decoder only reads. */
    const buf: seq<byte>
    var state: nat
    var bytesLeft: nat

    ghost predicate Valid()
      reads this
    {
      state + bytesLeft <= |buf|
    }

    /** The bytes the stream still has. */
    ghost function Left(): (s: seq<byte>)
      requires Valid()
      reads this
      ensures |s| == bytesLeft
    {
      buf[state..state + bytesLeft]
    }

    /** pb_istream_from_buffer, and the limited substream of a string or submessage. */
    constructor (buf: seq<byte>, start: nat, size: nat)
      requires start + size <= |buf|
      ensures Valid() && this.buf == buf && Left() == buf[start..start + size] && state == start && bytesLeft == size
    {
      this.buf := buf;
      state, bytesLeft := start, size;
    }

    /** pb_readbyte */
    method ReadByte() returns (ok: bool, b: byte)
      requires Valid()
      modifies this
      ensures Valid() && state + bytesLeft == old(state + bytesLeft)
      ensures ok == (old(Left()) != [])
      ensures ok ==> b == old(Left())[0] && Left() == old(Left())[1..]
      ensures !ok ==> Left() == old(Left())
    {
      if bytesLeft == 0 {
        return false, 0;
      }
      b := buf[state];
      state, bytesLeft := state + 1, bytesLeft - 1;
      ok := true;
    }

    /** pb_read into a buffer. */
    method Read(count: nat) returns (ok: bool, bytes: seq<byte>)
      requires Valid()
      modifies this
      ensures Valid() && state + bytesLeft == old(state + bytesLeft)
      ensures ok == (count <= |old(Left())|)
      ensures ok ==> bytes == old(Left())[..count] && Left() == old(Left())[count..]
    {
      if bytesLeft < count {
        return false, [];
      }
      bytes := buf[state..state + count];
      state, bytesLeft := state + count, bytesLeft - count;
      ok := true;
    }

    /** pb_read with no buffer. */
    method Skip(count: nat) returns (ok: bool)
      requires Valid()
      modifies this
      ensures Valid() && state + bytesLeft == old(state + bytesLeft)
      ensures ok == Drop(old(Left()), count).Some?
      ensures ok ==> Left() == Drop(old(Left()), count).value
    {
      if bytesLeft < count {
        return false;
      }
      state, bytesLeft := state + count, bytesLeft - count;
      ok := true;
    }

    /** What pb_decode_varint32_eof does with a byte after the first. */
    method AddByte32(b: byte, result: nat, bitpos: nat) returns (refused: bool, next: nat)
      requires result < 0x1_0000_0000
      ensures refused == Varint.Refuses32(b, result, bitpos) && next < 0x1_0000_0000
      ensures !refused ==> next == Varint.Step32(result, b, bitpos)
    {
      if bitpos >= 32 {
        var signExtension := if bitpos < 63 then 0xFF else 0x01;
        if b % 0x80 != 0 && (result / 0x8000_0000 == 0 || b != signExtension) {
          return true, result;
        }
      }
      return false, Varint.Step32(result, b, bitpos);
    }

    /** pb_decode_varint32_eof: eof is set if the stream ended before the first byte. */
    method DecodeVarint32Eof() returns (ok: bool, value: nat, eof: bool)
      requires Valid()
      modifies this
      ensures Valid() && state + bytesLeft == old(state + bytesLeft)
      ensures ok == Varint.Decode32(old(Left())).Some? && eof == (old(Left()) == [])
      ensures ok ==> Varint.Decode32(old(Left())) == Some((value, Left()))
    {
      ghost var s := Left();
      var b: byte;
      ok, b := ReadByte();
      if !ok {
        return false, 0, bytesLeft == 0;
      }
      if b < 0x80 {
        return true, b, false;
      }
      var bitpos: nat, result: nat := 7, b - 0x80;
      hide Varint.Decode32, Varint.Tail32, Varint.Step32, Varint.Refuses32, Varint.Overflows32;
      while true
        invariant Valid() && state + bytesLeft == old(state + bytesLeft) && result < 0x1_0000_0000
        invariant Varint.Decode32(s) == Varint.Tail32(Left(), result, bitpos)
        decreases bytesLeft
      {
        Varint.Tail32Turn(Left(), result, bitpos);
        ok, b := ReadByte();
        if !ok {
          return false, 0, false;
        }
        var refused;
        refused, result := AddByte32(b, result, bitpos);
        if refused {
          return false, 0, false;
        }
        bitpos := (bitpos + 7) % 256;
        if b < 0x80 {
          break;
        }
      }
      if Varint.Overflows32(b, bitpos) {
        return false, 0, false;
      }
      return true, result, false;
    }

    /** pb_decode_varint */
    method DecodeVarint() returns (ok: bool, value: nat)
      requires Valid()
      modifies this
      ensures Valid() && state + bytesLeft == old(state + bytesLeft)
      ensures ok == Varint.Decode(old(Left())).Some?
      ensures ok ==> Varint.Decode(old(Left())) == Some((value, Left()))
    {
      ghost var s := Left();
      var bitpos: nat, result: nat, b: byte := 0, 0, 0x80;
      ghost var i: nat := 0;
      Varint.Reading64Start(s);
      while b >= 0x80
        invariant Valid() && state + bytesLeft == old(state + bytesLeft)
        invariant bitpos == 7 * i && i <= 10 && Varint.Reading64(s, Left(), result, i, b)
        decreases bytesLeft + (if b >= 0x80 then 1 else 0)
      {
        ghost var before, prev := Left(), b;
        if bitpos >= 64 {
          return false, 0;
        }
        ok, b := ReadByte();
        if !ok {
          return false, 0;
        }
        Varint.Reading64Step(s, before, result, i, prev, b);
        hide *;
        result := Or(result, Shl(b % 128, bitpos) % 0x1_0000_0000_0000_0000);
        bitpos, i := bitpos + 7, i + 1;
      }
      return true, result;
    }

    /** pb_skip_varint */
    method SkipVarint() returns (ok: bool)
      requires Valid()
      modifies this
      ensures Valid() && state + bytesLeft == old(state + bytesLeft)
      ensures ok == SkipField(WT_VARINT, old(Left())).Some?
      ensures ok ==> SkipField(WT_VARINT, old(Left())) == Some(Left())
    {
      ghost var s := Left();
      var b: byte := 0x80;
      while b >= 0x80
        invariant Valid() && state + bytesLeft == old(state + bytesLeft)
        invariant b >= 0x80 ==> SkipField(WT_VARINT, s) == SkipField(WT_VARINT, Left())
        invariant b < 0x80 ==> SkipField(WT_VARINT, s) == Some(Left())
        decreases bytesLeft + (if b >= 0x80 then 1 else 0)
      {
        ghost var before := Left();
        ok, b := ReadByte();
        if !ok {
          return;
        }
        if b >= 0x80 && Varint.Span(before).Some? {
          assert before[Varint.Span(before).value..] == before[1..][Varint.Span(before[1..]).value..];
        }
      }
      ok := true;
    }

    /** pb_skip_string */
    method SkipString() returns (ok: bool)
      requires Valid()
      modifies this
      ensures Valid() && state + bytesLeft == old(state + bytesLeft)
      ensures ok == SkipField(WT_STRING, old(Left())).Some?
      ensures ok ==> SkipField(WT_STRING, old(Left())) == Some(Left())
    {
      var length, eof;
      ok, length, eof := DecodeVarint32Eof();
      if ok {
        ok := Skip(length);
      }
    }

    /** pb_skip_field */
    method SkipFieldOf(wireType: nat) returns (ok: bool)
      requires Valid()
      modifies this
      ensures Valid() && state + bytesLeft == old(state + bytesLeft)
      ensures ok == SkipField(wireType, old(Left())).Some?
      ensures ok ==> SkipField(wireType, old(Left())) == Some(Left())
    {
      if wireType == WT_VARINT {
        ok := SkipVarint();
      } else if wireType == WT_64BIT {
        ok := Skip(8);
      } else if wireType == WT_STRING {
        ok := SkipString();
      } else if wireType == WT_32BIT {
        ok := Skip(4);
      } else {
        ok := false;
      }
    }

    /** pb_decode_tag: a zero tag reads as the end of the message. */
    method ReadTag() returns (ok: bool, wireType: nat, tag: nat, eof: bool)
      requires Valid() && bytesLeft > 0
      modifies this
      ensures Valid() && state + bytesLeft == old(state + bytesLeft)
      ensures ok ==> DecodeTag(old(Left())) == FieldTag(tag, wireType, Left())
      ensures !ok ==> DecodeTag(old(Left())) == if eof then EndTag(Left()) else BadTag
    {
      var temp;
      wireType, tag := 0, 0;
      ok, temp, eof := DecodeVarint32Eof();
      if !ok {
        return;
      }
      if temp == 0 {
        return false, 0, 0, true;
      }
      wireType, tag := temp % 8, temp / 8;
    }

    /** pb_make_string_substream: this stream has the bytes after the substream. */
    method MakeSubstream() returns (ok: bool, sub: IStream?)
      requires Valid()
      modifies this
      ensures Valid() && (!ok ==> state + bytesLeft == old(state + bytesLeft))
      ensures ok == DecodePrefixed(old(Left())).Some?
      ensures ok ==> sub != null && fresh(sub) && sub.Valid() && sub.buf == buf && sub.state == state
      ensures ok ==> state + sub.bytesLeft + bytesLeft == old(state + bytesLeft)
      ensures ok ==>
                DecodePrefixed(old(Left())) == Some((sub.Left(), buf[state + sub.bytesLeft..old(state + bytesLeft)]))
    {
      var size, eof;
      sub := null;
      ok, size, eof := DecodeVarint32Eof();
      if !ok {
        return;
      }
      if bytesLeft < size {
        return false, null;
      }
      assert Left()[..size] == buf[state..state + size];
      assert Left()[size..] == buf[state + size..state + bytesLeft];
      sub := new IStream(buf, state, size);
      bytesLeft := bytesLeft - size;
    }

    /** pb_close_string_substream: what the substream still has is skipped. */
    method CloseSubstream(sub: IStream)
      requires sub.Valid() && sub != this && sub.buf == buf && sub.state + sub.bytesLeft + bytesLeft <= |buf|
      modifies this, sub
      ensures Valid() && state == old(sub.state + sub.bytesLeft) && bytesLeft == old(bytesLeft)
    {
      if sub.bytesLeft > 0 {
        var _ := sub.Skip(sub.bytesLeft);
      }
      state := sub.state;
    }
  }

  // Field decoders

  /** A number cast to a signed integer of the given size. */
  function CastSigned(v: int, size: nat): int {
    if size == 1 then (v + 0x80) % 0x100 - 0x80
    else if size == 2 then (v + 0x8000) % 0x1_0000 - 0x8000
    else if size == 4 then (v + 0x8000_0000) % 0x1_0000_0000 - 0x8000_0000
    else (v + 0x8000_0000_0000_0000) % 0x1_0000_0000_0000_0000 - 0x8000_0000_0000_0000
  }

  /** A number cast to an unsigned integer of the given size. */
  function CastUnsigned(v: nat, size: nat): nat {
    if size == 1 then v % 0x100
    else if size == 2 then v % 0x1_0000
    else if size == 4 then v % 0x1_0000_0000
    else v % 0x1_0000_0000_0000_0000
  }

  /** The cast that "integer too large" is told by keeps exactly the numbers in range. */
  lemma SignedInRange(v: int, size: nat)
    requires size == 1 || size == 2 || size == 4 || size == 8
    ensures if CastSigned(v, size) == v then Signed(v, size) == Some(IntV(v)) else Signed(v, size) == None
  {}

  lemma UnsignedInRange(v: nat, size: nat)
    requires size == 1 || size == 2 || size == 4 || size == 8
    ensures CastUnsigned(v, size) == v <==> v < 2 * Half(size)
  {}

  lemma UnsupportedSize(f: Field, v: nat)
    requires f.ltype.LVarint? || f.ltype.LUVarint? || f.ltype.LSVarint?
    requires v < 0x1_0000_0000_0000_0000
    requires f.dataSize != 1 && f.dataSize != 2 && f.dataSize != 4 && f.dataSize != 8
    ensures ScalarOf(f, v) == None
  {}

  /** pb_dec_varint, pb_dec_uvarint and pb_dec_svarint once the varint has been read. */
  method StoreVarint(f: Field, value: nat) returns (ok: bool, v: Value)
    requires f.ltype.LVarint? || f.ltype.LUVarint? || f.ltype.LSVarint?
    requires value < 0x1_0000_0000_0000_0000
    ensures ok == ScalarOf(f, value).Some?
    ensures ok ==> ScalarOf(f, value) == Some(v)
  {
    v := IntV(0);
    if f.dataSize != 1 && f.dataSize != 2 && f.dataSize != 4 && f.dataSize != 8 {
      UnsupportedSize(f, value);
      return false, v;
    }
    hide CastSigned, CastUnsigned, Half, Signed;
    var svalue: int, clamped: int;
    if f.ltype.LUVarint? {
      svalue, clamped := value, CastUnsigned(value, f.dataSize);
      UnsignedInRange(value, f.dataSize);
    } else {
      if f.ltype.LSVarint? {
        svalue := Varint.UnZigZag(value);
      } else if f.dataSize == 8 {
        svalue := ToSigned64(value);
      } else {
        svalue := ToSigned32(value % 0x1_0000_0000);
      }
      clamped := CastSigned(svalue, f.dataSize);
      SignedInRange(svalue, f.dataSize);
    }
    if clamped != svalue {
      return false, v;
    }
    return true, IntV(clamped);
  }

  /** The decoders of the integer types. */
  method DecodeScalarField(stream: IStream, f: Field) returns (ok: bool, v: Value)
    requires stream.Valid() && Packable(f.ltype)
    modifies stream
    ensures stream.Valid() && stream.state + stream.bytesLeft == old(stream.state + stream.bytesLeft)
    ensures ok == DecodeScalar(f, old(stream.Left())).Some?
    ensures ok ==> DecodeScalar(f, old(stream.Left())) == Some((v, stream.Left()))
  {
    v := IntV(0);
    hide ScalarOf, Varint.FixedValue, Varint.Decode;
    if f.ltype.LFixed32? || f.ltype.LFixed64? {
      var bytes;
      ok, bytes := stream.Read(if f.ltype.LFixed32? then 4 else 8);
      if ok {
        v := IntV(Varint.FixedValue(bytes));
      }
      return;
    }
    var value;
    ok, value := stream.DecodeVarint();
    if ok {
      ok, v := StoreVarint(f, value);
    }
  }

  /** pb_dec_bytes, pb_dec_string and pb_dec_fixed_length_bytes, on a member that holds cur. */
  method DecodeBytesField(stream: IStream, f: Field, cur: Value) returns (ok: bool, v: Value)
    requires stream.Valid() && FitsValue(f, cur) && f.dataSize < 0x1_0000_0000
    requires f.ltype.LBytes? || f.ltype.LString? || f.ltype.LFixedBytes?
    modifies stream
    ensures stream.Valid() && stream.state + stream.bytesLeft == old(stream.state + stream.bytesLeft)
    ensures ok == DecodeValue(f, cur, old(stream.Left())).Some?
    ensures ok ==> DecodeValue(f, cur, old(stream.Left())) == Some((v, stream.Left()))
  {
    v := cur;
    hide Varint.Decode32;
    var size, eof, bytes;
    ok, size, eof := stream.DecodeVarint32Eof();
    if !ok {
      return;
    }
    if f.ltype.LBytes? {
      if size + BYTES_HEADER > f.dataSize {
        return false, v;
      }
      ok, bytes := stream.Read(size);
      v := BytesV(bytes);
    } else if f.ltype.LString? {
      var allocSize := (size + 1) % 0x1_0000_0000;
      if allocSize < size || allocSize > f.dataSize {
        return false, v;
      }
      ok, bytes := stream.Read(size);
      if ok {
        v := StringV(bytes + [0] + cur.buf[size + 1..]);
      }
    } else if size == 0 {
      v := FixedBytesV(seq(f.dataSize, _ => 0));
    } else {
      if size != f.dataSize {
        return false, v;
      }
      ok, bytes := stream.Read(f.dataSize);
      v := FixedBytesV(bytes);
    }
  }

  // Whole messages

  /** pb_field_set_to_default */
  method FieldSetToDefault(f: Field, unions: nat, cur: Slot) returns (slot: Slot)
    requires TypedField(f, unions) && FitsSlot(f, cur)
    ensures slot == DefaultSlot(f, unions, cur)
    decreases f
  {
    match f.rule {
      case Repeated => slot := Arr(0, cur.items);
      case OneOf(_) => slot := cur;
      case Required | Optional | Singular =>
        var v: Value;
        if f.ltype.LSubmessage? {
          var m := MessageSetToDefaults(f.ltype.desc, cur.v.msg);
          v := MessageV(m);
        } else if f.default.Some? {
          v := f.default.value;
        } else {
          v := ZeroValue(f);
        }
        slot := if f.rule.Optional? then Opt(false, v) else One(v);
    }
  }

  /** pb_message_set_to_defaults */
  method MessageSetToDefaults(d: Desc, m: Message) returns (r: Message)
    requires Typed(d) && FitsMessage(d, m)
    ensures r == Defaults(d, m)
    decreases d
  {
    var slots := m.slots;
    for i := 0 to |d.fields|
      invariant |slots| == |d.fields|
      invariant forall k | 0 <= k < |d.fields| :: slots[k] == if k < i then Defaults(d, m).slots[k] else m.slots[k]
    {
      assert TypedField(d.fields[i], d.unions) && FitsSlot(d.fields[i], m.slots[i]);
      var slot := FieldSetToDefault(d.fields[i], d.unions, slots[i]);
      slots := slots[i := slot];
    }
    r := Message(slots, seq(d.unions, _ => 0));
    assert r.slots == Defaults(d, m).slots;
  }

  lemma SubmessageValue(f: Field, cur: Value, s: seq<byte>)
    requires FitsValue(f, cur) && f.ltype.LSubmessage? && Typed(f.ltype.desc)
    ensures cur.MessageV? && FitsMessage(f.ltype.desc, cur.msg)
    ensures DecodePrefixed(s).None? ==> DecodeValue(f, cur, s).None?
    ensures DecodePrefixed(s).Some? ==>
              var m := if f.rule.Repeated? then Defaults(f.ltype.desc, cur.msg) else cur.msg;
              var got := DecodeFields(f.ltype.desc, m, {}, DecodePrefixed(s).value.0);
              DecodeValue(f, cur, s)
              == if got.Some? then Some((MessageV(got.value.0), DecodePrefixed(s).value.1)) else None
  {}

  /** pb_dec_submessage, on a member that holds cur. */
  method DecodeSubmessage(stream: IStream, f: Field, cur: Value) returns (ok: bool, v: Value)
    requires stream.Valid() && FitsValue(f, cur) && f.ltype.LSubmessage? && Typed(f.ltype.desc)
    modifies stream
    ensures stream.Valid() && stream.state + stream.bytesLeft == old(stream.state + stream.bytesLeft)
    ensures ok == DecodeValue(f, cur, old(stream.Left())).Some?
    ensures ok ==> DecodeValue(f, cur, old(stream.Left())) == Some((v, stream.Left()))
    decreases stream.bytesLeft, 0
  {
    v := cur;
    SubmessageValue(f, cur, stream.Left());
    hide DecodeValue, DecodeFields, DecodePrefixed, FitsValue, FitsMessage, Typed, Defaults;
    var sub;
    ok, sub := stream.MakeSubstream();
    if !ok {
      return;
    }
    ghost var rest := DecodePrefixed(old(stream.Left())).value.1;
    var m := cur.msg;
    if f.rule.Repeated? {
      m := MessageSetToDefaults(f.ltype.desc, m);
    }
    ok, m := DecodeNoinit(sub, f.ltype.desc, m);
    stream.CloseSubstream(sub);
    assert stream.Left() == rest;
    v := MessageV(m);
  }

  /** The decoder of f's type, on a member that holds cur. */
  method DecodeFieldValue(stream: IStream, f: Field, cur: Value) returns (ok: bool, v: Value)
    requires stream.Valid() && FitsValue(f, cur) && f.dataSize < 0x1_0000_0000
    requires f.ltype.LSubmessage? ==> Typed(f.ltype.desc)
    modifies stream
    ensures stream.Valid() && stream.state + stream.bytesLeft == old(stream.state + stream.bytesLeft)
    ensures ok == DecodeValue(f, cur, old(stream.Left())).Some?
    ensures ok ==> DecodeValue(f, cur, old(stream.Left())) == Some((v, stream.Left()))
    decreases stream.bytesLeft, 1
  {
    if f.ltype.LBytes? || f.ltype.LString? || f.ltype.LFixedBytes? {
      ok, v := DecodeBytesField(stream, f, cur);
    } else if f.ltype.LSubmessage? {
      ok, v := DecodeSubmessage(stream, f, cur);
    } else {
      hide DecodeScalar;
      ok, v := DecodeScalarField(stream, f);
    }
  }

  /** The packed array case of decode_static_field. */
  method DecodePackedField(stream: IStream, f: Field, unions: nat, cur: Slot) returns (ok: bool, slot: Slot)
    requires stream.Valid() && f.rule.Repeated? && Packable(f.ltype) && TypedField(f, unions) && FitsSlot(f, cur)
    modifies stream
    ensures stream.Valid() && stream.state + stream.bytesLeft == old(stream.state + stream.bytesLeft)
    ensures ok == DecodeSlot(f, unions, WT_STRING, cur, old(stream.Left())).Some?
    ensures ok ==> DecodeSlot(f, unions, WT_STRING, cur, old(stream.Left())) == Some((slot, stream.Left()))
  {
    slot := cur;
    hide DecodeScalar, DecodePrefixed, FitsValue, TypedField;
    var sub;
    ok, sub := stream.MakeSubstream();
    if !ok {
      return;
    }
    ghost var body := sub.Left();
    var status := true;
    while sub.bytesLeft > 0 && slot.count < f.arraySize
      invariant sub.Valid() && FitsSlot(f, slot)
      invariant sub.state + sub.bytesLeft == old(stream.state + stream.bytesLeft) - stream.bytesLeft
      invariant DecodePacked(f, cur, body) == DecodePacked(f, slot, sub.Left())
      modifies sub
      decreases sub.bytesLeft
    {
      var v;
      status, v := DecodeScalarField(sub, f);
      if !status {
        break;
      }
      slot := Arr(slot.count + 1, slot.items[slot.count := v]);
    }
    ok := status && sub.bytesLeft == 0;
    stream.CloseSubstream(sub);
  }

  /** decode_static_field; the which_ member of a union is set by the caller. */
  method DecodeStaticField(stream: IStream, wireType: nat, f: Field, unions: nat, cur: Slot)
    returns (ok: bool, slot: Slot)
    requires stream.Valid() && TypedField(f, unions) && FitsSlot(f, cur)
    modifies stream
    ensures stream.Valid() && stream.state + stream.bytesLeft == old(stream.state + stream.bytesLeft)
    ensures ok == DecodeSlot(f, unions, wireType, cur, old(stream.Left())).Some?
    ensures ok ==> DecodeSlot(f, unions, wireType, cur, old(stream.Left())) == Some((slot, stream.Left()))
    decreases stream.bytesLeft, 2
  {
    slot := cur;
    hide DecodeValue, Typed, FitsMessage, FitsValue;
    var v: Value;
    if f.rule.Repeated? && wireType == WT_STRING && Packable(f.ltype) {
      ok, slot := DecodePackedField(stream, f, unions, cur);
    } else if f.rule.Repeated? {
      if cur.count >= f.arraySize {
        return false, cur;
      }
      ok, v := DecodeFieldValue(stream, f, cur.items[cur.count]);
      slot := Arr(cur.count + 1, cur.items[cur.count := v]);
    } else {
      v := cur.v;
      if f.rule.OneOf? && f.ltype.LSubmessage? {
        var zero := MessageSetToDefaults(f.ltype.desc, ZeroMessage(f.ltype.desc));
        v := MessageV(zero);
      }
      assert v == Target(f, unions, cur);
      ok, v := DecodeFieldValue(stream, f, v);
      slot := if f.rule.Optional? then Opt(true, v) else One(v);
    }
  }

  // Required fields

  lemma {:induction false} RequiredOrder(d: Desc, i: nat, j: nat)
    requires i < j <= |d.fields|
    ensures RequiredBefore(d, i) + (if d.fields[i].rule.Required? then 1 else 0) <= RequiredBefore(d, j)
  {
    if j > i + 1 {
      RequiredOrder(d, i, j - 1);
    }
  }

  lemma {:induction false} RequiredAt(d: Desc, n: nat, j: nat) returns (i: nat)
    requires j <= |d.fields| && n < RequiredBefore(d, j)
    ensures i < j && d.fields[i].rule.Required? && RequiredBefore(d, i) == n
  {
    if d.fields[j - 1].rule.Required? && RequiredBefore(d, j - 1) == n {
      i := j - 1;
    } else {
      i := RequiredAt(d, n, j - 1);
    }
  }

  /** Bit k of the flags is set exactly when the k-th required field has been seen. */
  ghost predicate Flags(d: Desc, seen: set<nat>, fieldsSeen: seq<bool>) {
    && |fieldsSeen| == MAX_REQUIRED
    && forall i | 0 <= i < |d.fields| && d.fields[i].rule.Required? && RequiredBefore(d, i) < MAX_REQUIRED ::
         fieldsSeen[RequiredBefore(d, i)] == (i in seen)
  }

  lemma FlagSet(d: Desc, seen: set<nat>, fieldsSeen: seq<bool>, i: nat)
    requires Flags(d, seen, fieldsSeen) && i < |d.fields|
    ensures d.fields[i].rule.Required? && RequiredBefore(d, i) < MAX_REQUIRED
            ==> Flags(d, seen + {i}, fieldsSeen[RequiredBefore(d, i) := true])
    ensures !(d.fields[i].rule.Required? && RequiredBefore(d, i) < MAX_REQUIRED) ==> Flags(d, seen + {i}, fieldsSeen)
  {
    forall j | 0 <= j < |d.fields| && j != i && d.fields[j].rule.Required? && d.fields[i].rule.Required?
      ensures RequiredBefore(d, j) != RequiredBefore(d, i)
    {
      if i < j { RequiredOrder(d, i, j); } else { RequiredOrder(d, j, i); }
    }
  }

  /** The check at the end of pb_decode_noinit, from wherever the iterator is. */
  method RequiredSeen(iter: PbIter.FieldIter, fieldsSeen: seq<bool>, ghost seen: set<nat>) returns (ok: bool)
    requires iter.Valid() && Flags(iter.d, seen, fieldsSeen)
    modifies iter
    ensures ok == Complete(iter.d, seen)
  {
    var d := iter.d;
    if d.fields == [] {
      return true;
    }
    var reqFieldCount, lastRule, more := 0, Optional, true;
    while more
      invariant iter.Valid()
      invariant !more ==>
                  reqFieldCount == RequiredBefore(d, |d.fields| - 1) && lastRule == d.fields[|d.fields| - 1].rule
      decreases if more then |d.fields| - iter.pos else 0
    {
      reqFieldCount := iter.requiredFieldIndex;
      lastRule := d.fields[iter.pos].rule;
      more := iter.Next();
    }
    if lastRule.Required? {
      reqFieldCount := reqFieldCount + 1;
    }
    assert reqFieldCount == RequiredBefore(d, |d.fields|);
    if reqFieldCount > MAX_REQUIRED {
      reqFieldCount := MAX_REQUIRED;
    }
    for k := 0 to reqFieldCount
      invariant forall n | 0 <= n < k :: fieldsSeen[n]
    {
      if !fieldsSeen[k] {
        var i := RequiredAt(d, k, |d.fields|);
        return false;
      }
    }
    forall i | 0 <= i < |d.fields| && d.fields[i].rule.Required? && RequiredBefore(d, i) < MAX_REQUIRED
      ensures i in seen
    {
      RequiredOrder(d, i, |d.fields|);
    }
    ok := true;
  }

  /** One turn of the loop below: a tag and what follows it. Not ok: the message has ended, or the input is bad. */
  method DecodeNextField(stream: IStream, iter: PbIter.FieldIter, m: Message, fieldsSeen: seq<bool>,
                         ghost seen: set<nat>)
    returns (ok: bool, eof: bool, r: Message, fieldsSeen': seq<bool>, ghost seen': set<nat>)
    requires stream.Valid() && stream.bytesLeft > 0 && iter.Valid()
    requires Typed(iter.d) && FitsMessage(iter.d, m) && Flags(iter.d, seen, fieldsSeen)
    modifies stream, iter
    ensures stream.Valid() && stream.state + stream.bytesLeft == old(stream.state + stream.bytesLeft)
    ensures iter.Valid() && (ok ==> stream.bytesLeft < old(stream.bytesLeft))
    ensures ok ==> FitsMessage(iter.d, r) && Flags(iter.d, seen', fieldsSeen')
    ensures ok ==> DecodeFields(iter.d, m, seen, old(stream.Left())) == DecodeFields(iter.d, r, seen', stream.Left())
    ensures !ok ==> DecodeFields(iter.d, m, seen, old(stream.Left())) ==
                    (if eof && Complete(iter.d, seen) then Some((m, stream.Left())) else None)
    decreases stream.bytesLeft, 3
  {
    var d := iter.d;
    r, fieldsSeen', seen' := m, fieldsSeen, seen;
    FieldsTurn(d, m, seen, stream.Left());
    hide DecodeFields, DecodeTag, SkipField, DecodeSlot, Complete, Flags, Find;
    hide Typed, TypedField, FitsMessage, FitsSlot;
    var wireType, tag;
    ok, wireType, tag, eof := stream.ReadTag();
    if !ok {
      return;
    }
    eof := false;
    var found := iter.Find(tag);
    if !found {
      ok := stream.SkipFieldOf(wireType);
      return;
    }
    if d.fields == [] {
      // The terminator was found, whose entry pb_dec_varint refuses.
      var read, value := stream.DecodeVarint();
      ok := false;
      return;
    }
    var i := iter.pos;
    FieldFits(d, m, i);
    FlagSet(d, seen, fieldsSeen, i);
    if d.fields[i].rule.Required? && iter.requiredFieldIndex < MAX_REQUIRED {
      FlagsLength(d, seen, fieldsSeen);
      fieldsSeen' := fieldsSeen[iter.requiredFieldIndex := true];
    }
    var slot;
    ok, slot := DecodeStaticField(stream, wireType, d.fields[i], d.unions, m.slots[i]);
    if ok {
      r := Stored(d, m, i, slot);
    }
    seen' := seen + {i};
  }

  /** What one tag does to the rest of the decoding. */
  lemma FieldsTurn(d: Desc, m: Message, seen: set<nat>, s: seq<byte>)
    requires Typed(d) && FitsMessage(d, m) && s != []
    ensures DecodeTag(s).BadTag? ==> DecodeFields(d, m, seen, s) == None
    ensures DecodeTag(s).EndTag? ==>
              DecodeFields(d, m, seen, s) == if Complete(d, seen) then Some((m, DecodeTag(s).rest)) else None
    ensures DecodeTag(s).FieldTag? && FindsTerminator(d, DecodeTag(s).tag) ==> DecodeFields(d, m, seen, s) == None
    ensures DecodeTag(s).FieldTag? && Find(d, DecodeTag(s).tag).None? && !FindsTerminator(d, DecodeTag(s).tag) ==>
              var rest := SkipField(DecodeTag(s).wireType, DecodeTag(s).rest);
              DecodeFields(d, m, seen, s) == if rest.Some? then DecodeFields(d, m, seen, rest.value) else None
    ensures DecodeTag(s).FieldTag? && Find(d, DecodeTag(s).tag).Some? ==>
              var i := Find(d, DecodeTag(s).tag).value;
              && TypedField(d.fields[i], d.unions) && FitsSlot(d.fields[i], m.slots[i])
              && var e := DecodeSlot(d.fields[i], d.unions, DecodeTag(s).wireType, m.slots[i], DecodeTag(s).rest);
              DecodeFields(d, m, seen, s)
              == if e.Some? then DecodeFields(d, Stored(d, m, i, e.value.0), seen + {i}, e.value.1) else None
  {}

  lemma FieldFits(d: Desc, m: Message, i: nat)
    requires Typed(d) && FitsMessage(d, m) && i < |d.fields|
    ensures TypedField(d.fields[i], d.unions) && FitsSlot(d.fields[i], m.slots[i])
  {}

  lemma FlagsLength(d: Desc, seen: set<nat>, fieldsSeen: seq<bool>)
    requires Flags(d, seen, fieldsSeen)
    ensures |fieldsSeen| == MAX_REQUIRED
  {}

  /** pb_decode_noinit */
  method DecodeNoinit(stream: IStream, d: Desc, m: Message) returns (ok: bool, r: Message)
    requires stream.Valid() && Typed(d) && FitsMessage(d, m)
    modifies stream
    ensures stream.Valid() && stream.state + stream.bytesLeft == old(stream.state + stream.bytesLeft)
    ensures ok == DecodeFields(d, m, {}, old(stream.Left())).Some?
    ensures ok ==> DecodeFields(d, m, {}, old(stream.Left())) == Some((r, stream.Left()))
    decreases stream.bytesLeft, 4
  {
    ghost var s := stream.Left();
    ghost var seen: set<nat> := {};
    var fieldsSeen := seq(MAX_REQUIRED, _ => false);
    r := m;
    var iter := new PbIter.FieldIter(d);
    while stream.bytesLeft > 0
      invariant stream.Valid() && stream.state + stream.bytesLeft == old(stream.state + stream.bytesLeft)
      invariant stream.bytesLeft <= old(stream.bytesLeft)
      invariant iter.Valid() && iter.d == d && fresh(iter) && FitsMessage(d, r) && Flags(d, seen, fieldsSeen)
      invariant DecodeFields(d, m, {}, s) == DecodeFields(d, r, seen, stream.Left())
      decreases stream.bytesLeft
    {
      hide *;
      var eof, r', fieldsSeen';
      ghost var seen';
      ok, eof, r', fieldsSeen', seen' := DecodeNextField(stream, iter, r, fieldsSeen, seen);
      if !ok {
        if eof {
          break;
        }
        return;
      }
      r, fieldsSeen, seen := r', fieldsSeen', seen';
    }
    ok := RequiredSeen(iter, fieldsSeen, seen);
  }

  /** pb_decode */
  method Decode(stream: IStream, d: Desc, m: Message) returns (ok: bool, r: Message)
    requires stream.Valid() && Typed(d) && FitsMessage(d, m)
    modifies stream
    ensures stream.Valid() && stream.state + stream.bytesLeft == old(stream.state + stream.bytesLeft)
    ensures ok == DecodeMessage(d, m, old(stream.Left())).Some?
    ensures ok ==> DecodeMessage(d, m, old(stream.Left())) == Some((r, stream.Left()))
  {
    r := MessageSetToDefaults(d, m);
    ok, r := DecodeNoinit(stream, d, r);
  }
}
