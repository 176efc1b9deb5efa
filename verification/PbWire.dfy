/** The wire format as functions: the bytes a message is written as, and what a receiver makes of bytes. */
module PbWire {
  import opened Bytes
  import Varint
  import opened PbTypes

  const WT_VARINT: nat := 0
  const WT_64BIT: nat := 1
  const WT_STRING: nat := 2
  const WT_32BIT: nat := 5

  // Writing

  function WireType(t: LType): nat {
    match t
    case LVarint | LUVarint | LSVarint => WT_VARINT
    case LFixed32 => WT_32BIT
    case LFixed64 => WT_64BIT
    case _ => WT_STRING
  }

  function Tag(tag: nat, wireType: nat): seq<byte> {
    Varint.Encode(tag * 8 + wireType)
  }

  function Prefixed(body: seq<byte>): seq<byte> {
    Varint.Encode(|body|) + body
  }

  /** The number as an unsigned 64-bit integer. */
  function ToUnsigned(v: int): nat
    requires -0x8000_0000_0000_0000 <= v < 0x1_0000_0000_0000_0000
  {
    if v < 0 then v + 0x1_0000_0000_0000_0000 else v
  }

  function EncodeScalar(f: Field, v: Value): Option<seq<byte>>
    requires Packable(f.ltype) && FitsValue(f, v)
  {
    match f.ltype
    case LVarint => if Half(f.dataSize) == 0 then None else Some(Varint.Encode(ToUnsigned(v.v)))
    case LUVarint => if Half(f.dataSize) == 0 then None else Some(Varint.Encode(v.v))
    case LSVarint => if Half(f.dataSize) == 0 then None else Some(Varint.Encode(Varint.ZigZag(v.v)))
    case LFixed32 => Some(Varint.Fixed(v.v, 4))
    case LFixed64 => Some(Varint.Fixed(v.v, 8))
  }

  /** The characters of a string up to the first NUL, or all of them. */
  function Text(buf: seq<byte>): (s: seq<byte>)
    ensures |s| <= |buf| && s == buf[..|s|]
    ensures 0 !in s
    ensures |s| < |buf| ==> buf[|s|] == 0
  {
    if buf == [] || buf[0] == 0 then [] else [buf[0]] + Text(buf[1..])
  }

  /** A value as it follows its tag. None: the encoder returns an error. */
  function EncodeValue(f: Field, v: Value): Option<seq<byte>>
    requires FitsValue(f, v) && (f.ltype.LSubmessage? ==> Typed(f.ltype.desc))
    decreases f, 0, 0
  {
    match f.ltype
    case LBytes => if |v.data| + BYTES_HEADER > f.dataSize then None else Some(Prefixed(v.data))
    case LString => Some(Prefixed(Text(v.buf)))
    case LFixedBytes => Some(Prefixed(v.data))
    case LSubmessage(desc) =>
      (match EncodeMessage(desc, v.msg)
       case None => None
       case Some(body) => Some(Prefixed(body)))
    case _ => EncodeScalar(f, v)
  }

  /** The entries of an array one after the other, each with a tag of its own unless they are packed. */
  function EncodeItems(f: Field, items: seq<Value>): Option<seq<byte>>
    requires f.ltype.LSubmessage? ==> Typed(f.ltype.desc)
    requires forall k | 0 <= k < |items| :: FitsValue(f, items[k])
    decreases f, 1, |items|
  {
    if items == [] then Some([])
    else
      var tag := if Packable(f.ltype) then [] else Tag(f.tag, WireType(f.ltype));
      match (EncodeValue(f, items[0]), EncodeItems(f, items[1..]))
      case (Some(first), Some(rest)) => Some(tag + first + rest)
      case _ => None
  }

  /** pb_check_proto3_default_value */
  predicate IsDefaultSlot(f: Field, slot: Slot, which: seq<nat>)
    requires FitsSlot(f, slot) && TypedField(f, |which|)
    decreases f, 1
  {
    match f.rule
    case Required => false
    case Optional => !slot.has
    case Repeated => slot.count == 0
    case OneOf(union) => which[union] == 0
    case Singular => IsZeroValue(f, slot.v)
  }

  predicate IsZeroValue(f: Field, v: Value)
    requires FitsValue(f, v)
    requires f.ltype.LSubmessage? ==> Typed(f.ltype.desc)
    decreases f, 0
  {
    match f.ltype
    case LBytes => v.data == []
    case LString => v.buf[0] == 0
    case LFixedBytes => f.dataSize == 0
    case LSubmessage(desc) => AllDefault(desc, v.msg)
    case LVarint | LUVarint | LSVarint | LFixed32 | LFixed64 => v.v == 0
  }

  predicate AllDefault(d: Desc, m: Message)
    requires Typed(d) && FitsMessage(d, m)
    decreases d
  {
    forall i | 0 <= i < |d.fields| :: IsDefaultSlot(d.fields[i], m.slots[i], m.which)
  }

  /** Whether the encoder writes the field at all. */
  predicate Present(f: Field, slot: Slot, which: seq<nat>)
    requires FitsSlot(f, slot) && TypedField(f, |which|)
  {
    match f.rule
    case Required => true
    case Optional => slot.has
    case Singular => !IsZeroValue(f, slot.v)
    case Repeated => slot.count > 0
    case OneOf(union) => which[union] == f.tag
  }

  /** encode_basic_field */
  function EncodeSlot(f: Field, slot: Slot, which: seq<nat>): Option<seq<byte>>
    requires FitsSlot(f, slot) && TypedField(f, |which|)
    decreases f, 2, 0
  {
    if !Present(f, slot, which) then Some([])
    else if f.rule.Repeated? then
      if slot.count > f.arraySize then None
      else
        match EncodeItems(f, slot.items[..slot.count])
        case None => None
        case Some(body) => Some(if Packable(f.ltype) then Tag(f.tag, WT_STRING) + Prefixed(body) else body)
    else
      match EncodeValue(f, slot.v)
      case None => None
      case Some(body) => Some(Tag(f.tag, WireType(f.ltype)) + body)
  }

  /** pb_encode */
  function EncodeMessage(d: Desc, m: Message): Option<seq<byte>>
    requires Typed(d) && FitsMessage(d, m)
    decreases d, 1, 0
  {
    EncodeFrom(d, m, 0)
  }

  function EncodeFrom(d: Desc, m: Message, i: nat): Option<seq<byte>>
    requires Typed(d) && FitsMessage(d, m) && i <= |d.fields|
    decreases d, 0, |d.fields| - i
  {
    if i == |d.fields| then Some([])
    else
      match (EncodeSlot(d.fields[i], m.slots[i], m.which), EncodeFrom(d, m, i + 1))
      case (Some(first), Some(rest)) => Some(first + rest)
      case _ => None
  }

  // Reading

  datatype TagResult = BadTag | EndTag(rest: seq<byte>) | FieldTag(tag: nat, wireType: nat, rest: seq<byte>)

  /** pb_decode_tag on a stream that is not empty; a zero ends the message. */
  function DecodeTag(s: seq<byte>): (r: TagResult)
    ensures r.FieldTag? ==> |r.rest| < |s|
    ensures r.EndTag? ==> |r.rest| < |s|
  {
    match Varint.Decode32(s)
    case None => BadTag
    case Some((v, rest)) => if v == 0 then EndTag(rest) else FieldTag(v / 8, v % 8, rest)
  }

  function Drop(s: seq<byte>, n: nat): (r: Option<seq<byte>>)
    ensures r.Some? ==> |r.value| <= |s|
  {
    if n <= |s| then Some(s[n..]) else None
  }

  /** pb_skip_field */
  function SkipField(wireType: nat, s: seq<byte>): (r: Option<seq<byte>>)
    ensures r.Some? ==> |r.value| <= |s|
  {
    if wireType == WT_VARINT then
      match Varint.Span(s)
      case None => None
      case Some(n) => Some(s[n..])
    else if wireType == WT_64BIT then Drop(s, 8)
    else if wireType == WT_STRING then
      match Varint.Decode32(s)
      case None => None
      case Some((n, rest)) => Drop(rest, n)
    else if wireType == WT_32BIT then Drop(s, 4)
    else None
  }

  function ToSigned32(v: nat): (r: int)
    requires v < 0x1_0000_0000
    ensures -0x8000_0000 <= r < 0x8000_0000
  {
    if v < 0x8000_0000 then v else v - 0x1_0000_0000
  }

  function ToSigned64(v: nat): (r: int)
    requires v < 0x1_0000_0000_0000_0000
    ensures -0x8000_0000_0000_0000 <= r < 0x8000_0000_0000_0000
  {
    if v < 0x8000_0000_0000_0000 then v else v - 0x1_0000_0000_0000_0000
  }

  /** The value kept by a signed member of the given size, if it holds it. */
  function Signed(v: int, size: nat): Option<Value> {
    if Half(size) > 0 && 0 <= v + Half(size) < 2 * Half(size) then Some(IntV(v)) else None
  }

  function ScalarOf(f: Field, v: nat): (r: Option<Value>)
    requires f.ltype.LVarint? || f.ltype.LUVarint? || f.ltype.LSVarint?
    requires v < 0x1_0000_0000_0000_0000
    ensures r.Some? ==> FitsValue(f, r.value)
  {
    match f.ltype
    case LVarint => Signed(if f.dataSize == 8 then ToSigned64(v) else ToSigned32(v % 0x1_0000_0000), f.dataSize)
    case LSVarint => Signed(Varint.UnZigZag(v), f.dataSize)
    case LUVarint => if v < 2 * Half(f.dataSize) then Some(IntV(v)) else None
  }

  function DecodeScalar(f: Field, s: seq<byte>): (r: Option<(Value, seq<byte>)>)
    requires Packable(f.ltype)
    ensures r.Some? ==> FitsValue(f, r.value.0) && |r.value.1| < |s|
  {
    match f.ltype
    case LFixed32 =>
      if |s| < 4 then None
      else
        Varint.FixedBound(s[..4]); Shl32(1);
        Some((IntV(Varint.FixedValue(s[..4])), s[4..]))
    case LFixed64 =>
      if |s| < 8 then None
      else
        Varint.FixedBound(s[..8]); Shl64(1);
        Some((IntV(Varint.FixedValue(s[..8])), s[8..]))
    case LVarint | LUVarint | LSVarint =>
      match Varint.Decode(s)
      case None => None
      case Some((v, rest)) =>
        match ScalarOf(f, v)
        case None => None
        case Some(value) => Some((value, rest))
  }

  /** A length and that many bytes. */
  function DecodePrefixed(s: seq<byte>): (r: Option<(seq<byte>, seq<byte>)>)
    ensures r.Some? ==> |r.value.0| + |r.value.1| < |s| && |r.value.0| < 0x1_0000_0000
  {
    match Varint.Decode32(s)
    case None => None
    case Some((n, rest)) => if n <= |rest| then Some((rest[..n], rest[n..])) else None
  }

  /** What the bytes of a length-delimited value of f, other than a submessage, leave in a member that holds cur. */
  function StoreBytes(f: Field, cur: Value, body: seq<byte>): (r: Option<Value>)
    requires f.ltype.LBytes? || f.ltype.LString? || f.ltype.LFixedBytes?
    requires FitsValue(f, cur)
    ensures r.Some? ==> FitsValue(f, r.value)
  {
    match f.ltype
    case LBytes => if |body| + BYTES_HEADER > f.dataSize then None else Some(BytesV(body))
    case LString =>
      if |body| + 1 > f.dataSize then None else Some(StringV(body + [0] + cur.buf[|body| + 1..]))
    case LFixedBytes =>
      if body == [] then Some(FixedBytesV(seq(f.dataSize, _ => 0)))
      else if |body| != f.dataSize then None
      else Some(FixedBytesV(body))
  }

  /** The decoder of f's type, on a member that holds cur. */
  function DecodeValue(f: Field, cur: Value, s: seq<byte>): (r: Option<(Value, seq<byte>)>)
    requires FitsValue(f, cur) && (f.ltype.LSubmessage? ==> Typed(f.ltype.desc))
    ensures r.Some? ==> FitsValue(f, r.value.0) && |r.value.1| < |s|
    decreases |s|, 0
  {
    match f.ltype
    case LBytes | LString | LFixedBytes =>
      (match DecodePrefixed(s)
       case None => None
       case Some((body, rest)) =>
         match StoreBytes(f, cur, body)
         case None => None
         case Some(value) => Some((value, rest)))
    case LSubmessage(desc) =>
      (match DecodePrefixed(s)
       case None => None
       case Some((body, rest)) =>
         var m := if f.rule.Repeated? then Defaults(desc, cur.msg) else cur.msg;
         match DecodeFields(desc, m, {}, body)
         case None => None
         case Some((m', _)) => Some((MessageV(m'), rest)))
    case _ => DecodeScalar(f, s)
  }

  /** The packed entries s appended to an array. */
  function DecodePacked(f: Field, slot: Slot, s: seq<byte>): (r: Option<Slot>)
    requires f.rule.Repeated? && Packable(f.ltype) && FitsSlot(f, slot)
    ensures r.Some? ==> FitsSlot(f, r.value)
    decreases |s|
  {
    if s == [] then Some(slot)
    else if slot.count >= f.arraySize then None
    else
      match DecodeScalar(f, s)
      case None => None
      case Some((v, rest)) => DecodePacked(f, Arr(slot.count + 1, slot.items[slot.count := v]), rest)
  }

  /** decode_static_field, but for the which_ member of a union. */
  function DecodeSlot(f: Field, unions: nat, wireType: nat, slot: Slot, s: seq<byte>): (r: Option<(Slot, seq<byte>)>)
    requires TypedField(f, unions) && FitsSlot(f, slot)
    ensures r.Some? ==> FitsSlot(f, r.value.0) && |r.value.1| < |s|
    decreases |s|, 1
  {
    if f.rule.Repeated? && wireType == WT_STRING && Packable(f.ltype) then
      match DecodePrefixed(s)
      case None => None
      case Some((body, rest)) =>
        match DecodePacked(f, slot, body)
        case None => None
        case Some(slot') => Some((slot', rest))
    else if f.rule.Repeated? then
      if slot.count >= f.arraySize then None
      else
        match DecodeValue(f, slot.items[slot.count], s)
        case None => None
        case Some((v, rest)) => Some((Arr(slot.count + 1, slot.items[slot.count := v]), rest))
    else
      match DecodeValue(f, Target(f, unions, slot), s)
      case None => None
      case Some((v, rest)) => Some((if f.rule.Optional? then Opt(true, v) else One(v), rest))
  }

  /** What the member holds when its decoder runs; a submessage in a union starts from its defaults. */
  function Target(f: Field, unions: nat, slot: Slot): (v: Value)
    requires TypedField(f, unions) && FitsSlot(f, slot) && !f.rule.Repeated?
    ensures FitsValue(f, v)
  {
    if f.rule.OneOf? && f.ltype.LSubmessage? then MessageV(Defaults(f.ltype.desc, ZeroMessage(f.ltype.desc)))
    else slot.v
  }

  /** Every required field the decoder keeps track of has been seen. */
  predicate Complete(d: Desc, seen: set<nat>) {
    forall i | 0 <= i < |d.fields| && d.fields[i].rule.Required? && RequiredBefore(d, i) < MAX_REQUIRED :: i in seen
  }

  /** Whether a tag finds the terminator of the table: tag 0 does, where there is nothing before the terminator. Its
      entry reads as a varint of no size, which cannot be decoded. */
  predicate FindsTerminator(d: Desc, tag: nat) {
    d.fields == [] && tag == 0
  }

  /** pb_decode_noinit: the message and what is left of the stream. */
  function DecodeFields(d: Desc, m: Message, seen: set<nat>, s: seq<byte>): (r: Option<(Message, seq<byte>)>)
    requires Typed(d) && FitsMessage(d, m)
    ensures r.Some? ==> FitsMessage(d, r.value.0) && |r.value.1| <= |s|
    decreases |s|, 2
  {
    if s == [] then if Complete(d, seen) then Some((m, s)) else None
    else
      match DecodeTag(s)
      case BadTag => None
      case EndTag(rest) => if Complete(d, seen) then Some((m, rest)) else None
      case FieldTag(tag, wireType, rest) =>
        match Find(d, tag)
        case None =>
          if FindsTerminator(d, tag) then None else
          (match SkipField(wireType, rest)
           case None => None
           case Some(rest') => DecodeFields(d, m, seen, rest'))
        case Some(i) =>
          (match DecodeSlot(d.fields[i], d.unions, wireType, m.slots[i], rest)
           case None => None
           case Some((slot, rest')) => DecodeFields(d, Stored(d, m, i, slot), seen + {i}, rest'))
  }

  /** The message with field i holding slot; a member of a union becomes its active one. */
  function Stored(d: Desc, m: Message, i: nat, slot: Slot): (r: Message)
    requires Typed(d) && FitsMessage(d, m) && i < |d.fields| && FitsSlot(d.fields[i], slot)
    ensures FitsMessage(d, r)
  {
    var f := d.fields[i];
    assert TypedField(f, d.unions);
    Message(m.slots[i := slot], if f.rule.OneOf? then m.which[f.rule.union := f.tag] else m.which)
  }

  /** pb_decode */
  function DecodeMessage(d: Desc, m: Message, s: seq<byte>): Option<(Message, seq<byte>)>
    requires Typed(d) && FitsMessage(d, m)
  {
    DecodeFields(d, Defaults(d, m), {}, s)
  }
}
