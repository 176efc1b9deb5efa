/** Field descriptor tables and the message structs they describe (statically allocated fields). */
module PbTypes {
  import opened Bytes

  /** The contents of one struct member. A char array keeps its bytes after the NUL. */
  datatype Value =
    | IntV(v: int)
    | BytesV(data: seq<byte>)
    | StringV(buf: seq<byte>)
    | FixedBytesV(data: seq<byte>)
    | MessageV(msg: Message)

  /** A struct member with its has_ flag or its count. */
  datatype Slot =
    | One(v: Value)
    | Opt(has: bool, v: Value)
    | Arr(count: nat, items: seq<Value>)

  /** One slot for each field, and the which_ members of the unions. */
  datatype Message = Message(slots: seq<Slot>, which: seq<nat>)

  datatype LType =
    | LVarint
    | LUVarint
    | LSVarint
    | LFixed32
    | LFixed64
    | LBytes
    | LString
    | LFixedBytes
    | LSubmessage(desc: Desc)

  /** Singular is an optional field without a has_ member, as proto3 has them. */
  datatype Rule = Required | Optional | Singular | Repeated | OneOf(union: nat)

  datatype Field = Field(tag: nat, ltype: LType, rule: Rule, dataSize: nat, arraySize: nat, default: Option<Value>)

  datatype Desc = Desc(fields: seq<Field>, unions: nat)

  const BYTES_HEADER: nat := 4
  const MAX_REQUIRED: nat := 64

  predicate Packable(t: LType) {
    t.LVarint? || t.LUVarint? || t.LSVarint? || t.LFixed32? || t.LFixed64?
  }

  /** Half the number of values of an integer of the given size; 0 for a size that is not supported. */
  function Half(size: nat): nat {
    if size == 1 then 0x80
    else if size == 2 then 0x8000
    else if size == 4 then 0x8000_0000
    else if size == 8 then 0x8000_0000_0000_0000
    else 0
  }

  // The struct has the members the descriptor says

  predicate FitsValue(f: Field, v: Value)
    decreases f, 0
  {
    match f.ltype
    case LVarint => v.IntV? && (Half(f.dataSize) > 0 ==> 0 <= v.v + Half(f.dataSize) < 2 * Half(f.dataSize))
    case LSVarint => v.IntV? && (Half(f.dataSize) > 0 ==> 0 <= v.v + Half(f.dataSize) < 2 * Half(f.dataSize))
    case LUVarint => v.IntV? && (Half(f.dataSize) > 0 ==> 0 <= v.v < 2 * Half(f.dataSize))
    case LFixed32 => v.IntV? && 0 <= v.v < 0x1_0000_0000
    case LFixed64 => v.IntV? && 0 <= v.v < 0x1_0000_0000_0000_0000
    case LBytes => v.BytesV?
    case LString => v.StringV? && |v.buf| == f.dataSize > 0
    case LFixedBytes => v.FixedBytesV? && |v.data| == f.dataSize
    case LSubmessage(desc) => v.MessageV? && FitsMessage(desc, v.msg)
  }

  predicate FitsSlot(f: Field, slot: Slot)
    decreases f, 1
  {
    match f.rule
    case Optional => slot.Opt? && FitsValue(f, slot.v)
    case Repeated => slot.Arr? && |slot.items| == f.arraySize
                  && forall k | 0 <= k < |slot.items| :: FitsValue(f, slot.items[k])
    case _ => slot.One? && FitsValue(f, slot.v)
  }

  predicate FitsMessage(d: Desc, m: Message)
    decreases d
  {
    && |m.slots| == |d.fields|
    && |m.which| == d.unions
    && (forall i | 0 <= i < |d.fields| :: FitsSlot(d.fields[i], m.slots[i]))
  }

  /** What the C types and the generator guarantee of a descriptor table: numbers fit 32 bits, tags are
      distinct and not zero, unions have their which_ member, char arrays are not empty, defaults fit. */
  predicate Typed(d: Desc)
    decreases d
  {
    && (forall i | 0 <= i < |d.fields| :: TypedField(d.fields[i], d.unions))
    && (forall i, j | 0 <= i < j < |d.fields| :: d.fields[i].tag != d.fields[j].tag)
  }

  predicate TypedField(f: Field, unions: nat)
    decreases f
  {
    && 0 < f.tag < 0x1_0000_0000 && f.dataSize < 0x1_0000_0000 && f.arraySize < 0x1_0000_0000
    && (f.rule.OneOf? ==> f.rule.union < unions)
    && (f.ltype.LString? ==> f.dataSize > 0)
    && (f.default.Some? ==> FitsValue(f, f.default.value))
    && (f.ltype.LSubmessage? ==> Typed(f.ltype.desc))
  }

  /** Tags are field numbers of the protocol buffers format, and integers have the size of a C type. */
  ghost predicate WellFormed(d: Desc)
    decreases d
  {
    && Typed(d)
    && forall i | 0 <= i < |d.fields| :: WellFormedField(d.fields[i])
  }

  ghost predicate WellFormedField(f: Field)
    decreases f
  {
    && 0 < f.tag < 0x2000_0000
    && f.dataSize < 0x1_0000_0000
    && (f.ltype.LVarint? || f.ltype.LUVarint? || f.ltype.LSVarint? ==> Half(f.dataSize) > 0)
    && (f.ltype.LSubmessage? ==> WellFormed(f.ltype.desc))
  }

  /** The default of a field that is not sent at zero is zero, or there is none. A submessage has the defaults of its
      own fields, and a byte array of a fixed length is always sent. */
  predicate ZeroDefault(f: Field)
    decreases f
  {
    match f.ltype
    case LSubmessage(desc) =>
      forall i | 0 <= i < |desc.fields| :: desc.fields[i].rule.Singular? ==> ZeroDefault(desc.fields[i])
    case LBytes => f.default.None? || f.default == Some(BytesV([]))
    case LString => f.default.None? || (f.default.value.StringV? && [0] <= f.default.value.buf)
    case LFixedBytes => f.default.None? || f.dataSize > 0 || f.default == Some(FixedBytesV([]))
    case _ => f.default.None? || f.default == Some(IntV(0))
  }

  /** No proto3 field, at any depth, has a default but zero. */
  ghost predicate ZeroDefaults(d: Desc)
    decreases d
  {
    forall i | 0 <= i < |d.fields| :: ZeroDefaultsIn(d.fields[i])
  }

  ghost predicate ZeroDefaultsIn(f: Field)
    decreases f
  {
    if f.ltype.LSubmessage? then ZeroDefaults(f.ltype.desc) else f.rule.Singular? ==> ZeroDefault(f)
  }

  /** The position of the field with a tag. */
  function Find(d: Desc, tag: nat): (r: Option<nat>)
    ensures r.Some? ==> r.value < |d.fields| && d.fields[r.value].tag == tag
    ensures r.None? ==> forall i | 0 <= i < |d.fields| :: d.fields[i].tag != tag
  {
    FindFrom(d, tag, 0)
  }

  function FindFrom(d: Desc, tag: nat, i: nat): (r: Option<nat>)
    requires i <= |d.fields|
    ensures r.Some? ==> i <= r.value < |d.fields| && d.fields[r.value].tag == tag
    ensures r.None? ==> forall j | i <= j < |d.fields| :: d.fields[j].tag != tag
    decreases |d.fields| - i
  {
    if i == |d.fields| then None
    else if d.fields[i].tag == tag then Some(i)
    else FindFrom(d, tag, i + 1)
  }

  /** Tags are distinct, so a tag has one position. */
  lemma FindUnique(d: Desc, i: nat)
    requires Typed(d) && i < |d.fields|
    ensures Find(d, d.fields[i].tag) == Some(i)
  {
    assert Find(d, d.fields[i].tag).Some?;
  }

  /** The number of required fields before position i. */
  function RequiredBefore(d: Desc, i: nat): (n: nat)
    requires i <= |d.fields|
    ensures n <= i
  {
    if i == 0 then 0
    else RequiredBefore(d, i - 1) + (if d.fields[i - 1].rule.Required? then 1 else 0)
  }

  // Initial contents

  /** What memset to zero leaves in a member. */
  function ZeroValue(f: Field): (v: Value)
    requires f.ltype.LString? ==> f.dataSize > 0
    requires f.ltype.LSubmessage? ==> Typed(f.ltype.desc)
    ensures FitsValue(f, v)
    decreases f, 0
  {
    match f.ltype
    case LBytes => BytesV([])
    case LString => StringV(seq(f.dataSize, _ => 0))
    case LFixedBytes => FixedBytesV(seq(f.dataSize, _ => 0))
    case LSubmessage(desc) => MessageV(ZeroMessage(desc))
    case _ => IntV(0)
  }

  function ZeroSlot(f: Field, unions: nat): (slot: Slot)
    requires TypedField(f, unions)
    ensures FitsSlot(f, slot)
    decreases f, 1
  {
    match f.rule
    case Optional => Opt(false, ZeroValue(f))
    case Repeated => Arr(0, seq(f.arraySize, _ => ZeroValue(f)))
    case _ => One(ZeroValue(f))
  }

  function ZeroMessage(d: Desc): (m: Message)
    requires Typed(d)
    ensures FitsMessage(d, m)
    decreases d
  {
    Message(seq(|d.fields|, i requires 0 <= i < |d.fields| => ZeroSlot(d.fields[i], d.unions)),
            seq(d.unions, _ => 0))
  }

  /** pb_field_set_to_default for a member that holds cur: arrays and unions keep their contents. */
  function DefaultValue(f: Field, cur: Value): (v: Value)
    requires f.ltype.LString? ==> f.dataSize > 0
    requires f.ltype.LSubmessage? ==> Typed(f.ltype.desc)
    requires f.default.Some? ==> FitsValue(f, f.default.value)
    requires FitsValue(f, cur)
    ensures FitsValue(f, v)
    decreases f, 0
  {
    if f.ltype.LSubmessage? then MessageV(Defaults(f.ltype.desc, cur.msg))
    else if f.default.Some? then f.default.value
    else ZeroValue(f)
  }

  function DefaultSlot(f: Field, unions: nat, cur: Slot): (slot: Slot)
    requires TypedField(f, unions) && FitsSlot(f, cur)
    ensures FitsSlot(f, slot)
    decreases f, 1
  {
    match f.rule
    case Optional => Opt(false, DefaultValue(f, cur.v))
    case Repeated => Arr(0, cur.items)
    case OneOf(_) => cur
    case _ => One(DefaultValue(f, cur.v))
  }

  /** pb_message_set_to_defaults */
  function Defaults(d: Desc, m: Message): (r: Message)
    requires Typed(d) && FitsMessage(d, m)
    ensures FitsMessage(d, r)
    decreases d
  {
    Message(seq(|d.fields|, i requires 0 <= i < |d.fields| => DefaultSlot(d.fields[i], d.unions, m.slots[i])),
            seq(d.unions, _ => 0))
  }
}
