/** What it means for a received message to be the sent one, seen through the receiver's descriptors. */
module PbAgree {
  import opened Bytes
  import opened PbTypes
  import opened PbWire

  // Descriptors of one message type at two points of its history

  /** r and s describe the same field; their submessages may have grown or lost fields. At zero a proto3 field is not
      sent, so the receiver's default is zero. */
  ghost predicate Compatible(r: Field, s: Field)
    decreases r, 0
  {
    && r.tag == s.tag && r.rule == s.rule && r.arraySize == s.arraySize
    && if r.ltype.LSubmessage? && s.ltype.LSubmessage? then Evolves(r.ltype.desc, s.ltype.desc)
       else r.ltype == s.ltype && r.dataSize == s.dataSize && (r.rule.Singular? ==> ZeroDefault(r))
  }

  /** The receiver's table R may lack any of the sender's fields and have fields of its own,
      as long as the sender knows every field R requires. */
  ghost predicate Evolves(R: Desc, S: Desc)
    decreases R
  {
    && R.unions == S.unions
    && forall j | 0 <= j < |R.fields| :: KnownTo(R.fields[j], S)
  }

  ghost predicate KnownTo(r: Field, S: Desc)
    decreases r, 1
  {
    match Find(S, r.tag)
    case None => !r.rule.Required?
    case Some(i) => Compatible(r, S.fields[i])
  }

  // Members nothing has been decoded into

  ghost predicate FreshValue(f: Field, v: Value)
    decreases f, 0
  {
    if f.ltype.LSubmessage? then v.MessageV? && Fresh(f.ltype.desc, v.msg)
    else (f.ltype.LString? ==> f.dataSize > 0) && v == if f.default.Some? then f.default.value else ZeroValue(f)
  }

  /** The has_ flag is off, the count is zero, or the value is the default. */
  ghost predicate FreshSlot(f: Field, slot: Slot)
    decreases f, 1
  {
    match f.rule
    case Optional => slot.Opt? && !slot.has && FreshValue(f, slot.v)
    case Repeated => slot.Arr? && slot.count == 0
    case OneOf(_) => slot.One?
    case _ => slot.One? && FreshValue(f, slot.v)
  }

  ghost predicate Fresh(d: Desc, m: Message)
    decreases d
  {
    && |m.slots| == |d.fields| && |m.which| == d.unions
    && (forall g | 0 <= g < d.unions :: m.which[g] == 0)
    && forall i | 0 <= i < |d.fields| :: FreshSlot(d.fields[i], m.slots[i])
  }

  lemma {:induction false} DefaultsAreFresh(d: Desc, m: Message)
    requires Typed(d) && FitsMessage(d, m)
    ensures Fresh(d, Defaults(d, m))
    decreases d
  {
    forall i | 0 <= i < |d.fields|
      ensures FreshSlot(d.fields[i], Defaults(d, m).slots[i])
    {
      var f := d.fields[i];
      assert TypedField(f, d.unions) && FitsSlot(f, m.slots[i]);
      if !f.rule.Repeated? {
        var v := m.slots[i].v;
        if f.ltype.LSubmessage? {
          DefaultsAreFresh(f.ltype.desc, v.msg);
        }
        assert FreshValue(f, DefaultValue(f, v));
      }
    }
  }

  // Observable equality

  /** Strings are compared up to their NUL, submessages field by field. */
  ghost predicate SameValue(r: Field, s: Field, sent: Value, got: Value)
    decreases r, 0
  {
    match (sent, got)
    case (IntV(a), IntV(b)) => a == b
    case (BytesV(a), BytesV(b)) => a == b
    case (StringV(a), StringV(b)) => Text(a) == Text(b)
    case (FixedBytesV(a), FixedBytesV(b)) => a == b
    case (MessageV(a), MessageV(b)) =>
      r.ltype.LSubmessage? && s.ltype.LSubmessage? && SameMessage(r.ltype.desc, s.ltype.desc, a, b)
    case _ => false
  }

  /** Same has_ flag and value, or same count and entries; a member of a union counts while it is active. */
  ghost predicate SameSlot(r: Field, s: Field, sent: Slot, got: Slot, active: bool)
    decreases r, 1
  {
    match r.rule
    case Optional => sent.Opt? && got.Opt? && sent.has == got.has && (sent.has ==> SameValue(r, s, sent.v, got.v))
    case Repeated =>
      && sent.Arr? && got.Arr? && sent.count == got.count <= |sent.items| && got.count <= |got.items|
      && forall k | 0 <= k < sent.count :: SameValue(r, s, sent.items[k], got.items[k])
    case OneOf(_) => sent.One? && got.One? && (active ==> SameValue(r, s, sent.v, got.v))
    case _ => sent.One? && got.One? && SameValue(r, s, sent.v, got.v)
  }

  predicate Active(f: Field, which: seq<nat>)
  {
    f.rule.OneOf? && f.rule.union < |which| && which[f.rule.union] == f.tag
  }

  /** The receiver's field r once the sender's first k fields have arrived. */
  ghost predicate SameField(r: Field, S: Desc, sent: Message, got: Slot, k: nat)
    requires |sent.slots| == |S.fields|
    decreases r, 2
  {
    match Find(S, r.tag)
    case Some(i) =>
      if i < k then SameSlot(r, S.fields[i], sent.slots[i], got, Active(r, sent.which))
      else FreshSlot(r, got)
    case None => FreshSlot(r, got)
  }

  /** The active member of union g, if the receiver knows it and the sender has sent it. */
  ghost function Choice(R: Desc, S: Desc, which: seq<nat>, k: nat, g: nat): nat
    requires g < |which|
  {
    match Find(S, which[g])
    case Some(i) => if i < k && S.fields[i].rule == OneOf(g) && Find(R, which[g]).Some? then which[g] else 0
    case None => 0
  }

  ghost predicate SameUpTo(R: Desc, S: Desc, sent: Message, got: Message, k: nat)
    decreases R, 0
  {
    && |sent.slots| == |S.fields| && |sent.which| == S.unions
    && |got.slots| == |R.fields| && |got.which| == R.unions == S.unions
    && (forall g | 0 <= g < R.unions :: got.which[g] == Choice(R, S, sent.which, k, g))
    && (forall j | 0 <= j < |R.fields| :: SameField(R.fields[j], S, sent, got.slots[j], k))
  }

  /** got is sent as R sees it: every field both tables have holds the same value,
      every field only R has is at its default, and the unions have the same active members. */
  ghost predicate SameMessage(R: Desc, S: Desc, sent: Message, got: Message)
    decreases R, 1
  {
    SameUpTo(R, S, sent, got, |S.fields|)
  }

  // NUL-terminated strings

  ghost predicate TerminatedValue(f: Field, v: Value)
    requires FitsValue(f, v) && (f.ltype.LSubmessage? ==> Typed(f.ltype.desc))
    decreases f, 0
  {
    match f.ltype
    case LString => 0 in v.buf
    case LSubmessage(desc) => Terminated(desc, v.msg)
    case _ => true
  }

  ghost predicate TerminatedSlot(f: Field, slot: Slot, which: seq<nat>)
    requires FitsSlot(f, slot) && TypedField(f, |which|)
    decreases f, 1
  {
    Present(f, slot, which) ==>
      if f.rule.Repeated? then
        forall k | 0 <= k < slot.count && k < |slot.items| :: TerminatedValue(f, slot.items[k])
      else TerminatedValue(f, slot.v)
  }

  /** Every string the encoder writes has its NUL. */
  ghost predicate Terminated(d: Desc, m: Message)
    requires Typed(d) && FitsMessage(d, m)
    decreases d
  {
    forall i | 0 <= i < |d.fields| :: TerminatedSlot(d.fields[i], m.slots[i], m.which)
  }

  // Lengths that the decoder can read

  /** The decoder reads the lengths of submessages and of packed arrays as 32-bit numbers; those of bytes and strings
      fit, since their members do. */
  ghost predicate NarrowValue(f: Field, v: Value)
    requires FitsValue(f, v) && (f.ltype.LSubmessage? ==> Typed(f.ltype.desc))
    decreases f, 0
  {
    match f.ltype
    case LSubmessage(desc) =>
      && Narrow(desc, v.msg)
      && (EncodeMessage(desc, v.msg).Some? ==> |EncodeMessage(desc, v.msg).value| < 0x1_0000_0000)
    case _ => true
  }

  ghost predicate NarrowSlot(f: Field, slot: Slot, which: seq<nat>)
    requires FitsSlot(f, slot) && TypedField(f, |which|)
    decreases f, 1
  {
    Present(f, slot, which) ==>
      if f.rule.Repeated? then
        && (forall k | 0 <= k < slot.count && k < |slot.items| :: NarrowValue(f, slot.items[k]))
        && (Packable(f.ltype) && slot.count <= |slot.items| && EncodeItems(f, slot.items[..slot.count]).Some? ==>
              |EncodeItems(f, slot.items[..slot.count]).value| < 0x1_0000_0000)
      else NarrowValue(f, slot.v)
  }

  /** Every length that is written ahead of a submessage or of a packed array, at any depth, has 32 bits. */
  ghost predicate Narrow(d: Desc, m: Message)
    requires Typed(d) && FitsMessage(d, m)
    decreases d
  {
    forall i | 0 <= i < |d.fields| :: NarrowSlot(d.fields[i], m.slots[i], m.which)
  }
}
