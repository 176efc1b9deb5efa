/** Which messages the encoder accepts. */
module PbEncodable {
  import opened Bytes
  import opened PbTypes
  import opened PbWire

  /** Bytes fit their member with its length in front, integers have the size of a C type, and submessages can be
      encoded themselves. */
  ghost predicate EncodableValue(f: Field, v: Value)
    requires FitsValue(f, v) && (f.ltype.LSubmessage? ==> Typed(f.ltype.desc))
    decreases f, 0
  {
    match f.ltype
    case LVarint | LUVarint | LSVarint => Half(f.dataSize) > 0
    case LBytes => |v.data| + BYTES_HEADER <= f.dataSize
    case LSubmessage(desc) => Encodable(desc, v.msg)
    case _ => true
  }

  /** An array has no more entries than it has room for. Only what is written matters. */
  ghost predicate EncodableSlot(f: Field, slot: Slot, which: seq<nat>)
    requires FitsSlot(f, slot) && TypedField(f, |which|)
    decreases f, 1
  {
    Present(f, slot, which) ==>
      if f.rule.Repeated?
      then slot.count <= f.arraySize && forall k | 0 <= k < slot.count :: EncodableValue(f, slot.items[k])
      else EncodableValue(f, slot.v)
  }

  ghost predicate Encodable(d: Desc, m: Message)
    requires Typed(d) && FitsMessage(d, m)
    decreases d
  {
    forall i | 0 <= i < |d.fields| :: EncodableSlot(d.fields[i], m.slots[i], m.which)
  }

  lemma {:induction false} ValueEncodable(f: Field, v: Value)
    requires FitsValue(f, v) && (f.ltype.LSubmessage? ==> Typed(f.ltype.desc))
    ensures EncodeValue(f, v).Some? <==> EncodableValue(f, v)
    decreases f, 0
  {
    if f.ltype.LSubmessage? {
      EncodableExactly(f.ltype.desc, v.msg);
    }
  }

  lemma {:induction false} ItemsEncodable(f: Field, items: seq<Value>)
    requires f.ltype.LSubmessage? ==> Typed(f.ltype.desc)
    requires forall k | 0 <= k < |items| :: FitsValue(f, items[k])
    ensures EncodeItems(f, items).Some? <==> forall k | 0 <= k < |items| :: EncodableValue(f, items[k])
    decreases f, 1, |items|
  {
    hide EncodeValue, EncodableValue;
    if items != [] {
      ValueEncodable(f, items[0]);
      ItemsEncodable(f, items[1..]);
      assert items == [items[0]] + items[1..];
    }
  }

  lemma {:induction false} SlotEncodable(f: Field, slot: Slot, which: seq<nat>)
    requires FitsSlot(f, slot) && TypedField(f, |which|)
    ensures EncodeSlot(f, slot, which).Some? <==> EncodableSlot(f, slot, which)
    decreases f, 2
  {
    hide EncodeValue, EncodableValue, EncodeItems;
    if f.rule.Repeated? {
      if slot.count <= f.arraySize {
        ItemsEncodable(f, slot.items[..slot.count]);
      }
    } else {
      ValueEncodable(f, slot.v);
    }
  }

  lemma {:induction false} FieldsEncodable(d: Desc, m: Message, i: nat)
    requires Typed(d) && FitsMessage(d, m) && i <= |d.fields|
    ensures EncodeFrom(d, m, i).Some? <==>
            forall j | i <= j < |d.fields| :: EncodableSlot(d.fields[j], m.slots[j], m.which)
    decreases d, 0, |d.fields| - i
  {
    if i < |d.fields| {
      assert TypedField(d.fields[i], d.unions) && FitsSlot(d.fields[i], m.slots[i]);
      hide EncodeSlot, EncodableSlot;
      SlotEncodable(d.fields[i], m.slots[i], m.which);
      FieldsEncodable(d, m, i + 1);
    }
  }

  /** The encoder accepts a message exactly when, at every depth, counts and bytes fit and integers have a size it
      knows. */
  lemma {:induction false} EncodableExactly(d: Desc, m: Message)
    requires Typed(d) && FitsMessage(d, m)
    ensures EncodeMessage(d, m).Some? <==> Encodable(d, m)
    decreases d, 1
  {
    FieldsEncodable(d, m, 0);
  }
}
