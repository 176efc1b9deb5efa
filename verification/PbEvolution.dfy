/** Decoding a whole message with the sender's own table, or with any table it evolves to. */
module PbEvolution {
  import opened Bytes
  import Varint
  import opened PbTypes
  import opened PbWire
  import opened PbAgree
  import opened PbRoundTrip
  import opened PbEncodable

  /** Two well-formed tables of which R can read what S writes. */
  ghost predicate Link(R: Desc, S: Desc) {
    WellFormed(R) && WellFormed(S) && Evolves(R, S)
  }

  /** The sender's k-th field and what becomes of it. */
  ghost predicate Sending(S: Desc, sent: Message, k: nat) {
    WellFormed(S) && FitsMessage(S, sent) && k < |S.fields| && Terminated(S, sent) && Narrow(S, sent)
  }

  lemma FieldFacts(S: Desc, sent: Message, k: nat)
    requires Sending(S, sent, k)
    ensures TypedField(S.fields[k], S.unions) && WellFormedField(S.fields[k])
    ensures FitsSlot(S.fields[k], sent.slots[k]) && |sent.which| == S.unions
    ensures TerminatedSlot(S.fields[k], sent.slots[k], sent.which)
    ensures NarrowSlot(S.fields[k], sent.slots[k], sent.which)
    ensures S.fields[k].ltype.LSubmessage? ==> Typed(S.fields[k].ltype.desc)
  {}

  /** A field the encoder leaves out is at its default in the receiver already. */
  lemma {:induction false} ZeroIsDefault(r: Field, s: Field, v: Value, got: Value)
    requires Compatible(r, s) && WellFormedField(r) && WellFormedField(s)
    requires FitsValue(s, v) && (s.ltype.LSubmessage? ==> Typed(s.ltype.desc))
    requires r.rule.Singular? && IsZeroValue(s, v) && FreshValue(r, got)
    ensures SameValue(r, s, v, got)
    decreases r, 0
  {
    match s.ltype
    case LSubmessage(desc) => DefaultIsFresh(r.ltype.desc, desc, v.msg, got.msg);
    case LFixedBytes => assert v.data == seq(r.dataSize, _ => 0);
    case _ =>
  }

  lemma {:induction false} DefaultIsFresh(R: Desc, S: Desc, sent: Message, got: Message)
    requires Link(R, S) && FitsMessage(S, sent)
    requires AllDefault(S, sent) && Fresh(R, got)
    ensures SameMessage(R, S, sent, got)
    decreases R
  {
    forall j | 0 <= j < |R.fields|
      ensures SameField(R.fields[j], S, sent, got.slots[j], |S.fields|)
    {
      var r := R.fields[j];
      assert KnownTo(r, S) && WellFormedField(r) && FreshSlot(r, got.slots[j]);
      var i := Find(S, r.tag);
      if i.Some? {
        AbsentIsFresh(r, S, sent, i.value, got.slots[j]);
      }
    }
    forall g | 0 <= g < R.unions
      ensures Choice(R, S, sent.which, |S.fields|, g) == 0
    {
      var i := Find(S, sent.which[g]);
      if i.Some? && S.fields[i.value].rule == OneOf(g) {
        assert IsDefaultSlot(S.fields[i.value], sent.slots[i.value], sent.which);
      }
    }
  }

  /** A field at its default agrees with a fresh slot. */
  lemma {:induction false} AbsentIsFresh(r: Field, S: Desc, sent: Message, i: nat, got: Slot)
    requires WellFormed(S) && FitsMessage(S, sent) && i < |S.fields|
    requires Compatible(r, S.fields[i]) && WellFormedField(r) && FreshSlot(r, got)
    requires IsDefaultSlot(S.fields[i], sent.slots[i], sent.which)
          || (TypedField(S.fields[i], S.unions) && !Present(S.fields[i], sent.slots[i], sent.which))
    ensures SameSlot(r, S.fields[i], sent.slots[i], got, Active(r, sent.which))
    decreases r, 1
  {
    var s := S.fields[i];
    assert TypedField(s, S.unions) && WellFormedField(s) && FitsSlot(s, sent.slots[i]);
    match s.rule
    case Singular => ZeroIsDefault(r, s, sent.slots[i].v, got.v);
    case _ =>
  }

  // One field of the sender's message, read by the receiver

  ghost predicate SeenUpTo(R: Desc, S: Desc, seen: set<nat>, k: nat) {
    forall j | 0 <= j < |R.fields| && R.fields[j].rule.Required? ::
      match Find(S, R.fields[j].tag) case Some(i) => i < k ==> j in seen case None => true
  }

  /** The receiver after the sender's first k fields. */
  ghost predicate Received(R: Desc, S: Desc, sent: Message, k: nat, m: Message, seen: set<nat>) {
    FitsMessage(R, m) && SameUpTo(R, S, sent, m, k) && SeenUpTo(R, S, seen, k)
  }

  /** A field that is not written leaves the receiver as it is. */
  lemma AbsentStep(R: Desc, S: Desc, sent: Message, k: nat, m: Message, seen: set<nat>)
    requires Link(R, S) && Sending(S, sent, k) && Received(R, S, sent, k, m, seen)
    requires TypedField(S.fields[k], |sent.which|) && !Present(S.fields[k], sent.slots[k], sent.which)
    ensures Received(R, S, sent, k + 1, m, seen)
  {
    FieldFacts(S, sent, k);
    FindUnique(S, k);
    forall j | 0 <= j < |R.fields|
      ensures SameField(R.fields[j], S, sent, m.slots[j], k + 1)
    {
      var r := R.fields[j];
      assert KnownTo(r, S) && WellFormedField(r) && SameField(r, S, sent, m.slots[j], k);
      if Find(S, r.tag) == Some(k) {
        AbsentIsFresh(r, S, sent, k, m.slots[j]);
      }
    }
    forall g | 0 <= g < R.unions
      ensures m.which[g] == Choice(R, S, sent.which, k + 1, g)
    {
      assert m.which[g] == Choice(R, S, sent.which, k, g);
      assert Find(S, sent.which[g]) == Some(k) ==> S.fields[k].tag == sent.which[g];
    }
    forall j | 0 <= j < |R.fields| && Find(S, R.fields[j].tag) == Some(k)
      ensures !R.fields[j].rule.Required?
    {
      assert KnownTo(R.fields[j], S);
      assert Compatible(R.fields[j], S.fields[k]);
    }
  }

  /** A field the receiver does not know leaves it as it is. */
  lemma UnknownStep(R: Desc, S: Desc, sent: Message, k: nat, m: Message, seen: set<nat>)
    requires Link(R, S) && Sending(S, sent, k) && Received(R, S, sent, k, m, seen)
    requires Find(R, S.fields[k].tag).None?
    ensures Received(R, S, sent, k + 1, m, seen)
  {
    FindUnique(S, k);
    forall j | 0 <= j < |R.fields|
      ensures SameField(R.fields[j], S, sent, m.slots[j], k + 1)
    {
      assert SameField(R.fields[j], S, sent, m.slots[j], k);
    }
    forall g | 0 <= g < R.unions
      ensures m.which[g] == Choice(R, S, sent.which, k + 1, g)
    {
      assert m.which[g] == Choice(R, S, sent.which, k, g);
    }
  }

  /** A field the receiver knows ends up in its slot, and nothing else changes. */
  lemma KnownStep(R: Desc, S: Desc, sent: Message, k: nat, m: Message, seen: set<nat>, j: nat, slot: Slot)
    requires Link(R, S) && Sending(S, sent, k) && Received(R, S, sent, k, m, seen)
    requires Find(R, S.fields[k].tag) == Some(j) && FitsSlot(R.fields[j], slot)
    requires TypedField(S.fields[k], |sent.which|) && Present(S.fields[k], sent.slots[k], sent.which)
    requires SameSlot(R.fields[j], S.fields[k], sent.slots[k], slot, Active(R.fields[j], sent.which))
    ensures Received(R, S, sent, k + 1, Stored(R, m, j, slot), seen + {j})
  {
    FieldFacts(S, sent, k);
    FindUnique(S, k);
    FindUnique(R, j);
    var r, m' := R.fields[j], Stored(R, m, j, slot);
    assert KnownTo(r, S);
    assert Compatible(r, S.fields[k]);
    forall i | 0 <= i < |R.fields|
      ensures SameField(R.fields[i], S, sent, m'.slots[i], k + 1)
    {
      FindUnique(R, i);
      assert SameField(R.fields[i], S, sent, m.slots[i], k);
    }
    forall g | 0 <= g < R.unions
      ensures m'.which[g] == Choice(R, S, sent.which, k + 1, g)
    {
      assert m.which[g] == Choice(R, S, sent.which, k, g);
      if S.fields[k].rule == OneOf(g) {
        assert sent.which[g] == r.tag && Find(S, r.tag) == Some(k);
      }
    }
    forall i | 0 <= i < |R.fields| && R.fields[i].rule.Required? && Find(S, R.fields[i].tag) == Some(k)
      ensures i in seen + {j}
    {
      FindUnique(R, i);
    }
  }

  // The decoding loop over one field's bytes

  /** One turn of the decoding loop on a field the receiver knows. */
  lemma KnownTurn(R: Desc, m: Message, seen: set<nat>, j: nat, wireType: nat, body: seq<byte>, rest: seq<byte>,
                  slot: Slot)
    requires WellFormed(R) && FitsMessage(R, m) && j < |R.fields| && wireType < 8
    requires TypedField(R.fields[j], R.unions) && FitsSlot(R.fields[j], slot)
    requires DecodeSlot(R.fields[j], R.unions, wireType, m.slots[j], body + rest) == Some((slot, rest))
    ensures DecodeFields(R, m, seen, Tag(R.fields[j].tag, wireType) + body + rest)
         == DecodeFields(R, Stored(R, m, j, slot), seen + {j}, rest)
  {
    var tag := R.fields[j].tag;
    assert WellFormedField(R.fields[j]);
    Regroup(Tag(tag, wireType), body, rest);
    TagBack(tag, wireType, body + rest);
    FindUnique(R, j);
  }

  /** One turn of the decoding loop on a field the receiver does not know. */
  lemma UnknownTurn(R: Desc, m: Message, seen: set<nat>, tag: nat, wireType: nat, body: seq<byte>, rest: seq<byte>)
    requires Typed(R) && FitsMessage(R, m) && 0 < tag < 0x2000_0000 && wireType < 8 && Find(R, tag).None?
    requires SkipField(wireType, body + rest) == Some(rest)
    ensures DecodeFields(R, m, seen, Tag(tag, wireType) + body + rest) == DecodeFields(R, m, seen, rest)
  {
    Regroup(Tag(tag, wireType), body, rest);
    TagBack(tag, wireType, body + rest);
  }

  lemma {:induction false} ItemsSkipped(R: Desc, m: Message, seen: set<nat>, s: Field, items: seq<Value>,
                                        rest: seq<byte>)
    requires WellFormed(R) && FitsMessage(R, m) && WellFormedField(s) && Find(R, s.tag).None?
    requires !Packable(s.ltype) && (s.ltype.LSubmessage? ==> Typed(s.ltype.desc))
    requires forall i | 0 <= i < |items| :: FitsValue(s, items[i])
    requires EncodeItems(s, items).Some? && forall i | 0 <= i < |items| :: NarrowValue(s, items[i])
    ensures DecodeFields(R, m, seen, EncodeItems(s, items).value + rest) == DecodeFields(R, m, seen, rest)
    decreases |items|
  {
    if items == [] {
      assert EncodeItems(s, items).value + rest == rest;
    } else {
      var first, more := EncodeValue(s, items[0]).value, EncodeItems(s, items[1..]).value;
      var tag := Tag(s.tag, WireType(s.ltype));
      assert EncodeItems(s, items).value == tag + first + more;
      Regroup(tag + first, more, rest);
      ValueSkipped(s, items[0], more + rest);
      UnknownTurn(R, m, seen, s.tag, WireType(s.ltype), first, more + rest);
      ItemsSkipped(R, m, seen, s, items[1..], rest);
    }
  }

  /** An array slot with values appended. */
  function Filled(slot: Slot, values: seq<Value>): Slot
    requires slot.Arr? && slot.count + |values| <= |slot.items|
  {
    Arr(slot.count + |values|, slot.items[..slot.count] + values + slot.items[slot.count + |values|..])
  }

  lemma FilledNext(slot: Slot, values: seq<Value>)
    requires slot.Arr? && slot.count + |values| <= |slot.items| && values != []
    ensures Filled(Arr(slot.count + 1, slot.items[slot.count := values[0]]), values[1..]) == Filled(slot, values)
  {}

  lemma SameScalars(r: Field, s: Field, v: Value, input: seq<byte>)
    requires Packable(s.ltype) && r.ltype == s.ltype && r.dataSize == s.dataSize && FitsValue(s, v)
    ensures FitsValue(r, v)
    ensures DecodeScalar(r, input) == DecodeScalar(s, input)
  {}

  lemma {:induction false} PackedBack(r: Field, s: Field, slot: Slot, values: seq<Value>)
    requires WellFormedField(s) && Packable(s.ltype) && r.ltype == s.ltype && r.dataSize == s.dataSize
    requires r.rule.Repeated? && FitsSlot(r, slot) && slot.count + |values| <= r.arraySize
    requires forall i | 0 <= i < |values| :: FitsValue(s, values[i])
    ensures EncodeItems(s, values).Some?
    ensures DecodePacked(r, slot, EncodeItems(s, values).value) == Some(Filled(slot, values))
    decreases |values|
  {
    hide DecodeScalar, EncodeScalar, Half;
    if values == [] {
      assert Filled(slot, values).items == slot.items;
    } else {
      var v := values[0];
      var next := Arr(slot.count + 1, slot.items[slot.count := v]);
      SameScalars(r, s, v, []);
      PackedBack(r, s, next, values[1..]);
      FilledNext(slot, values);
      var more := EncodeItems(s, values[1..]).value;
      ScalarBack(s, v, more);
      assert EncodeValue(s, v) == EncodeScalar(s, v);
      var first := EncodeScalar(s, v).value;
      SameScalars(r, s, v, first + more);
      assert EncodeItems(s, values).value == first + more;
    }
  }

  // Submessages: the recursion over the receiver's table

  /** A value is read back by the receiver's field as the same value. */
  lemma {:induction false} ValueBack(r: Field, s: Field, v: Value, cur: Value, rest: seq<byte>)
    requires Compatible(r, s) && WellFormedField(r) && WellFormedField(s)
    requires FitsValue(s, v) && (s.ltype.LSubmessage? ==> Typed(s.ltype.desc)) && TerminatedValue(s, v)
    requires FitsValue(r, cur) && (r.ltype.LSubmessage? ==> Typed(r.ltype.desc))
    requires r.ltype.LSubmessage? && !r.rule.Repeated? ==> Fresh(r.ltype.desc, cur.msg)
    requires EncodeValue(s, v).Some? && NarrowValue(s, v)
    ensures DecodeValue(r, cur, EncodeValue(s, v).value + rest).Some?
    ensures DecodeValue(r, cur, EncodeValue(s, v).value + rest).value.1 == rest
    ensures SameValue(r, s, v, DecodeValue(r, cur, EncodeValue(s, v).value + rest).value.0)
    decreases r, 0, 0
  {
    match s.ltype
    case LSubmessage(desc) =>
      var R := r.ltype.desc;
      var body := EncodeMessage(desc, v.msg).value;
      PrefixedBack(body, rest);
      DefaultsAreFresh(R, cur.msg);
      MessageBack(R, desc, v.msg, if r.rule.Repeated? then Defaults(R, cur.msg) else cur.msg);
    case LBytes => BytesBack(s, v, cur, rest); SameBytes(r, s, v, cur, EncodeValue(s, v).value + rest);
    case LString => BytesBack(s, v, cur, rest); SameBytes(r, s, v, cur, EncodeValue(s, v).value + rest);
    case LFixedBytes => BytesBack(s, v, cur, rest); SameBytes(r, s, v, cur, EncodeValue(s, v).value + rest);
    case _ =>
      ScalarBack(s, v, rest);
      SameScalars(r, s, v, EncodeScalar(s, v).value + rest);
  }

  lemma SameBytes(r: Field, s: Field, v: Value, cur: Value, input: seq<byte>)
    requires s.ltype.LBytes? || s.ltype.LString? || s.ltype.LFixedBytes?
    requires r.ltype == s.ltype && r.dataSize == s.dataSize && FitsValue(s, v) && FitsValue(r, cur)
    ensures FitsValue(s, cur) && DecodeValue(r, cur, input) == DecodeValue(s, cur, input)
  {}

  /** An entry of an array that is sent by itself is appended. */
  lemma {:induction false} ItemBack(R: Desc, m: Message, seen: set<nat>, j: nat, s: Field, v: Value, rest: seq<byte>)
    returns (slot: Slot)
    requires WellFormed(R) && FitsMessage(R, m) && j < |R.fields| && WellFormedField(s)
    requires Compatible(R.fields[j], s) && s.rule.Repeated? && !Packable(s.ltype)
    requires (s.ltype.LSubmessage? ==> Typed(s.ltype.desc)) && FitsValue(s, v) && TerminatedValue(s, v)
    requires m.slots[j].Arr? && m.slots[j].count < |m.slots[j].items|
    requires EncodeValue(s, v).Some? && NarrowValue(s, v)
    ensures FitsSlot(R.fields[j], slot) && slot.Arr? && slot.count == m.slots[j].count + 1
    ensures |slot.items| == |m.slots[j].items|
    ensures slot.items == m.slots[j].items[m.slots[j].count := slot.items[m.slots[j].count]]
    ensures SameValue(R.fields[j], s, v, slot.items[m.slots[j].count])
    ensures DecodeFields(R, m, seen, Tag(s.tag, WireType(s.ltype)) + EncodeValue(s, v).value + rest)
         == DecodeFields(R, Stored(R, m, j, slot), seen + {j}, rest)
    decreases R, 0, 0
  {
    var r, c := R.fields[j], m.slots[j].count;
    assert TypedField(r, R.unions) && WellFormedField(r) && FitsSlot(r, m.slots[j]);
    hide DecodeFields, EncodeValue, WellFormed, Typed, Evolves, SameValue, TerminatedValue;
    var first, cur := EncodeValue(s, v).value, m.slots[j].items[c];
    ValueBack(r, s, v, cur, rest);
    var next := DecodeValue(r, cur, first + rest).value.0;
    slot := Arr(c + 1, m.slots[j].items[c := next]);
    assert WireType(r.ltype) == WireType(s.ltype);
    KnownTurn(R, m, seen, j, WireType(s.ltype), first, rest, slot);
  }

  /** The entries of an array that are sent one by one are appended one by one. */
  lemma {:induction false} ItemsBack(R: Desc, m: Message, seen: set<nat>, j: nat, s: Field, values: seq<Value>,
                                     c: nat, rest: seq<byte>) returns (got: Slot, seen': set<nat>)
    requires WellFormed(R) && FitsMessage(R, m) && j < |R.fields| && WellFormedField(s)
    requires Compatible(R.fields[j], s) && s.rule.Repeated? && !Packable(s.ltype)
    requires s.ltype.LSubmessage? ==> Typed(s.ltype.desc)
    requires c <= |values| <= s.arraySize && m.slots[j].Arr? && m.slots[j].count == c
    requires forall i | 0 <= i < |values| :: FitsValue(s, values[i]) && TerminatedValue(s, values[i])
    requires forall i | 0 <= i < c ::
               i < |m.slots[j].items| && SameValue(R.fields[j], s, values[i], m.slots[j].items[i])
    requires EncodeItems(s, values[c..]).Some? && forall i | 0 <= i < |values| :: NarrowValue(s, values[i])
    ensures FitsSlot(R.fields[j], got) && got.count == |values|
    ensures forall i | 0 <= i < |values| :: SameValue(R.fields[j], s, values[i], got.items[i])
    ensures DecodeFields(R, m, seen, EncodeItems(s, values[c..]).value + rest)
         == DecodeFields(R, Stored(R, m, j, got), seen', rest)
    ensures seen <= seen' <= seen + {j} && (c < |values| ==> j in seen')
    decreases R, 0, |values| - c
  {
    var r := R.fields[j];
    assert TypedField(r, R.unions) && WellFormedField(r) && FitsSlot(r, m.slots[j]);
    hide DecodeFields, EncodeValue, WellFormed, Typed, Evolves, SameValue, TerminatedValue;
    if c == |values| {
      got, seen' := m.slots[j], seen;
      assert EncodeItems(s, values[c..]).value + rest == rest;
      assert Stored(R, m, j, got) == m;
    } else {
      var v := values[c];
      assert values[c..][1..] == values[c + 1..];
      var first, more := EncodeValue(s, v).value, EncodeItems(s, values[c + 1..]).value;
      var tag := Tag(s.tag, WireType(s.ltype));
      assert EncodeItems(s, values[c..]).value == tag + first + more;
      Regroup(tag + first, more, rest);
      var slot := ItemBack(R, m, seen, j, s, v, more + rest);
      got, seen' := ItemsBack(R, Stored(R, m, j, slot), seen + {j}, j, s, values, c + 1, rest);
      assert Stored(R, Stored(R, m, j, slot), j, got) == Stored(R, m, j, got);
    }
  }

  lemma TargetIsFresh(r: Field, unions: nat, slot: Slot)
    requires TypedField(r, unions) && FitsSlot(r, slot) && FreshSlot(r, slot) && !r.rule.Repeated?
    ensures r.ltype.LSubmessage? ==> Fresh(r.ltype.desc, Target(r, unions, slot).msg)
  {
    if r.ltype.LSubmessage? {
      if r.rule.OneOf? {
        DefaultsAreFresh(r.ltype.desc, ZeroMessage(r.ltype.desc));
      } else {
        assert FreshValue(r, slot.v);
      }
    }
  }

  /** The receiver's side of a field that both tables have, before its bytes arrive. */
  lemma KnownFacts(R: Desc, S: Desc, sent: Message, k: nat, m: Message, j: nat)
    requires Link(R, S) && Sending(S, sent, k) && FitsMessage(R, m) && SameUpTo(R, S, sent, m, k)
    requires Find(R, S.fields[k].tag) == Some(j)
    ensures Compatible(R.fields[j], S.fields[k]) && WellFormedField(R.fields[j])
    ensures TypedField(R.fields[j], R.unions) && FitsSlot(R.fields[j], m.slots[j]) && FreshSlot(R.fields[j], m.slots[j])
    ensures WireType(R.fields[j].ltype) == WireType(S.fields[k].ltype)
  {
    FindUnique(S, k);
    assert KnownTo(R.fields[j], S);
    assert SameField(R.fields[j], S, sent, m.slots[j], k);
  }

  /** The bytes of a field with one value leave that value in the receiver's slot. */
  lemma {:induction false} SingleBack(R: Desc, S: Desc, sent: Message, k: nat, m: Message, seen: set<nat>, j: nat,
                                      rest: seq<byte>) returns (got: Slot)
    requires Link(R, S) && Sending(S, sent, k) && FitsMessage(R, m) && SameUpTo(R, S, sent, m, k)
    requires TypedField(S.fields[k], |sent.which|) && Present(S.fields[k], sent.slots[k], sent.which)
    requires Find(R, S.fields[k].tag) == Some(j) && !S.fields[k].rule.Repeated?
    requires EncodeSlot(S.fields[k], sent.slots[k], sent.which).Some?
    ensures FitsSlot(R.fields[j], got)
    ensures SameSlot(R.fields[j], S.fields[k], sent.slots[k], got, Active(R.fields[j], sent.which))
    ensures DecodeFields(R, m, seen, EncodeSlot(S.fields[k], sent.slots[k], sent.which).value + rest)
         == DecodeFields(R, Stored(R, m, j, got), seen + {j}, rest)
    decreases R, 0, 0
  {
    FieldFacts(S, sent, k);
    KnownFacts(R, S, sent, k, m, j);
    var r, s, slot := R.fields[j], S.fields[k], sent.slots[k];
    var body := EncodeValue(s, slot.v).value;
    var cur := Target(r, R.unions, m.slots[j]);
    TargetIsFresh(r, R.unions, m.slots[j]);
    ValueBack(r, s, slot.v, cur, rest);
    var v := DecodeValue(r, cur, body + rest).value.0;
    got := if r.rule.Optional? then Opt(true, v) else One(v);
    KnownTurn(R, m, seen, j, WireType(s.ltype), body, rest, got);
  }

  /** The bytes of a repeated field leave its entries in the receiver's array. */
  lemma {:induction false} ArrayBack(R: Desc, S: Desc, sent: Message, k: nat, m: Message, seen: set<nat>, j: nat,
                                     rest: seq<byte>) returns (got: Slot)
    requires Link(R, S) && Sending(S, sent, k) && FitsMessage(R, m) && SameUpTo(R, S, sent, m, k)
    requires TypedField(S.fields[k], |sent.which|) && Present(S.fields[k], sent.slots[k], sent.which)
    requires Find(R, S.fields[k].tag) == Some(j) && S.fields[k].rule.Repeated?
    requires EncodeSlot(S.fields[k], sent.slots[k], sent.which).Some?
    ensures FitsSlot(R.fields[j], got)
    ensures SameSlot(R.fields[j], S.fields[k], sent.slots[k], got, Active(R.fields[j], sent.which))
    ensures DecodeFields(R, m, seen, EncodeSlot(S.fields[k], sent.slots[k], sent.which).value + rest)
         == DecodeFields(R, Stored(R, m, j, got), seen + {j}, rest)
    decreases R, 1, 0
  {
    hide DecodeFields, DecodePacked, EncodeItems, EncodeValue, Evolves, WellFormed, Typed;
    FieldFacts(S, sent, k);
    KnownFacts(R, S, sent, k, m, j);
    var r, s, slot := R.fields[j], S.fields[k], sent.slots[k];
    var values := slot.items[..slot.count];
    if Packable(s.ltype) {
      PackedBack(r, s, m.slots[j], values);
      var body := EncodeItems(s, values).value;
      got := Filled(m.slots[j], values);
      PrefixedBack(body, rest);
      KnownTurn(R, m, seen, j, WT_STRING, Prefixed(body), rest, got);
    } else {
      assert values[0..] == values;
      var seen1;
      got, seen1 := ItemsBack(R, m, seen, j, s, values, 0, rest);
      assert seen1 == seen + {j};
    }
  }

  /** The bytes of one present field, read by a receiver that knows it. */
  lemma {:induction false} KnownBack(R: Desc, S: Desc, sent: Message, k: nat, m: Message, seen: set<nat>, j: nat,
                                     rest: seq<byte>) returns (m': Message, seen': set<nat>)
    requires Link(R, S) && Sending(S, sent, k) && Received(R, S, sent, k, m, seen)
    requires TypedField(S.fields[k], |sent.which|) && Present(S.fields[k], sent.slots[k], sent.which)
    requires Find(R, S.fields[k].tag) == Some(j)
    requires EncodeSlot(S.fields[k], sent.slots[k], sent.which).Some?
    ensures Received(R, S, sent, k + 1, m', seen')
    ensures DecodeFields(R, m, seen, EncodeSlot(S.fields[k], sent.slots[k], sent.which).value + rest)
         == DecodeFields(R, m', seen', rest)
    decreases R, 2, 0
  {
    var got: Slot;
    if S.fields[k].rule.Repeated? {
      got := ArrayBack(R, S, sent, k, m, seen, j, rest);
    } else {
      got := SingleBack(R, S, sent, k, m, seen, j, rest);
    }
    KnownStep(R, S, sent, k, m, seen, j, got);
    m', seen' := Stored(R, m, j, got), seen + {j};
  }

  /** The bytes of one present field, skipped by a receiver that does not know it. */
  lemma UnknownBack(R: Desc, S: Desc, sent: Message, k: nat, m: Message, seen: set<nat>, rest: seq<byte>)
    requires Link(R, S) && Sending(S, sent, k) && FitsMessage(R, m)
    requires TypedField(S.fields[k], |sent.which|) && Present(S.fields[k], sent.slots[k], sent.which)
    requires Find(R, S.fields[k].tag).None?
    requires EncodeSlot(S.fields[k], sent.slots[k], sent.which).Some?
    ensures DecodeFields(R, m, seen, EncodeSlot(S.fields[k], sent.slots[k], sent.which).value + rest)
         == DecodeFields(R, m, seen, rest)
  {
    FieldFacts(S, sent, k);
    var s, slot := S.fields[k], sent.slots[k];
    if s.rule.Repeated? {
      var body := EncodeItems(s, slot.items[..slot.count]).value;
      if Packable(s.ltype) {
          PrefixedBack(body, rest);
        UnknownTurn(R, m, seen, s.tag, WT_STRING, Prefixed(body), rest);
      } else {
        ItemsSkipped(R, m, seen, s, slot.items[..slot.count], rest);
      }
    } else {
      ValueSkipped(s, slot.v, rest);
      UnknownTurn(R, m, seen, s.tag, WireType(s.ltype), EncodeValue(s, slot.v).value, rest);
    }
  }

  /** The end of the bytes: all required fields were seen. */
  lemma AllBack(R: Desc, S: Desc, sent: Message, m: Message, seen: set<nat>)
    requires Link(R, S) && FitsMessage(S, sent) && Received(R, S, sent, |S.fields|, m, seen)
    ensures DecodeFields(R, m, seen, []) == Some((m, [])) && SameMessage(R, S, sent, m)
  {
    forall j | 0 <= j < |R.fields| && R.fields[j].rule.Required?
      ensures j in seen
    {
      assert KnownTo(R.fields[j], S);
    }
    assert Complete(R, seen);
  }

  /** The sender's fields from the k-th on, read by a receiver that has the first k. */
  lemma {:induction false} FieldsBack(R: Desc, S: Desc, sent: Message, k: nat, m: Message, seen: set<nat>)
    requires Link(R, S) && FitsMessage(S, sent) && Terminated(S, sent) && k <= |S.fields|
    requires Received(R, S, sent, k, m, seen)
    requires EncodeFrom(S, sent, k).Some? && Narrow(S, sent)
    ensures DecodeFields(R, m, seen, EncodeFrom(S, sent, k).value).Some?
    ensures DecodeFields(R, m, seen, EncodeFrom(S, sent, k).value).value.1 == []
    ensures SameMessage(R, S, sent, DecodeFields(R, m, seen, EncodeFrom(S, sent, k).value).value.0)
    decreases R, 3, |S.fields| - k
  {
    if k == |S.fields| {
      AllBack(R, S, sent, m, seen);
    } else {
      FieldFacts(S, sent, k);
      var first := EncodeSlot(S.fields[k], sent.slots[k], sent.which).value;
      var rest := EncodeFrom(S, sent, k + 1).value;
      assert EncodeFrom(S, sent, k).value == first + rest;
      hide EncodeFrom, EncodeSlot, DecodeFields, Present, Received, Terminated, WellFormed, Evolves, SameMessage;
      if !Present(S.fields[k], sent.slots[k], sent.which) {
        AbsentStep(R, S, sent, k, m, seen);
        assert first + rest == rest;
        FieldsBack(R, S, sent, k + 1, m, seen);
      } else {
        var j := Find(R, S.fields[k].tag);
        if j.Some? {
          var m', seen' := KnownBack(R, S, sent, k, m, seen, j.value, rest);
          FieldsBack(R, S, sent, k + 1, m', seen');
        } else {
          UnknownBack(R, S, sent, k, m, seen, rest);
          UnknownStep(R, S, sent, k, m, seen);
          FieldsBack(R, S, sent, k + 1, m, seen);
        }
      }
    }
  }

  /** Any table the sender's evolves to reads its bytes, all of them, as the message it sent. */
  lemma {:induction false} MessageBack(R: Desc, S: Desc, sent: Message, dest: Message)
    requires Link(R, S) && FitsMessage(S, sent) && Terminated(S, sent)
    requires FitsMessage(R, dest) && Fresh(R, dest)
    requires EncodeMessage(S, sent).Some? && Narrow(S, sent)
    ensures DecodeFields(R, dest, {}, EncodeMessage(S, sent).value).Some?
    ensures DecodeFields(R, dest, {}, EncodeMessage(S, sent).value).value.1 == []
    ensures SameMessage(R, S, sent, DecodeFields(R, dest, {}, EncodeMessage(S, sent).value).value.0)
    decreases R, 4, 0
  {
    assert Received(R, S, sent, 0, dest, {});
    FieldsBack(R, S, sent, 0, dest, {});
  }

  // Main results

  /** Schema evolution: the bytes of a message, decoded into any struct of any table the sender's evolves to. */
  lemma Evolution(R: Desc, S: Desc, sent: Message, dest: Message)
    requires WellFormed(R) && WellFormed(S) && Evolves(R, S)
    requires FitsMessage(S, sent) && Terminated(S, sent) && FitsMessage(R, dest)
    requires Encodable(S, sent) && Narrow(S, sent)
    ensures EncodeMessage(S, sent).Some?
    ensures var got := DecodeMessage(R, dest, EncodeMessage(S, sent).value);
            got.Some? && got.value.1 == [] && SameMessage(R, S, sent, got.value.0)
  {
    EncodableExactly(S, sent);
    DefaultsAreFresh(R, dest);
    MessageBack(R, S, sent, Defaults(R, dest));
  }

  lemma {:induction false} SelfEvolves(d: Desc)
    requires WellFormed(d) && ZeroDefaults(d)
    ensures Evolves(d, d)
    decreases d, 1
  {
    forall j | 0 <= j < |d.fields|
      ensures KnownTo(d.fields[j], d)
    {
      FindUnique(d, j);
      SelfCompatible(d.fields[j]);
    }
  }

  lemma {:induction false} SelfCompatible(f: Field)
    requires WellFormedField(f) && ZeroDefaultsIn(f)
    ensures Compatible(f, f)
    decreases f, 0
  {
    if f.ltype.LSubmessage? {
      SelfEvolves(f.ltype.desc);
    }
  }

  /** Round trip: what pb_encode writes, pb_decode reads to its last byte as an observably equal message. */
  lemma RoundTrip(d: Desc, sent: Message, dest: Message)
    requires WellFormed(d) && ZeroDefaults(d)
    requires FitsMessage(d, sent) && Terminated(d, sent) && FitsMessage(d, dest)
    requires Encodable(d, sent) && Narrow(d, sent)
    ensures EncodeMessage(d, sent).Some?
    ensures var got := DecodeMessage(d, dest, EncodeMessage(d, sent).value);
            && got.Some? && got.value.1 == [] && SameMessage(d, d, sent, got.value.0)
            && forall i | 0 <= i < |d.fields| ::
                 SameSlot(d.fields[i], d.fields[i], sent.slots[i], got.value.0.slots[i],
                          Active(d.fields[i], sent.which))
  {
    SelfEvolves(d);
    Evolution(d, d, sent, dest);
    var got := DecodeMessage(d, dest, EncodeMessage(d, sent).value).value.0;
    forall i | 0 <= i < |d.fields|
      ensures SameSlot(d.fields[i], d.fields[i], sent.slots[i], got.slots[i], Active(d.fields[i], sent.which))
    {
      FindUnique(d, i);
      assert SameField(d.fields[i], d, sent, got.slots[i], |d.fields|);
    }
  }

  // A proto3 field at zero

  /** Zero agrees with a fresh member exactly when the member's default is zero. */
  lemma {:induction false} ZeroIsFresh(f: Field, unions: nat, v: Value, got: Value)
    requires TypedField(f, unions) && FitsValue(f, v) && IsZeroValue(f, v) && FreshValue(f, got)
    ensures SameValue(f, f, v, got) <==> ZeroDefault(f)
    decreases f
  {
    match f.ltype
    case LSubmessage(desc) =>
      forall i | 0 <= i < |desc.fields|
        ensures SameField(desc.fields[i], desc, v.msg, got.msg.slots[i], |desc.fields|) <==>
                (desc.fields[i].rule.Singular? ==> ZeroDefault(desc.fields[i]))
      {
        var g, sent, clean := desc.fields[i], v.msg.slots[i], got.msg.slots[i];
        FindUnique(desc, i);
        assert TypedField(g, desc.unions) && FitsSlot(g, sent) && IsDefaultSlot(g, sent, v.msg.which);
        assert FreshSlot(g, clean);
        if g.rule.Singular? {
          ZeroIsFresh(g, desc.unions, sent.v, clean.v);
        }
      }
      forall g | 0 <= g < desc.unions
        ensures Choice(desc, desc, v.msg.which, |desc.fields|, g) == 0
      {
        var i := Find(desc, v.msg.which[g]);
        if i.Some? && desc.fields[i.value].rule == OneOf(g) {
          assert IsDefaultSlot(desc.fields[i.value], v.msg.slots[i.value], v.msg.which);
        }
      }
      assert SameMessage(desc, desc, v.msg, got.msg) <==> ZeroDefault(f);
    case LFixedBytes =>
      assert v.data == seq(f.dataSize, _ => 0) == [];
      if f.default.Some? {
        assert f.default.value.data == [];
      }
      assert SameValue(f, f, v, got) <==> ZeroDefault(f);
    case LString =>
      assert Text(v.buf) == [] && (Text(got.buf) == [] <==> got.buf[0] == 0);
      if f.default.Some? {
        assert [0] <= got.buf <==> got.buf[0] == 0;
      }
      assert SameValue(f, f, v, got) <==> ZeroDefault(f);
    case _ =>
  }

  /** A table and a message without the field at i. */
  function LessField(d: Desc, i: nat): Desc
    requires i < |d.fields|
  {
    d.(fields := d.fields[..i] + d.fields[i + 1..])
  }

  function LessSlot(m: Message, i: nat): Message
    requires i < |m.slots|
  {
    m.(slots := m.slots[..i] + m.slots[i + 1..])
  }

  lemma LessFits(d: Desc, m: Message, i: nat)
    requires WellFormed(d) && FitsMessage(d, m) && i < |d.fields|
    ensures WellFormed(LessField(d, i)) && FitsMessage(LessField(d, i), LessSlot(m, i))
    ensures Terminated(d, m) ==> Terminated(LessField(d, i), LessSlot(m, i))
    ensures Narrow(d, m) ==> Narrow(LessField(d, i), LessSlot(m, i))
  {
    var e, n := LessField(d, i), LessSlot(m, i);
    forall j | 0 <= j < |e.fields|
      ensures e.fields[j] == d.fields[if j < i then j else j + 1]
      ensures n.slots[j] == m.slots[if j < i then j else j + 1]
    {}
  }

  /** A table evolves from itself without a field that is not required. */
  lemma LessEvolves(d: Desc, i: nat)
    requires WellFormed(d) && i < |d.fields| && !d.fields[i].rule.Required?
    requires forall j | 0 <= j < |d.fields| && j != i :: ZeroDefaultsIn(d.fields[j])
    ensures Evolves(d, LessField(d, i)) && Find(LessField(d, i), d.fields[i].tag).None?
  {
    hide WellFormedField, TypedField, Compatible, ZeroDefaultsIn;
    var e := LessField(d, i);
    forall k | 0 <= k < |e.fields|
      ensures e.fields[k] == d.fields[if k < i then k else k + 1]
    {}
    forall j | 0 <= j < |d.fields|
      ensures KnownTo(d.fields[j], e)
    {
      var found := Find(e, d.fields[j].tag);
      if j == i {
        assert found.None?;
      } else {
        var k := if j < i then j else j - 1;
        assert e.fields[k] == d.fields[j];
        assert found == Some(k);
        SelfCompatible(d.fields[j]);
      }
    }
  }

  lemma AbsentBytes(f: Field, slot: Slot, which: seq<nat>)
    requires FitsSlot(f, slot) && TypedField(f, |which|) && !Present(f, slot, which)
    ensures EncodeSlot(f, slot, which) == Some([])
  {}

  /** A field that is not present adds nothing to the bytes. */
  lemma {:induction false} LessBytes(d: Desc, m: Message, i: nat, k: nat)
    requires Typed(d) && FitsMessage(d, m) && i < |d.fields| && k <= |d.fields|
    requires Typed(LessField(d, i)) && FitsMessage(LessField(d, i), LessSlot(m, i))
    requires TypedField(d.fields[i], d.unions) && !Present(d.fields[i], m.slots[i], m.which)
    ensures EncodeFrom(d, m, k) == EncodeFrom(LessField(d, i), LessSlot(m, i), if k <= i then k else k - 1)
    decreases |d.fields| - k
  {
    hide EncodeSlot, Present, FitsSlot, TypedField;
    var e, n := LessField(d, i), LessSlot(m, i);
    if k < |d.fields| {
      LessBytes(d, m, i, k + 1);
      assert FitsSlot(d.fields[k], m.slots[k]) && TypedField(d.fields[k], d.unions);
      if k == i {
        var rest := EncodeFrom(d, m, k + 1);
        AbsentBytes(d.fields[k], m.slots[k], m.which);
        assert rest.Some? ==> [] + rest.value == rest.value;
      } else {
        var j := if k < i then k else k - 1;
        assert e.fields[j] == d.fields[k] && n.slots[j] == m.slots[k];
      }
    }
  }

  /** A proto3 field at zero is not sent; in every message it comes back as zero exactly when its default is zero. */
  lemma SingularZero(d: Desc, i: nat, sent: Message, dest: Message)
    requires WellFormed(d) && FitsMessage(d, sent) && Terminated(d, sent) && FitsMessage(d, dest)
    requires i < |d.fields| && d.fields[i].rule.Singular? && TypedField(d.fields[i], d.unions)
    requires FitsSlot(d.fields[i], sent.slots[i]) && IsZeroValue(d.fields[i], sent.slots[i].v)
    requires forall j | 0 <= j < |d.fields| && j != i :: ZeroDefaultsIn(d.fields[j])
    requires Encodable(d, sent) && Narrow(d, sent)
    ensures EncodeMessage(d, sent).Some?
    ensures var got := DecodeMessage(d, dest, EncodeMessage(d, sent).value);
            && got.Some? && got.value.1 == [] && got.value.0.slots[i].One?
            && (SameValue(d.fields[i], d.fields[i], sent.slots[i].v, got.value.0.slots[i].v) <==>
                ZeroDefault(d.fields[i]))
  {
    var f, S, less := d.fields[i], LessField(d, i), LessSlot(sent, i);
    LessFits(d, sent, i);
    LessBytes(d, sent, i, 0);
    LessEvolves(d, i);
    EncodableExactly(d, sent);
    EncodableExactly(S, less);
    Evolution(d, S, less, dest);
    var got := DecodeMessage(d, dest, EncodeMessage(d, sent).value).value.0;
    assert SameField(f, S, less, got.slots[i], |S.fields|);
    ZeroIsFresh(f, d.unions, sent.slots[i].v, got.slots[i].v);
  }
}
