/** What the decoder makes of the bytes of any sender: fields in any order and more than once, arrays packed, one by one
    or both, fields the receiver does not know, and submessages that come again. */
module PbArrivals {
  import opened Bytes
  import Varint
  import opened PbTypes
  import opened PbWire
  import opened PbAgree
  import opened PbRoundTrip
  import opened PbEvolution

  /** One field as it stands in a stream: a value under its own key, a packed run of values, or a field that the
      receiver does not know. */
  datatype Item =
    | Single(field: nat, v: Value)
    | Run(field: nat, values: seq<Value>)
    | Foreign(tag: nat, wireType: nat, body: seq<byte>)

  /** What a sender may write for fields of the table that are not submessages, and for others. */
  ghost predicate Legal(d: Desc, item: Item) {
    match item
    case Single(j, v) =>
      && j < |d.fields| && !d.fields[j].ltype.LSubmessage? && FitsValue(d.fields[j], v)
      && TerminatedValue(d.fields[j], v) && EncodeValue(d.fields[j], v).Some?
    case Run(j, values) =>
      && j < |d.fields| && d.fields[j].rule.Repeated? && Packable(d.fields[j].ltype)
      && (forall k | 0 <= k < |values| :: FitsValue(d.fields[j], values[k]))
      && EncodeItems(d.fields[j], values).Some? && |EncodeItems(d.fields[j], values).value| < 0x1_0000_0000
    case Foreign(tag, wireType, body) =>
      && 0 < tag < 0x2000_0000 && Find(d, tag).None?
      && match wireType
         case 0 => Varint.Span(body) == Some(|body|)
         case 1 => |body| == 8
         case 2 => exists x :: |x| < 0x1_0000_0000 && body == Prefixed(x)
         case 5 => |body| == 4
         case _ => false
  }

  ghost function Written(d: Desc, item: Item): seq<byte>
    requires Legal(d, item)
  {
    match item
    case Single(j, v) => Tag(d.fields[j].tag, WireType(d.fields[j].ltype)) + EncodeValue(d.fields[j], v).value
    case Run(j, values) => Tag(d.fields[j].tag, 2) + Prefixed(EncodeItems(d.fields[j], values).value)
    case Foreign(tag, wireType, body) => Tag(tag, wireType) + body
  }

  ghost function AllWritten(d: Desc, items: seq<Item>): seq<byte>
    requires forall i | 0 <= i < |items| :: Legal(d, items[i])
  {
    if items == [] then [] else Written(d, items[0]) + AllWritten(d, items[1..])
  }

  /** The values that an item brings for field j. */
  ghost function Brings(item: Item, j: nat): seq<Value> {
    match item
    case Single(i, v) => if i == j then [v] else []
    case Run(i, values) => if i == j then values else []
    case Foreign(_, _, _) => []
  }

  /** All the values that came for field j, in order. */
  ghost function Values(items: seq<Item>, j: nat): seq<Value> {
    if items == [] then [] else Brings(items[0], j) + Values(items[1..], j)
  }

  ghost function Positions(items: seq<Item>): set<nat> {
    if items == [] then {}
    else (if items[0].Foreign? then {} else {items[0].field}) + Positions(items[1..])
  }

  /** The member of union g that came last, or the one before if none came. */
  ghost function LastMember(d: Desc, items: seq<Item>, g: nat, before: nat): nat {
    if items == [] then before
    else
      var first := items[0];
      LastMember(d, items[1..], g,
                 if !first.Foreign? && first.field < |d.fields| && d.fields[first.field].rule == OneOf(g)
                 then d.fields[first.field].tag else before)
  }

  /** What values leave in a member: an array has them behind its entries, in order; another member has the last. */
  ghost predicate Holds(f: Field, before: Slot, values: seq<Value>, after: Slot) {
    if f.rule.Repeated? then
      && before.Arr? && after.Arr? && after.count == before.count + |values| <= |after.items| == |before.items|
      && (forall k | 0 <= k < before.count :: after.items[k] == before.items[k])
      && (forall k | 0 <= k < |values| :: SameValue(f, f, values[k], after.items[before.count + k]))
      && (forall k | after.count <= k < |after.items| :: after.items[k] == before.items[k])
    else if values == [] then after == before
    else
      && (if f.rule.Optional? then after.Opt? && after.has else after.One?)
      && SameValue(f, f, values[|values| - 1], after.v)
  }

  lemma HoldsBoth(f: Field, s: Slot, a: seq<Value>, t: Slot, b: seq<Value>, u: Slot)
    requires Holds(f, s, a, t) && Holds(f, t, b, u)
    ensures Holds(f, s, a + b, u)
  {
    if f.rule.Repeated? {
      forall k | 0 <= k < |a + b|
        ensures SameValue(f, f, (a + b)[k], u.items[s.count + k])
      {
        if k >= |a| {
          assert (a + b)[k] == b[k - |a|];
          assert u.items[t.count + (k - |a|)] == u.items[s.count + k];
        } else {
          assert u.items[s.count + k] == t.items[s.count + k];
        }
      }
    }
  }

  /** Numbers that came for an array, one by one or packed, are put behind its entries, and nothing else changes. */
  lemma NumbersFill(f: Field, before: Slot, values: seq<Value>, after: Slot)
    requires f.rule.Repeated? && Packable(f.ltype) && FitsSlot(f, before) && FitsSlot(f, after)
    requires Holds(f, before, values, after)
    ensures after == Filled(before, values)
  {
    FilledAt(before, values);
    var filled := Filled(before, values);
    forall k | 0 <= k < |after.items| ensures after.items[k] == filled.items[k] {
      if before.count <= k < after.count {
        assert SameValue(f, f, values[k - before.count], after.items[before.count + (k - before.count)]);
        assert FitsValue(f, after.items[k]);
      }
    }
  }

  lemma HoldsNothing(f: Field, unions: nat, s: Slot)
    requires TypedField(f, unions) && FitsSlot(f, s) && (f.rule.Repeated? ==> s.count <= f.arraySize)
    ensures Holds(f, s, [], s)
  {}

  // One item

  /** A run of a packed array, or any other value but that of a submessage, in its member. */
  lemma SingleRead(d: Desc, m: Message, seen: set<nat>, j: nat, v: Value, rest: seq<byte>) returns (slot: Slot)
    requires WellFormed(d) && FitsMessage(d, m) && Legal(d, Single(j, v))
    requires d.fields[j].rule.Repeated? ==> m.slots[j].Arr? && m.slots[j].count < d.fields[j].arraySize
    ensures FitsSlot(d.fields[j], slot) && Holds(d.fields[j], m.slots[j], [v], slot)
    ensures DecodeFields(d, m, seen, Written(d, Single(j, v)) + rest)
         == DecodeFields(d, Stored(d, m, j, slot), seen + {j}, rest)
  {
    var f := d.fields[j];
    assert TypedField(f, d.unions) && WellFormedField(f) && FitsSlot(f, m.slots[j]);
    var body := EncodeValue(f, v).value;
    var cur := if f.rule.Repeated? then m.slots[j].items[m.slots[j].count] else Target(f, d.unions, m.slots[j]);
    PlainBack(f, v, cur, rest);
    hide EncodeValue, DecodeFields, WellFormed, Typed, TerminatedValue;
    var got := DecodeValue(f, cur, body + rest).value.0;
    slot :=
      if f.rule.Repeated? then Arr(m.slots[j].count + 1, m.slots[j].items[m.slots[j].count := got])
      else if f.rule.Optional? then Opt(true, got) else One(got);
    KnownTurn(d, m, seen, j, WireType(f.ltype), body, rest, slot);
  }

  lemma PlainBack(f: Field, v: Value, cur: Value, rest: seq<byte>)
    requires WellFormedField(f) && !f.ltype.LSubmessage? && FitsValue(f, v) && FitsValue(f, cur)
    requires TerminatedValue(f, v) && EncodeValue(f, v).Some?
    ensures DecodeValue(f, cur, EncodeValue(f, v).value + rest).Some?
    ensures DecodeValue(f, cur, EncodeValue(f, v).value + rest).value.1 == rest
    ensures SameValue(f, f, v, DecodeValue(f, cur, EncodeValue(f, v).value + rest).value.0)
  {
    if Packable(f.ltype) {
      ScalarBack(f, v, rest);
    } else {
      BytesBack(f, v, cur, rest);
    }
  }

  lemma RunRead(d: Desc, m: Message, seen: set<nat>, j: nat, values: seq<Value>, rest: seq<byte>)
    returns (slot: Slot)
    requires WellFormed(d) && FitsMessage(d, m) && Legal(d, Run(j, values))
    requires m.slots[j].Arr? && m.slots[j].count + |values| <= d.fields[j].arraySize
    ensures FitsSlot(d.fields[j], slot) && Holds(d.fields[j], m.slots[j], values, slot)
    ensures DecodeFields(d, m, seen, Written(d, Run(j, values)) + rest)
         == DecodeFields(d, Stored(d, m, j, slot), seen + {j}, rest)
  {
    var f := d.fields[j];
    assert TypedField(f, d.unions) && WellFormedField(f) && FitsSlot(f, m.slots[j]);
    PackedBack(f, f, m.slots[j], values);
    slot := Filled(m.slots[j], values);
    var body := EncodeItems(f, values).value;
    hide EncodeItems, DecodePacked, DecodeFields, WellFormed, Typed, Holds;
    FilledHolds(f, m.slots[j], values);
    PrefixedBack(body, rest);
    KnownTurn(d, m, seen, j, 2, Prefixed(body), rest, slot);
  }

  lemma FilledHolds(f: Field, slot: Slot, values: seq<Value>)
    requires Packable(f.ltype) && f.rule.Repeated? && FitsSlot(f, slot) && slot.count + |values| <= f.arraySize
    requires forall k | 0 <= k < |values| :: FitsValue(f, values[k])
    ensures FitsSlot(f, Filled(slot, values)) && Holds(f, slot, values, Filled(slot, values))
  {
    FilledAt(slot, values);
    forall k | 0 <= k < |values| ensures SameValue(f, f, values[k], values[k]) {
      assert FitsValue(f, values[k]);
    }
    hide Filled, FitsValue, SameValue, Packable;
  }

  lemma FilledAt(slot: Slot, values: seq<Value>)
    requires slot.Arr? && slot.count + |values| <= |slot.items|
    ensures var filled, n := Filled(slot, values), slot.count + |values|;
            && filled.Arr? && filled.count == n && |filled.items| == |slot.items|
            && (forall k | 0 <= k < slot.count :: filled.items[k] == slot.items[k])
            && (forall k | 0 <= k < |values| :: filled.items[slot.count + k] == values[k])
            && (forall k | slot.count <= k < n :: filled.items[k] == values[k - slot.count])
            && (forall k | n <= k < |slot.items| :: filled.items[k] == slot.items[k])
  {}

  lemma ForeignRead(d: Desc, m: Message, seen: set<nat>, tag: nat, wireType: nat, body: seq<byte>, rest: seq<byte>)
    requires WellFormed(d) && FitsMessage(d, m) && Legal(d, Foreign(tag, wireType, body))
    ensures DecodeFields(d, m, seen, Written(d, Foreign(tag, wireType, body)) + rest) == DecodeFields(d, m, seen, rest)
  {
    assert SkipField(wireType, body + rest) == Some(rest) by {
      assert (body + rest)[|body|..] == rest;
      if wireType == 0 {
        SpanAppend(body, rest);
      } else if wireType == 2 {
        var x :| |x| < 0x1_0000_0000 && body == Prefixed(x);
        PrefixedBack(x, rest);
      }
    }
    UnknownTurn(d, m, seen, tag, wireType, body, rest);
  }

  lemma {:induction false} SpanAppend(body: seq<byte>, rest: seq<byte>)
    requires Varint.Span(body).Some?
    ensures Varint.Span(body + rest) == Varint.Span(body)
  {
    if body[0] >= 128 {
      assert (body + rest)[1..] == body[1..] + rest;
      SpanAppend(body[1..], rest);
    }
  }

  /** An array has room for what comes. */
  ghost predicate Room(d: Desc, m: Message, items: seq<Item>)
    requires FitsMessage(d, m)
  {
    forall j: nat | j < |d.fields| && d.fields[j].rule.Repeated? ::
      m.slots[j].Arr? && m.slots[j].count + |Values(items, j)| <= d.fields[j].arraySize
  }

  /** What one item does. */
  lemma ItemRead(d: Desc, m: Message, seen: set<nat>, item: Item, rest: seq<byte>) returns (r: Message)
    requires WellFormed(d) && FitsMessage(d, m) && Legal(d, item)
    requires forall j: nat | j < |d.fields| && d.fields[j].rule.Repeated? ::
               m.slots[j].Arr? && m.slots[j].count + |Brings(item, j)| <= d.fields[j].arraySize
    ensures FitsMessage(d, r)
    ensures DecodeFields(d, m, seen, Written(d, item) + rest)
         == DecodeFields(d, r, if item.Foreign? then seen else seen + {item.field}, rest)
    ensures forall j: nat | j < |d.fields| :: Holds(d.fields[j], m.slots[j], Brings(item, j), r.slots[j])
    ensures forall g: nat | g < d.unions :: r.which[g] == LastMember(d, [item], g, m.which[g])
  {
    match item
    case Foreign(tag, wireType, body) =>
      ForeignRead(d, m, seen, tag, wireType, body, rest);
      r := m;
      NothingStored(d, m, item);
    case Single(j, v) =>
      assert Brings(item, j) == [v];
      var slot := SingleRead(d, m, seen, j, v, rest);
      r := Stored(d, m, j, slot);
      StoredHolds(d, m, item, slot);
    case Run(j, values) =>
      assert Brings(item, j) == values;
      var slot := RunRead(d, m, seen, j, values, rest);
      r := Stored(d, m, j, slot);
      StoredHolds(d, m, item, slot);
  }

  lemma NothingStored(d: Desc, m: Message, item: Item)
    requires WellFormed(d) && FitsMessage(d, m) && item.Foreign?
    requires forall j: nat | j < |d.fields| && d.fields[j].rule.Repeated? ::
               m.slots[j].Arr? && m.slots[j].count <= d.fields[j].arraySize
    ensures forall j: nat | j < |d.fields| :: Holds(d.fields[j], m.slots[j], Brings(item, j), m.slots[j])
    ensures forall g: nat | g < d.unions :: m.which[g] == LastMember(d, [item], g, m.which[g])
  {
    forall j: nat | j < |d.fields| ensures Holds(d.fields[j], m.slots[j], Brings(item, j), m.slots[j]) {
      HoldsNothing(d.fields[j], d.unions, m.slots[j]);
    }
    forall g: nat | g < d.unions ensures m.which[g] == LastMember(d, [item], g, m.which[g]) {
      LastOfOne(d, item, g, m.which[g]);
    }
  }

  lemma LastOfOne(d: Desc, item: Item, g: nat, before: nat)
    ensures LastMember(d, [item], g, before) ==
            if !item.Foreign? && item.field < |d.fields| && d.fields[item.field].rule == OneOf(g)
            then d.fields[item.field].tag else before
  {
    assert [item][1..] == [];
  }

  lemma StoredHolds(d: Desc, m: Message, item: Item, slot: Slot)
    requires WellFormed(d) && FitsMessage(d, m) && !item.Foreign? && item.field < |d.fields|
    requires FitsSlot(d.fields[item.field], slot)
    requires Holds(d.fields[item.field], m.slots[item.field], Brings(item, item.field), slot)
    requires forall j: nat | j < |d.fields| && d.fields[j].rule.Repeated? ::
               m.slots[j].Arr? && m.slots[j].count <= d.fields[j].arraySize
    ensures var r := Stored(d, m, item.field, slot);
            && (forall j: nat | j < |d.fields| :: Holds(d.fields[j], m.slots[j], Brings(item, j), r.slots[j]))
            && forall g: nat | g < d.unions :: r.which[g] == LastMember(d, [item], g, m.which[g])
  {
    var r := Stored(d, m, item.field, slot);
    forall j: nat | j < |d.fields| ensures Holds(d.fields[j], m.slots[j], Brings(item, j), r.slots[j]) {
      if j != item.field {
        HoldsNothing(d.fields[j], d.unions, m.slots[j]);
      }
    }
    forall g: nat | g < d.unions ensures r.which[g] == LastMember(d, [item], g, m.which[g]) {
      LastOfOne(d, item, g, m.which[g]);
    }
  }

  // Any number of items

  /** Whatever comes, in whatever order and however often: arrays hold what came for them, behind what they held, in
      order, packed or not; another member holds the last that came; a union has the member that came last; unknown
      fields leave nothing; and what was seen is what came. */
  lemma {:induction false} ItemsRead(d: Desc, m: Message, seen: set<nat>, items: seq<Item>, rest: seq<byte>)
    returns (r: Message)
    requires WellFormed(d) && FitsMessage(d, m) && (forall i | 0 <= i < |items| :: Legal(d, items[i]))
    requires Room(d, m, items)
    ensures FitsMessage(d, r)
    ensures DecodeFields(d, m, seen, AllWritten(d, items) + rest) == DecodeFields(d, r, seen + Positions(items), rest)
    ensures forall j: nat | j < |d.fields| :: Holds(d.fields[j], m.slots[j], Values(items, j), r.slots[j])
    ensures forall g: nat | g < d.unions :: r.which[g] == LastMember(d, items, g, m.which[g])
    decreases |items|
  {
    if items == [] {
      r := m;
      assert AllWritten(d, items) + rest == rest && seen + Positions(items) == seen;
      forall j: nat | j < |d.fields| ensures Holds(d.fields[j], m.slots[j], [], m.slots[j]) {
        HoldsNothing(d.fields[j], d.unions, m.slots[j]);
      }
    } else {
      var first, more := items[0], items[1..];
      Regroup(Written(d, first), AllWritten(d, more), rest);
      FirstRoom(d, m, items);
      var n := ItemRead(d, m, seen, first, AllWritten(d, more) + rest);
      MoreRoom(d, m, items, n);
      var seen' := if first.Foreign? then seen else seen + {first.field};
      r := ItemsRead(d, n, seen', more, rest);
      assert seen' + Positions(more) == seen + Positions(items);
      forall j: nat | j < |d.fields| ensures Holds(d.fields[j], m.slots[j], Values(items, j), r.slots[j]) {
        HoldsBoth(d.fields[j], m.slots[j], Brings(first, j), n.slots[j], Values(more, j), r.slots[j]);
      }
      forall g: nat | g < d.unions ensures r.which[g] == LastMember(d, items, g, m.which[g]) {
        LastOfOne(d, first, g, m.which[g]);
      }
    }
  }

  lemma FirstRoom(d: Desc, m: Message, items: seq<Item>)
    requires FitsMessage(d, m) && items != [] && Room(d, m, items)
    ensures forall j: nat | j < |d.fields| && d.fields[j].rule.Repeated? ::
              m.slots[j].Arr? && m.slots[j].count + |Brings(items[0], j)| <= d.fields[j].arraySize
  {
    assert forall j: nat :: Values(items, j) == Brings(items[0], j) + Values(items[1..], j);
  }

  lemma MoreRoom(d: Desc, m: Message, items: seq<Item>, n: Message)
    requires FitsMessage(d, m) && items != [] && Room(d, m, items) && FitsMessage(d, n)
    requires forall j: nat | j < |d.fields| :: Holds(d.fields[j], m.slots[j], Brings(items[0], j), n.slots[j])
    ensures Room(d, n, items[1..])
  {
    assert forall j: nat :: Values(items, j) == Brings(items[0], j) + Values(items[1..], j);
    forall j: nat | j < |d.fields| && d.fields[j].rule.Repeated?
      ensures n.slots[j].Arr? && n.slots[j].count + |Values(items[1..], j)| <= d.fields[j].arraySize
    {
      assert Holds(d.fields[j], m.slots[j], Brings(items[0], j), n.slots[j]);
    }
  }

  // Arrays that overflow

  lemma KnownFails(d: Desc, m: Message, seen: set<nat>, j: nat, wireType: nat, body: seq<byte>, rest: seq<byte>)
    requires WellFormed(d) && FitsMessage(d, m) && j < |d.fields| && wireType < 8
    requires TypedField(d.fields[j], d.unions) && FitsSlot(d.fields[j], m.slots[j])
    requires DecodeSlot(d.fields[j], d.unions, wireType, m.slots[j], body + rest) == None
    ensures DecodeFields(d, m, seen, Tag(d.fields[j].tag, wireType) + body + rest) == None
  {
    var tag := d.fields[j].tag;
    assert WellFormedField(d.fields[j]);
    Regroup(Tag(tag, wireType), body, rest);
    TagBack(tag, wireType, body + rest);
    FindUnique(d, j);
  }

  lemma {:induction false} PackedOverflows(f: Field, slot: Slot, values: seq<Value>)
    requires WellFormedField(f) && Packable(f.ltype) && f.rule.Repeated? && FitsSlot(f, slot)
    requires slot.count <= f.arraySize < slot.count + |values|
    requires forall i | 0 <= i < |values| :: FitsValue(f, values[i])
    requires EncodeItems(f, values).Some?
    ensures DecodePacked(f, slot, EncodeItems(f, values).value) == None
    decreases |values|
  {
    hide DecodeScalar, EncodeScalar, Half;
    var v := values[0];
    assert EncodeValue(f, v) == EncodeScalar(f, v);
    var first, more := EncodeScalar(f, v).value, EncodeItems(f, values[1..]).value;
    assert EncodeItems(f, values).value == first + more;
    ScalarBack(f, v, more);
    if slot.count < f.arraySize {
      PackedOverflows(f, Arr(slot.count + 1, slot.items[slot.count := v]), values[1..]);
    }
  }

  lemma ItemOverflows(d: Desc, m: Message, seen: set<nat>, item: Item, rest: seq<byte>)
    requires WellFormed(d) && FitsMessage(d, m) && Legal(d, item) && !item.Foreign?
    requires d.fields[item.field].rule.Repeated? && m.slots[item.field].Arr?
    requires var f := d.fields[item.field];
             m.slots[item.field].count <= f.arraySize < m.slots[item.field].count + |Brings(item, item.field)|
    ensures DecodeFields(d, m, seen, Written(d, item) + rest) == None
  {
    var j := item.field;
    var f := d.fields[j];
    assert TypedField(f, d.unions) && WellFormedField(f) && FitsSlot(f, m.slots[j]);
    match item
    case Single(_, v) =>
      KnownFails(d, m, seen, j, WireType(f.ltype), EncodeValue(f, v).value, rest);
    case Run(_, values) =>
      PackedOverflows(f, m.slots[j], values);
      PrefixedBack(EncodeItems(f, values).value, rest);
      KnownFails(d, m, seen, j, 2, Prefixed(EncodeItems(f, values).value), rest);
  }

  ghost predicate ItemRoom(d: Desc, m: Message, item: Item)
    requires FitsMessage(d, m)
  {
    forall j: nat | j < |d.fields| && d.fields[j].rule.Repeated? ::
      m.slots[j].Arr? && m.slots[j].count + |Brings(item, j)| <= d.fields[j].arraySize
  }

  /** When an array gets more than it has room for, by runs, single entries or both, decoding fails. */
  lemma {:induction false} ItemsOverflow(d: Desc, m: Message, seen: set<nat>, items: seq<Item>, rest: seq<byte>)
    requires WellFormed(d) && FitsMessage(d, m) && (forall i | 0 <= i < |items| :: Legal(d, items[i]))
    requires Room(d, m, []) && !Room(d, m, items)
    ensures DecodeFields(d, m, seen, AllWritten(d, items) + rest) == None
    decreases |items|
  {
    if items != [] {
      var first, more := items[0], items[1..];
      assert forall j: nat :: Values(items, j) == Brings(first, j) + Values(more, j);
      Regroup(Written(d, first), AllWritten(d, more), rest);
      if ItemRoom(d, m, first) {
        var n := ItemRead(d, m, seen, first, AllWritten(d, more) + rest);
        AfterFirst(d, m, items, n);
        ItemsOverflow(d, n, if first.Foreign? then seen else seen + {first.field}, more, rest);
      } else {
        var j: nat :| j < |d.fields| && d.fields[j].rule.Repeated?
                      && !(m.slots[j].Arr? && m.slots[j].count + |Brings(first, j)| <= d.fields[j].arraySize);
        assert Values([], j) == [];
        assert first.field == j;
        ItemOverflows(d, m, seen, first, AllWritten(d, more) + rest);
      }
    }
  }

  lemma AfterFirst(d: Desc, m: Message, items: seq<Item>, n: Message)
    requires FitsMessage(d, m) && FitsMessage(d, n) && items != [] && ItemRoom(d, m, items[0]) && !Room(d, m, items)
    requires forall j: nat | j < |d.fields| :: Holds(d.fields[j], m.slots[j], Brings(items[0], j), n.slots[j])
    ensures Room(d, n, []) && !Room(d, n, items[1..])
  {
    assert forall j: nat :: Values(items, j) == Brings(items[0], j) + Values(items[1..], j);
    forall j: nat | j < |d.fields| && d.fields[j].rule.Repeated?
      ensures n.slots[j].Arr? && n.slots[j].count + |Values([], j)| <= d.fields[j].arraySize
      ensures n.slots[j].count == m.slots[j].count + |Brings(items[0], j)|
    {
      assert Holds(d.fields[j], m.slots[j], Brings(items[0], j), n.slots[j]);
    }
    var j: nat :| j < |d.fields| && d.fields[j].rule.Repeated?
                  && !(m.slots[j].Arr? && m.slots[j].count + |Values(items, j)| <= d.fields[j].arraySize);
    assert n.slots[j].count + |Values(items[1..], j)| > d.fields[j].arraySize;
  }

  // A whole message

  /** All required fields among the first 64 of them came. */
  ghost predicate RequiredCame(d: Desc, items: seq<Item>) {
    forall i: nat | i < |d.fields| && d.fields[i].rule.Required? && RequiredBefore(d, i) < 64 :: i in Positions(items)
  }

  /** pb_decode on the bytes of any sender: it succeeds exactly when no array gets too many values and every required
      field among the first 64 came; then every member holds what came for it, and its default if nothing did. */
  lemma MessageRead(d: Desc, dest: Message, items: seq<Item>) returns (r: Message)
    requires WellFormed(d) && FitsMessage(d, dest) && (forall i | 0 <= i < |items| :: Legal(d, items[i]))
    ensures var m := Defaults(d, dest);
            var got := DecodeMessage(d, dest, AllWritten(d, items));
            && (got.Some? <==> Room(d, m, items) && RequiredCame(d, items))
            && (got.Some? ==>
                  && got == Some((r, []))
                  && (forall j: nat | j < |d.fields| :: Holds(d.fields[j], m.slots[j], Values(items, j), r.slots[j]))
                  && forall g: nat | g < d.unions :: r.which[g] == LastMember(d, items, g, 0))
  {
    var m, bytes := Defaults(d, dest), AllWritten(d, items);
    assert bytes + [] == bytes;
    if Room(d, m, items) {
      r := ItemsRead(d, m, {}, items, []);
      assert {} + Positions(items) == Positions(items);
      assert Complete(d, Positions(items)) <==> RequiredCame(d, items);
    } else {
      r := m;
      EmptyRoom(d, dest);
      ItemsOverflow(d, m, {}, items, []);
    }
  }

  lemma EmptyRoom(d: Desc, dest: Message)
    requires WellFormed(d) && FitsMessage(d, dest)
    ensures Room(d, Defaults(d, dest), [])
  {
    forall j: nat | j < |d.fields| && d.fields[j].rule.Repeated?
      ensures var slot := Defaults(d, dest).slots[j];
              slot.Arr? && slot.count + |Values([], j)| <= d.fields[j].arraySize
    {
      assert TypedField(d.fields[j], d.unions) && FitsSlot(d.fields[j], dest.slots[j]);
    }
  }

  /** A zero in place of a key ends the message. */
  lemma ZeroEnds(d: Desc, m: Message, seen: set<nat>, rest: seq<byte>)
    requires Typed(d) && FitsMessage(d, m)
    ensures DecodeFields(d, m, seen, [0] + rest) == if Complete(d, seen) then Some((m, rest)) else None
  {
    assert ([0] + rest)[1..] == rest;
  }

  // Submessages

  /** What a submessage is decoded into: a new entry of an array and a union member from their defaults, any other
      member from what it holds, so that one that comes again is merged with the one before. */
  ghost function Base(f: Field, slot: Slot): (m: Message)
    requires f.ltype.LSubmessage? && Typed(f.ltype.desc) && FitsSlot(f, slot)
    requires f.rule.Repeated? ==> slot.count < f.arraySize
    ensures FitsMessage(f.ltype.desc, m)
  {
    if f.rule.Repeated? then
      assert FitsValue(f, slot.items[slot.count]);
      Defaults(f.ltype.desc, slot.items[slot.count].msg)
    else if f.rule.OneOf? then Defaults(f.ltype.desc, ZeroMessage(f.ltype.desc))
    else
      assert FitsValue(f, slot.v);
      slot.v.msg
  }

  ghost function WithMessage(f: Field, slot: Slot, msg: Message): Slot
    requires FitsSlot(f, slot) && (f.rule.Repeated? ==> slot.count < f.arraySize)
  {
    match f.rule
    case Repeated => Arr(slot.count + 1, slot.items[slot.count := MessageV(msg)])
    case Optional => Opt(true, MessageV(msg))
    case _ => One(MessageV(msg))
  }

  /** A submessage of any contents: decoded by itself from its base, to the end of its bytes. */
  lemma SubmessageRead(d: Desc, m: Message, seen: set<nat>, j: nat, body: seq<byte>, rest: seq<byte>)
    requires WellFormed(d) && FitsMessage(d, m) && j < |d.fields| && |body| < 0x1_0000_0000
    requires d.fields[j].ltype.LSubmessage? && Typed(d.fields[j].ltype.desc)
    requires FitsSlot(d.fields[j], m.slots[j])
    requires d.fields[j].rule.Repeated? ==> m.slots[j].count < d.fields[j].arraySize
    ensures var f := d.fields[j];
            var inner := DecodeFields(f.ltype.desc, Base(f, m.slots[j]), {}, body);
            var got := DecodeFields(d, m, seen, Tag(f.tag, 2) + Prefixed(body) + rest);
            if inner.None? then got == None
            else
              && FitsSlot(f, WithMessage(f, m.slots[j], inner.value.0))
              && got == DecodeFields(d, Stored(d, m, j, WithMessage(f, m.slots[j], inner.value.0)), seen + {j}, rest)
  {
    var f, slot := d.fields[j], m.slots[j];
    assert TypedField(f, d.unions) && WellFormedField(f);
    var inner := DecodeFields(f.ltype.desc, Base(f, slot), {}, body);
    PrefixedBack(body, rest);
    var cur := if f.rule.Repeated? then slot.items[slot.count] else Target(f, d.unions, slot);
    assert DecodeValue(f, cur, Prefixed(body) + rest) ==
           if inner.None? then None else Some((MessageV(inner.value.0), rest));
    hide DecodeFields, DecodeValue, Typed, WellFormed, Prefixed;
    if inner.None? {
      KnownFails(d, m, seen, j, 2, Prefixed(body), rest);
    } else {
      KnownTurn(d, m, seen, j, 2, Prefixed(body), rest, WithMessage(f, slot, inner.value.0));
    }
  }

  /** A submessage for an array that is full. */
  lemma SubmessageOverflows(d: Desc, m: Message, seen: set<nat>, j: nat, body: seq<byte>, rest: seq<byte>)
    requires WellFormed(d) && FitsMessage(d, m) && j < |d.fields|
    requires d.fields[j].ltype.LSubmessage? && d.fields[j].rule.Repeated?
    requires m.slots[j].Arr? && m.slots[j].count >= d.fields[j].arraySize
    ensures DecodeFields(d, m, seen, Tag(d.fields[j].tag, 2) + Prefixed(body) + rest) == None
  {
    assert TypedField(d.fields[j], d.unions) && FitsSlot(d.fields[j], m.slots[j]);
    KnownFails(d, m, seen, j, 2, Prefixed(body), rest);
  }
}
