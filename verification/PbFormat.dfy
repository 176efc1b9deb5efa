/** The wire format in plain numbers, as its documentation gives it: keys, numbers, lengths, and what is skipped. */
module PbFormat {
  import opened Bytes
  import Varint
  import opened PbTypes
  import opened PbWire
  import opened PbRoundTrip

  // Keys and lengths

  /** The wire type of a field of a type. */
  function WireNumber(t: LType): nat {
    match t
    case LVarint | LUVarint | LSVarint => 0
    case LFixed64 => 1
    case LBytes | LString | LFixedBytes | LSubmessage(_) => 2
    case LFixed32 => 5
  }

  lemma TagMeaning(tag: nat, wireType: nat, rest: seq<byte>)
    ensures Varint.Number(Tag(tag, wireType) + rest) == 8 * tag + wireType
    ensures Varint.Span(Tag(tag, wireType) + rest) == Some(|Tag(tag, wireType)|)
  {
    Varint.EncodeMeaning(tag * 8 + wireType, rest);
  }

  /** What is written for a field with one value begins with its key: eight times its number and its wire type. */
  lemma SingleKey(f: Field, slot: Slot, which: seq<nat>)
    requires FitsSlot(f, slot) && TypedField(f, |which|) && !f.rule.Repeated? && Present(f, slot, which)
    requires EncodeSlot(f, slot, which).Some?
    ensures var bytes := EncodeSlot(f, slot, which).value;
            && Varint.Number(bytes) == 8 * f.tag + WireNumber(f.ltype)
            && EncodeValue(f, slot.v).Some?
            && Varint.Span(bytes) == Some(|bytes| - |EncodeValue(f, slot.v).value|)
            && bytes[|bytes| - |EncodeValue(f, slot.v).value|..] == EncodeValue(f, slot.v).value
  {
    var body := EncodeValue(f, slot.v).value;
    var key := Tag(f.tag, WireType(f.ltype));
    TagMeaning(f.tag, WireType(f.ltype), body);
    assert (key + body)[|key|..] == body;
  }

  /** Entries that are not packed have a key each; packed ones share one, with wire type 2, and a length. */
  lemma ArrayKeys(f: Field, slot: Slot, which: seq<nat>)
    requires FitsSlot(f, slot) && TypedField(f, |which|) && f.rule.Repeated? && Present(f, slot, which)
    requires EncodeSlot(f, slot, which).Some?
    ensures slot.count <= f.arraySize && EncodeItems(f, slot.items[..slot.count]).Some?
    ensures var bytes, body := EncodeSlot(f, slot, which).value, EncodeItems(f, slot.items[..slot.count]).value;
            if f.ltype.LBytes? || f.ltype.LString? || f.ltype.LFixedBytes? || f.ltype.LSubmessage?
            then bytes == body && Varint.Number(bytes) == 8 * f.tag + 2
            else
              && Varint.Number(bytes) == 8 * f.tag + 2
              && exists n: nat ::
                   && n <= |bytes| && Varint.Span(bytes) == Some(n) && Varint.Number(bytes[n..]) == |body|
                   && Varint.Span(bytes[n..]) == Some(|bytes| - n - |body|)
                   && bytes[|bytes| - |body|..] == body
  {
    var values := slot.items[..slot.count];
    var body := EncodeItems(f, values).value;
    if Packable(f.ltype) {
      RunKey(f.tag, body);
    } else {
      EntryKey(f, values);
    }
    hide EncodeItems, Tag, Prefixed, Varint.Number, Varint.Span;
  }

  lemma RunKey(tag: nat, body: seq<byte>)
    ensures var bytes := Tag(tag, 2) + Prefixed(body);
            && Varint.Number(bytes) == 8 * tag + 2
            && exists n: nat ::
                 && n <= |bytes| && Varint.Span(bytes) == Some(n) && Varint.Number(bytes[n..]) == |body|
                 && Varint.Span(bytes[n..]) == Some(|bytes| - n - |body|)
                 && bytes[|bytes| - |body|..] == body
  {
    var key, length := Tag(tag, 2), Varint.Encode(|body|);
    TagMeaning(tag, 2, length + body);
    Varint.EncodeMeaning(|body|, body);
    hide *;
    var bytes := key + (length + body);
    assert bytes[|key|..] == length + body;
    assert bytes[|bytes| - |body|..] == body;
  }

  lemma EntryKey(f: Field, values: seq<Value>)
    requires (f.ltype.LSubmessage? ==> Typed(f.ltype.desc)) && !Packable(f.ltype) && values != []
    requires forall k | 0 <= k < |values| :: FitsValue(f, values[k])
    requires EncodeItems(f, values).Some?
    ensures Varint.Number(EncodeItems(f, values).value) == 8 * f.tag + 2
  {
    var first := EncodeValue(f, values[0]).value;
    var rest := EncodeItems(f, values[1..]).value;
    TagMeaning(f.tag, 2, first + rest);
    hide Tag, Varint.Number, Varint.Span, EncodeValue, Typed, FitsValue;
    assert EncodeItems(f, values).value == Tag(f.tag, 2) + (first + rest);
  }

  /** Bytes, strings and submessages have their length in front; a string goes up to its first NUL. */
  lemma LengthFirst(f: Field, v: Value)
    requires FitsValue(f, v) && (f.ltype.LSubmessage? ==> Typed(f.ltype.desc)) && EncodeValue(f, v).Some?
    requires f.ltype.LBytes? || f.ltype.LString? || f.ltype.LFixedBytes? || f.ltype.LSubmessage?
    ensures f.ltype.LSubmessage? ==> EncodeMessage(f.ltype.desc, v.msg).Some?
    ensures var body :=
              match f.ltype
              case LBytes => v.data
              case LFixedBytes => v.data
              case LString => Text(v.buf)
              case LSubmessage(desc) => EncodeMessage(desc, v.msg).value
              case _ => [];
            var bytes := EncodeValue(f, v).value;
            && Varint.Number(bytes) == |body| && Varint.Span(bytes) == Some(|bytes| - |body|)
            && bytes[|bytes| - |body|..] == body
    ensures f.ltype.LBytes? ==> |v.data| + 4 <= f.dataSize
  {
    var body :=
      match f.ltype
      case LBytes => v.data
      case LFixedBytes => v.data
      case LString => Text(v.buf)
      case LSubmessage(desc) => EncodeMessage(desc, v.msg).value
      case _ => [];
    hide Varint.Encode, Varint.Number, Varint.Span, EncodeMessage, EncodeScalar, Text;
    var length := Varint.Encode(|body|);
    assert EncodeValue(f, v).value == length + body;
    Varint.EncodeMeaning(|body|, body);
    assert (length + body)[|length|..] == body;
  }

  // Numbers

  /** Small magnitudes of either sign become small numbers, the negative ones odd. */
  lemma ZigZagMeaning(v: int)
    requires -0x8000_0000_0000_0000 <= v < 0x8000_0000_0000_0000
    ensures Varint.ZigZag(v) == if v >= 0 then 2 * v else -2 * v - 1
  {
    if v < 0 {
      assert (v + 0x1_0000_0000_0000_0000) * 2 == 0x1_0000_0000_0000_0000 + (0x1_0000_0000_0000_0000 + 2 * v);
    }
  }

  /** The four bytes of a number, least significant first. */
  function Little32(v: nat): seq<byte>
    requires v < 0x1_0000_0000
  {
    [v % 0x100, v / 0x100 % 0x100, v / 0x1_0000 % 0x100, v / 0x100_0000]
  }

  /** Fixed-width numbers have their least significant byte first. */
  lemma FixedMeaning(v: nat)
    ensures v < 0x1_0000_0000 ==> Varint.Fixed(v, 4) == Little32(v)
    ensures v < 0x1_0000_0000_0000_0000 ==>
              Varint.Fixed(v, 8) == Little32(v % 0x1_0000_0000) + Little32(v / 0x1_0000_0000)
  {
    if v < 0x1_0000_0000 {
      FixedFour(v);
    }
    if v < 0x1_0000_0000_0000_0000 {
      FixedApart(v, 4);
      FixedFour(v % 0x1_0000_0000);
      FixedFour(v / 0x1_0000_0000);
    }
  }

  lemma FixedFour(v: nat)
    requires v < 0x1_0000_0000
    ensures Varint.Fixed(v, 4) == Little32(v)
  {
    var a := v / 0x100;
    var b := a / 0x100;
    var c := b / 0x100;
    assert b == v / 0x1_0000 && c == v / 0x100_0000 && c % 0x100 == c;
    assert Varint.Fixed(c, 1) == [c];
    assert Varint.Fixed(b, 2) == [b % 0x100] + [c];
    assert Varint.Fixed(a, 3) == [a % 0x100] + ([b % 0x100] + [c]);
  }

  lemma LittleDigits(a: byte, b: byte, c: byte, d: byte)
    ensures var v: nat := a as int + 0x100 * b as int + 0x1_0000 * c as int + 0x100_0000 * d as int;
            v < 0x1_0000_0000 && Little32(v) == [a, b, c, d]
  {
    var v: nat := a as int + 0x100 * b as int + 0x1_0000 * c as int + 0x100_0000 * d as int;
    assert v / 0x100 == b as int + 0x100 * c as int + 0x1_0000 * d as int;
    assert v / 0x1_0000 == c as int + 0x100 * d as int;
  }

  lemma FixedApart(v: nat, n: nat)
    ensures Varint.Fixed(v, n + 4) == Varint.Fixed(v % 0x1_0000_0000, 4) + Varint.Fixed(v / 0x1_0000_0000, n)
  {
    hide Varint.Fixed;
    var a, b, c := v / 0x100, v / 0x100 / 0x100, v / 0x100 / 0x100 / 0x100;
    var low := v % 0x100 + 0x100 * (a % 0x100) + 0x1_0000 * (b % 0x100) + 0x100_0000 * (c % 0x100);
    LittleDigits(v % 0x100, a % 0x100, b % 0x100, c % 0x100);
    assert v == 0x1_0000_0000 * (c / 0x100) + low;
    assert low == v % 0x1_0000_0000 && c / 0x100 == v / 0x1_0000_0000;
    FixedFour(low);
    FixedStep(v, n + 3);
    FixedStep(a, n + 2);
    FixedStep(b, n + 1);
    FixedStep(c, n);
  }

  lemma FixedStep(v: nat, n: nat)
    ensures Varint.Fixed(v, n + 1) == [v % 0x100] + Varint.Fixed(v / 0x100, n)
  {}

  /** A number is written as a varint of itself, of its two's complement in 64 bits or of its zigzag code, or as four
      or eight bytes. */
  lemma NumberWritten(f: Field, v: Value)
    requires Packable(f.ltype) && FitsValue(f, v) && EncodeScalar(f, v).Some?
    ensures var bytes, n := EncodeScalar(f, v).value, v.v;
            if f.ltype.LFixed32? then bytes == Little32(n)
            else if f.ltype.LFixed64? then bytes == Little32(n % 0x1_0000_0000) + Little32(n / 0x1_0000_0000)
            else
              && Varint.Span(bytes) == Some(|bytes|)
              && Varint.Number(bytes) ==
                 if n >= 0 then (if f.ltype.LSVarint? then 2 * n else n)
                 else if f.ltype.LSVarint? then -2 * n - 1 else n + 0x1_0000_0000_0000_0000
  {
    var bytes := EncodeScalar(f, v).value;
    if f.ltype.LFixed32? || f.ltype.LFixed64? {
      FixedMeaning(v.v);
    } else {
      if f.ltype.LSVarint? {
        ZigZagMeaning(v.v);
      }
      var n := if f.ltype.LSVarint? then Varint.ZigZag(v.v) else ToUnsigned(v.v);
      Varint.EncodeMeaning(n, []);
      assert bytes == Varint.Encode(n) && bytes + [] == bytes;
    }
  }

  /** The numbers a member of a C type holds. */
  predicate InRange(signed: bool, size: nat, n: int) {
    if size == 1 then (if signed then -128 <= n < 128 else 0 <= n < 256)
    else if size == 2 then (if signed then -32768 <= n < 32768 else 0 <= n < 65536)
    else if size == 4 then (if signed then -0x8000_0000 <= n < 0x8000_0000 else 0 <= n < 0x1_0000_0000)
    else if size == 8
    then (if signed then -0x8000_0000_0000_0000 <= n < 0x8000_0000_0000_0000 else 0 <= n < 0x1_0000_0000_0000_0000)
    else false
  }

  /** A number's two's complement reading in so many values. */
  function Complement(n: nat, values: nat): int
    requires values > 0
  {
    if n % values < values / 2 then n % values else n % values - values
  }

  /** The number a member gets for a 64-bit varint: in two's complement of 64 bits, or of 32 for a smaller member, as it
      is, or undone from zigzag. */
  function NumberFor(f: Field, n: nat): int {
    if f.ltype.LVarint?
    then Complement(n, if f.dataSize == 8 then 0x1_0000_0000_0000_0000 else 0x1_0000_0000)
    else if f.ltype.LUVarint? then n
    else if n % 2 == 0 then n / 2 else -(n / 2) - 1
  }

  lemma NumberKept(f: Field, n: nat)
    requires f.ltype.LVarint? || f.ltype.LUVarint? || f.ltype.LSVarint?
    requires n < 0x1_0000_0000_0000_0000
    ensures ScalarOf(f, n) ==
            if InRange(!f.ltype.LUVarint?, f.dataSize, NumberFor(f, n)) then Some(IntV(NumberFor(f, n))) else None
  {
    RangesMean(f.dataSize, NumberFor(f, n));
    hide InRange, Signed, Half;
  }

  lemma RangesMean(size: nat, n: int)
    ensures Signed(n, size) == if InRange(true, size, n) then Some(IntV(n)) else None
    ensures n >= 0 ==> (n < 2 * Half(size) <==> InRange(false, size, n))
  {}

  /** What is read for a varint of any sender: its number, kept to 64 bits, as the member takes it; and nothing when the
      member does not hold it, or when the varint is longer than ten bytes or does not end. */
  lemma NumberRead(f: Field, s: seq<byte>)
    requires f.ltype.LVarint? || f.ltype.LUVarint? || f.ltype.LSVarint?
    ensures var v := NumberFor(f, Varint.Number(s) % 0x1_0000_0000_0000_0000);
            DecodeScalar(f, s) ==
            if Varint.Span(s).Some? && Varint.Span(s).value <= 10 && InRange(!f.ltype.LUVarint?, f.dataSize, v)
            then Some((IntV(v), s[Varint.Span(s).value..])) else None
  {
    hide Varint.Number, Varint.Span, ScalarOf, NumberFor, InRange;
    NumberKept(f, Varint.Number(s) % 0x1_0000_0000_0000_0000);
  }

  /** Fixed-width numbers are read from their bytes, least significant first. */
  lemma FixedRead(f: Field, s: seq<byte>)
    requires f.ltype.LFixed32? || f.ltype.LFixed64?
    ensures var width := if f.ltype.LFixed32? then 4 else 8;
            if |s| < width then DecodeScalar(f, s) == None
            else
              && DecodeScalar(f, s).Some? && DecodeScalar(f, s).value.1 == s[width..]
              && var v := DecodeScalar(f, s).value.0;
              && v.IntV?
              && if width == 4 then 0 <= v.v < 0x1_0000_0000 && s[..4] == Little32(v.v)
                 else
                   && 0 <= v.v < 0x1_0000_0000_0000_0000
                   && s[..8] == Little32(v.v % 0x1_0000_0000) + Little32(v.v / 0x1_0000_0000)
  {
    var width := if f.ltype.LFixed32? then 4 else 8;
    if |s| >= width {
      FixedOfValue(s[..width]);
      FixedMeaning(Varint.FixedValue(s[..width]));
    }
  }

  lemma {:induction false} FixedOfValue(bs: seq<byte>)
    ensures Varint.Fixed(Varint.FixedValue(bs), |bs|) == bs
  {
    if bs != [] {
      FixedOfValue(bs[1..]);
      var first: nat := bs[0];
      assert (first + 256 * Varint.FixedValue(bs[1..])) / 256 == Varint.FixedValue(bs[1..]);
      assert bs == [bs[0]] + bs[1..];
    }
  }

  // Contents of a member

  /** Bytes are kept if they fit behind their four-byte size, and a string if it fits with its NUL, the member's bytes
      after that staying as they were; a byte array of a fixed length takes its own length, or none for all zero. */
  lemma BytesKept(f: Field, cur: Value, body: seq<byte>)
    requires f.ltype.LBytes? || f.ltype.LString? || f.ltype.LFixedBytes?
    requires FitsValue(f, cur)
    ensures var r, n := StoreBytes(f, cur, body), |body|;
            match f.ltype
            case LBytes => r == if n + 4 <= f.dataSize then Some(BytesV(body)) else None
            case LString =>
              if n >= f.dataSize then r == None
              else
                && r.Some? && r.value.StringV? && |r.value.buf| == f.dataSize
                && forall k: nat | k < f.dataSize ::
                     r.value.buf[k] == if k < n then body[k] else if k == n then 0 else cur.buf[k]
            case LFixedBytes =>
              && (r.Some? <==> n == 0 || n == f.dataSize)
              && (r.Some? ==> r.value.FixedBytesV? && |r.value.data| == f.dataSize
                              && forall k: nat | k < f.dataSize :: r.value.data[k] == if n == 0 then 0 else body[k])
            case _ => true
  {}

  /** What is written for a field that is there begins with a key; nothing is written for one that need not be there
      and is not, one at zero, an empty array, or a member of a union that is not its active one. */
  lemma Sent(f: Field, slot: Slot, which: seq<nat>)
    requires FitsSlot(f, slot) && TypedField(f, |which|)
    ensures EncodeSlot(f, slot, which) == Some([]) <==>
            || (f.rule.Optional? && !slot.has)
            || (f.rule.Singular? && IsZeroValue(f, slot.v))
            || (f.rule.Repeated? && slot.count == 0)
            || (f.rule.OneOf? && which[f.rule.union] != f.tag)
  {
    hide IsZeroValue, EncodeItems, EncodeValue;
    if Present(f, slot, which) && EncodeSlot(f, slot, which).Some? {
      if f.rule.Repeated? {
        ArrayKeys(f, slot, which);
        assert Varint.Number([]) == 0;
      }
    }
  }

  /** Zero is the number zero, no bytes, an empty string, a byte array of no length. */
  lemma ZeroMeaning(f: Field, v: Value)
    requires FitsValue(f, v) && !f.ltype.LSubmessage?
    ensures IsZeroValue(f, v) <==>
            match f.ltype
            case LBytes => |v.data| == 0
            case LString => v.buf[0] == 0
            case LFixedBytes => |v.data| == 0
            case LVarint | LUVarint | LSVarint | LFixed32 | LFixed64 => v.v == 0
  {}

  /** The which_ member of every union is zero or the tag of one of its members. */
  ghost predicate UnionsNamed(d: Desc, m: Message)
    requires FitsMessage(d, m)
  {
    forall g: nat | g < d.unions ::
      m.which[g] == 0 ||
      exists i | 0 <= i < |d.fields| :: d.fields[i].rule == OneOf(g) && d.fields[i].tag == m.which[g]
  }

  /** A submessage is at zero when nothing would be written for it, and only then if its unions are in order. */
  lemma ZeroSubmessage(d: Desc, m: Message)
    requires Typed(d) && FitsMessage(d, m)
    ensures AllDefault(d, m) ==> EncodeMessage(d, m) == Some([])
    ensures EncodeMessage(d, m) == Some([]) && UnionsNamed(d, m) ==> AllDefault(d, m)
  {
    EmptyFrom(d, m, 0);
    forall i | 0 <= i < |d.fields|
      ensures var f, slot := d.fields[i], m.slots[i];
              IsDefaultSlot(f, slot, m.which) ==> EncodeSlot(f, slot, m.which) == Some([])
      ensures var f, slot := d.fields[i], m.slots[i];
              EncodeSlot(f, slot, m.which) == Some([]) && !f.rule.OneOf? ==> IsDefaultSlot(f, slot, m.which)
    {
      assert TypedField(d.fields[i], d.unions) && FitsSlot(d.fields[i], m.slots[i]);
      Sent(d.fields[i], m.slots[i], m.which);
    }
    if EncodeMessage(d, m) == Some([]) && UnionsNamed(d, m) {
      forall i | 0 <= i < |d.fields| && d.fields[i].rule.OneOf?
        ensures IsDefaultSlot(d.fields[i], m.slots[i], m.which)
      {
        UnionEmpty(d, m, d.fields[i].rule.union);
      }
    }
  }

  /** A union none of whose members is written has no active member. */
  lemma UnionEmpty(d: Desc, m: Message, g: nat)
    requires Typed(d) && FitsMessage(d, m) && UnionsNamed(d, m) && g < d.unions
    requires forall i | 0 <= i < |d.fields| :: EncodeSlot(d.fields[i], m.slots[i], m.which) == Some([])
    ensures m.which[g] == 0
  {
    hide EncodeSlot;
    if m.which[g] != 0 {
      var i :| 0 <= i < |d.fields| && d.fields[i].rule == OneOf(g) && d.fields[i].tag == m.which[g];
      assert TypedField(d.fields[i], d.unions) && FitsSlot(d.fields[i], m.slots[i]);
      Sent(d.fields[i], m.slots[i], m.which);
    }
  }

  lemma {:induction false} EmptyFrom(d: Desc, m: Message, i: nat)
    requires Typed(d) && FitsMessage(d, m) && i <= |d.fields|
    ensures EncodeFrom(d, m, i) == Some([]) <==>
            forall j | i <= j < |d.fields| :: EncodeSlot(d.fields[j], m.slots[j], m.which) == Some([])
    decreases |d.fields| - i
  {
    hide EncodeSlot;
    if i < |d.fields| {
      EmptyFrom(d, m, i + 1);
      var first, rest := EncodeSlot(d.fields[i], m.slots[i], m.which), EncodeFrom(d, m, i + 1);
      if first.Some? && rest.Some? {
        assert |first.value + rest.value| == |first.value| + |rest.value|;
      }
    }
  }

  // Skipping

  /** The value behind a key of a wire type: a varint, eight bytes, four bytes, or a length and that many; groups and
      the rest cannot be skipped. */
  lemma SkipMeaning(wireType: nat, s: seq<byte>)
    ensures wireType == 0 ==>
              SkipField(wireType, s) == if Varint.Span(s).Some? then Some(s[Varint.Span(s).value..]) else None
    ensures wireType == 1 ==> SkipField(wireType, s) == if |s| >= 8 then Some(s[8..]) else None
    ensures wireType == 5 ==> SkipField(wireType, s) == if |s| >= 4 then Some(s[4..]) else None
    ensures wireType !in {0, 1, 2, 5} ==> SkipField(wireType, s) == None
  {}

  /** A length, and that many bytes. */
  lemma SkipLength(n: nat, rest: seq<byte>)
    requires n < 0x1_0000_0000
    ensures SkipField(2, Varint.Encode(n) + rest) == if n <= |rest| then Some(rest[n..]) else None
  {
    hide Varint.Decode32, Varint.Encode;
    Varint.RoundTrip32(n, rest);
  }

  // Examples

  lemma Examples()
    ensures Varint.Encode(300) == [0xAC, 0x02]
    ensures Tag(1, WireType(LVarint)) == [0x08] && Tag(2, WireType(LString)) == [0x12]
    ensures Tag(1, WireType(LFixed64)) == [0x09] && Tag(1, WireType(LFixed32)) == [0x0D]
    ensures Varint.Fixed(0x0102_0304, 4) == [0x04, 0x03, 0x02, 0x01]
  {
    assert Varint.Encode(2) == [0x02];
    assert Varint.Fixed(0x01, 1) == [0x01] && Varint.Fixed(0x0102, 2) == [0x02, 0x01];
    assert Varint.Fixed(0x01_0203, 3) == [0x03, 0x02, 0x01];
  }
}
