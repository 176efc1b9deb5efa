/** Decoding what was encoded, value by value: tags, numbers, bytes and strings, and values that are skipped. */
module PbRoundTrip {
  import opened Bytes
  import Varint
  import opened PbTypes
  import opened PbWire
  import opened PbAgree

  // Single values

  lemma Cut(a: seq<byte>, b: seq<byte>)
    ensures (a + b)[..|a|] == a && (a + b)[|a|..] == b
  {}

  lemma Regroup(a: seq<byte>, b: seq<byte>, c: seq<byte>)
    ensures (a + b) + c == a + (b + c)
  {}

  lemma TagBack(tag: nat, wireType: nat, rest: seq<byte>)
    requires 0 < tag < 0x2000_0000 && wireType < 8
    ensures DecodeTag(Tag(tag, wireType) + rest) == FieldTag(tag, wireType, rest)
    ensures Tag(tag, wireType) != []
  {
    hide Varint.Encode, Varint.Decode32;
    Varint.RoundTrip32(tag * 8 + wireType, rest);
  }

  lemma PrefixedBack(body: seq<byte>, rest: seq<byte>)
    requires |body| < 0x1_0000_0000
    ensures DecodePrefixed(Prefixed(body) + rest) == Some((body, rest))
    ensures SkipField(WT_STRING, Prefixed(body) + rest) == Some(rest)
    ensures |Prefixed(body)| >= |body|
  {
    Regroup(Varint.Encode(|body|), body, rest);
    Varint.RoundTrip32(|body|, body + rest);
    Cut(body, rest);
  }

  lemma FixedBack(v: nat, n: nat, rest: seq<byte>)
    requires n == 4 || n == 8
    requires v < if n == 4 then 0x1_0000_0000 else 0x1_0000_0000_0000_0000
    ensures var s := Varint.Fixed(v, n) + rest;
            |s| >= n && Varint.FixedValue(s[..n]) == v && s[n..] == rest
  {
    Shl32(1);
    Shl64(1);
    Varint.FixedInverse(v, n);
    Cut(Varint.Fixed(v, n), rest);
  }

  lemma VarintOf(f: Field, v: Value) returns (n: nat)
    requires f.ltype.LVarint? || f.ltype.LUVarint? || f.ltype.LSVarint?
    requires Half(f.dataSize) > 0 && FitsValue(f, v)
    ensures n < 0x1_0000_0000_0000_0000
    ensures EncodeScalar(f, v) == Some(Varint.Encode(n))
    ensures ScalarOf(f, n) == Some(v)
  {
    match f.ltype
    case LVarint =>
      n := ToUnsigned(v.v);
      if f.dataSize < 8 {
        assert -0x8000_0000 <= v.v < 0x8000_0000;
        assert ToSigned32(n % 0x1_0000_0000) == v.v;
      }
    case LSVarint =>
      n := Varint.ZigZag(v.v);
      Varint.ZigZagInverse(v.v);
    case LUVarint => n := v.v;
  }

  /** An integer of any kind is read back, and skipped by a receiver that does not know it. */
  lemma ScalarBack(f: Field, v: Value, rest: seq<byte>)
    requires Packable(f.ltype) && WellFormedField(f) && FitsValue(f, v)
    ensures EncodeScalar(f, v).Some?
    ensures DecodeScalar(f, EncodeScalar(f, v).value + rest) == Some((v, rest))
    ensures SkipField(WireType(f.ltype), EncodeScalar(f, v).value + rest) == Some(rest)
  {
    match f.ltype
    case LFixed32 => FixedBack(v.v, 4, rest);
    case LFixed64 => FixedBack(v.v, 8, rest);
    case _ =>
      var n := VarintOf(f, v);
      Varint.RoundTrip(n, rest);
      Varint.EncodeMeaning(n, rest);
  }

  /** A receiver that does not know a field skips exactly the bytes of its value. */
  lemma ValueSkipped(f: Field, v: Value, rest: seq<byte>)
    requires WellFormedField(f) && FitsValue(f, v)
    requires f.ltype.LSubmessage? ==> Typed(f.ltype.desc)
    requires EncodeValue(f, v).Some? && NarrowValue(f, v)
    ensures SkipField(WireType(f.ltype), EncodeValue(f, v).value + rest) == Some(rest)
  {
    match f.ltype
    case LBytes => PrefixedBack(v.data, rest);
    case LString => PrefixedBack(Text(v.buf), rest);
    case LFixedBytes => PrefixedBack(v.data, rest);
    case LSubmessage(desc) => PrefixedBack(EncodeMessage(desc, v.msg).value, rest);
    case _ => ScalarBack(f, v, rest);
  }

  lemma {:induction false} TextOf(s: seq<byte>, tail: seq<byte>)
    requires 0 !in s
    ensures Text(s + [0] + tail) == s
  {
    if s != [] {
      assert (s + [0] + tail)[1..] == s[1..] + [0] + tail;
      TextOf(s[1..], tail);
    }
  }

  lemma TextStored(f: Field, v: Value, cur: Value)
    requires f.ltype.LString? && FitsValue(f, v) && FitsValue(f, cur) && TerminatedValue(f, v)
    ensures StoreBytes(f, cur, Text(v.buf)).Some?
    ensures SameValue(f, f, v, StoreBytes(f, cur, Text(v.buf)).value)
  {
    var text := Text(v.buf);
    assert |text| < |v.buf|;
    TextOf(text, cur.buf[|text| + 1..]);
  }

  /** Bytes, strings and inline byte arrays are read back into any member of their type. */
  lemma BytesBack(f: Field, v: Value, cur: Value, rest: seq<byte>)
    requires f.ltype.LBytes? || f.ltype.LString? || f.ltype.LFixedBytes?
    requires f.dataSize < 0x1_0000_0000
    requires FitsValue(f, v) && FitsValue(f, cur) && TerminatedValue(f, v) && EncodeValue(f, v).Some?
    ensures DecodeValue(f, cur, EncodeValue(f, v).value + rest).Some?
    ensures DecodeValue(f, cur, EncodeValue(f, v).value + rest).value.1 == rest
    ensures SameValue(f, f, v, DecodeValue(f, cur, EncodeValue(f, v).value + rest).value.0)
  {
    hide Prefixed, DecodePrefixed, SkipField;
    match f.ltype
    case LBytes => PrefixedBack(v.data, rest);
    case LString =>
      PrefixedBack(Text(v.buf), rest);
      TextStored(f, v, cur);
    case LFixedBytes =>
      PrefixedBack(v.data, rest);
      if v.data == [] {
        assert v.data == seq(f.dataSize, _ => 0);
      }
  }

  // Where the format or the code ends

  /** A 32-bit field number survives its own tag exactly when it is below 2^29. */
  lemma TagReadable(tag: nat, wireType: nat, rest: seq<byte>)
    requires 0 < tag < 0x1_0000_0000 && wireType < 8
    ensures DecodeTag(Tag(tag, wireType) + rest) == FieldTag(tag, wireType, rest) <==> tag < 0x2000_0000
  {
    if tag < 0x2000_0000 {
      TagBack(tag, wireType, rest);
    }
  }
}
