/** Base-128 varints and zigzag numbers: what the bytes mean, and what the two decoders accept. */
module Varint {
  import opened Bytes

  /** Seven bits a byte, least significant first, the top bit set on all bytes but the last. */
  function Encode(v: nat): (bs: seq<byte>)
    ensures bs != []
  {
    if v < 128 then [v] else [128 + v % 128] + Encode(v / 128)
  }

  /** The length of the varint s begins with, if its last byte is there. */
  function Span(s: seq<byte>): (n: Option<nat>)
    ensures n.Some? ==> 1 <= n.value <= |s|
  {
    if s == [] then None
    else if s[0] < 128 then Some(1)
    else match Span(s[1..]) case None => None case Some(n) => Some(n + 1)
  }

  /** The number the varint at the head of s stands for. */
  function Number(s: seq<byte>): nat {
    if s == [] then 0
    else if s[0] < 128 then s[0]
    else s[0] - 128 + 128 * Number(s[1..])
  }

  /** pb_decode_varint: at most ten bytes, the number they mean kept to 64 bits. */
  function Decode(s: seq<byte>): (r: Option<(nat, seq<byte>)>)
    ensures r.Some? ==> |r.value.1| < |s| && r.value.0 < 0x1_0000_0000_0000_0000
  {
    match Span(s)
    case None => None
    case Some(n) => if n <= 10 then Some((Number(s) % 0x1_0000_0000_0000_0000, s[n..])) else None
  }

  /** pb_decode_varint32_eof, first byte. */
  function Decode32(s: seq<byte>): (r: Option<(nat, seq<byte>)>)
    ensures r.Some? ==> |r.value.1| < |s| && r.value.0 < 0x1_0000_0000
  {
    if s == [] then None
    else if s[0] < 128 then Some((s[0], s[1..]))
    else Tail32(s[1..], s[0] % 128, 7)
  }

  /** The byte that sign extension of a negative 32-bit number puts at bitpos. */
  function SignExtension(bitpos: nat): byte {
    if bitpos < 63 then 0xFF else 0x01
  }

  /** The accumulator after one more byte; from bit 32 on nothing is added. */
  function Step32(result: nat, b: byte, bitpos: nat): (r: nat)
    requires result < 0x1_0000_0000
    ensures r < 0x1_0000_0000
  {
    if bitpos >= 32 then result
    else
      var shifted := Shl(b % 128, bitpos) % 0x1_0000_0000;
      assert Or(result, shifted) < 0x1_0000_0000 by { Shl32(1); OrBound(result, shifted, 32); }
      Or(result, shifted)
  }

  /** Whether the loop of pb_decode_varint32_eof refuses a byte: from bit 32 on only a sign may be extended. */
  predicate Refuses32(b: byte, result: nat, bitpos: nat) {
    bitpos >= 32 && b % 128 != 0 && (result / 0x8000_0000 == 0 || b != SignExtension(bitpos))
  }

  /** Whether the last byte was the fifth and has bits that do not fit. */
  predicate Overflows32(b: byte, bitpos: nat) {
    bitpos == 35 && b / 16 % 8 != 0
  }

  /** The loop of pb_decode_varint32_eof, with its 8-bit bitpos. */
  function Tail32(s: seq<byte>, result: nat, bitpos: nat): (r: Option<(nat, seq<byte>)>)
    requires result < 0x1_0000_0000
    ensures r.Some? ==> |r.value.1| < |s| && r.value.0 < 0x1_0000_0000
  {
    if s == [] then None
    else
      var b := s[0];
      if Refuses32(b, result, bitpos) then None
      else
        var next := Step32(result, b, bitpos);
        var bitpos' := (bitpos + 7) % 256;
        if b >= 128 then Tail32(s[1..], next, bitpos')
        else if Overflows32(b, bitpos') then None
        else Some((next, s[1..]))
  }

  /** One turn of the loop of pb_decode_varint32_eof. */
  lemma Tail32Turn(s: seq<byte>, result: nat, bitpos: nat)
    requires result < 0x1_0000_0000
    ensures s == [] || Refuses32(s[0], result, bitpos) ==> Tail32(s, result, bitpos) == None
    ensures s != [] && !Refuses32(s[0], result, bitpos) ==>
              var next, bitpos' := Step32(result, s[0], bitpos), (bitpos + 7) % 256;
              Tail32(s, result, bitpos) ==
              if s[0] >= 128 then Tail32(s[1..], next, bitpos')
              else if Overflows32(s[0], bitpos') then None
              else Some((next, s[1..]))
  {
    hide Step32;
  }

  // Laws of the encoding

  lemma {:induction false} EncodeMeaning(v: nat, rest: seq<byte>)
    ensures Number(Encode(v) + rest) == v
    ensures Span(Encode(v) + rest) == Some(|Encode(v)|)
    ensures (Encode(v) + rest)[|Encode(v)|..] == rest
  {
    if v >= 128 {
      PeelEncode(v, rest);
      EncodeMeaning(v / 128, rest);
    }
  }

  lemma PeelEncode(v: nat, rest: seq<byte>)
    requires v >= 128
    ensures (Encode(v) + rest)[0] == 128 + v % 128
    ensures (Encode(v) + rest)[1..] == Encode(v / 128) + rest
  {
    var more := Encode(v / 128);
    assert Encode(v) == [128 + v % 128] + more;
    hide Encode;
    assert [128 + v % 128] + more + rest == [128 + v % 128] + (more + rest);
  }

  lemma {:induction false} EncodeLength(v: nat, k: nat)
    requires k > 0 && v < Shl(1, 7 * k)
    ensures |Encode(v)| <= k
  {
    if v >= 128 {
      if k == 1 {
        assert false by { Shl7(1); }
      } else {
        Shl128(1, 7 * (k - 1));
        EncodeLength(v / 128, k - 1);
      }
    }
  }

  lemma Shl128(x: nat, k: nat)
    ensures Shl(x, k + 7) == 128 * Shl(x, k)
  {
    ShlPlus(x, k, 7);
    Shl7(Shl(x, k));
  }

  lemma Encode64Length(v: nat)
    requires v < 0x1_0000_0000_0000_0000
    ensures 1 <= |Encode(v)| <= 10
  {
    Shl64(1);
    ShlPlus(1, 64, 6);
    ShlMonotone(0x1_0000_0000_0000_0000, 0x1_0000_0000_0000_0000, 6);
    EncodeLength(v, 10);
  }

  /** Every 64-bit number is read back exactly, whatever follows it. */
  lemma RoundTrip(v: nat, rest: seq<byte>)
    requires v < 0x1_0000_0000_0000_0000
    ensures Decode(Encode(v) + rest) == Some((v, rest))
  {
    EncodeMeaning(v, rest);
    Encode64Length(v);
  }

  // The 64-bit loop

  /** What the loop of pb_decode_varint returns once it has read i bytes standing for v. */
  function Decode64From(s: seq<byte>, v: nat, i: nat): Option<(nat, seq<byte>)> {
    match Span(s)
    case None => None
    case Some(n) =>
      if i + n <= 10 then Some(((v + Shl(Number(s), 7 * i)) % 0x1_0000_0000_0000_0000, s[n..])) else None
  }

  lemma Decode64Turn(s: seq<byte>, v: nat, i: nat)
    requires s != [] && i < 10 && v < Shl(1, 7 * i)
    ensures v + Shl(s[0] % 128, 7 * i) < Shl(1, 7 * (i + 1))
    ensures Decode64From(s, v, i)
         == if s[0] >= 128 then Decode64From(s[1..], v + Shl(s[0] % 128, 7 * i), i + 1)
            else Some(((v + Shl(s[0] % 128, 7 * i)) % 0x1_0000_0000_0000_0000, s[1..]))
  {
    hide Shl;
    Append(v, s[0] % 128, if s[0] >= 128 then Number(s[1..]) else 0, i);
  }

  /** Or-ing a byte's seven bits into a 64-bit accumulator adds them, mod 2^64. */
  lemma Step64Number(v: nat, b: byte, i: nat)
    requires i < 10 && v < Shl(1, 7 * i)
    ensures Or(v, Shl(b % 128, 7 * i) % 0x1_0000_0000_0000_0000)
         == (v + Shl(b % 128, 7 * i)) % 0x1_0000_0000_0000_0000
  {
    hide Shl, Or;
    var x := b % 128;
    Shl63();
    if i < 9 {
      Append(v, x, 0, i);
      var k := 7 * (i + 1);
      ShlPlus(1, k, 63 - k);
      ShlMonotone(Shl(1, k), Shl(1, k), 63 - k);
      OrDisjoint(v, x, 7 * i);
    } else {
      OneBitKept(x, v);
      OrDisjoint(v, x % 2, 63);
    }
  }

  /** One turn of the loop on byte b, in terms of the accumulator and of what is left to read. */
  lemma Decode64Step(s: seq<byte>, v: nat, i: nat, b: byte)
    requires s != [] && b == s[0] && i < 10 && v < Shl(1, 7 * i)
    ensures var next := v + Shl(b % 128, 7 * i);
            && Or(v, Shl(b % 128, 7 * i) % 0x1_0000_0000_0000_0000) == next % 0x1_0000_0000_0000_0000
            && next < Shl(1, 7 * (i + 1)) && (i + 1 < 10 ==> next < 0x1_0000_0000_0000_0000)
            && Decode64From(s, v, i) == if b >= 128 then Decode64From(s[1..], next, i + 1)
                                        else Some((next % 0x1_0000_0000_0000_0000, s[1..]))
  {
    Decode64Turn(s, v, i);
    Step64Number(v, b, i);
    hide *;
    if i + 1 < 10 {
      var k := 7 * (i + 1);
      ShlPlus(1, k, 64 - k);
      ShlMonotone(Shl(1, k), Shl(1, k), 64 - k);
      Shl64(1);
    }
  }

  /** The loop on the input s, with i bytes read, of which b is the last one, and left still to come. */
  ghost predicate Reading64(s: seq<byte>, left: seq<byte>, result: nat, i: nat, b: byte) {
    && i <= 10
    && (b < 128 ==> Decode(s) == Some((result, left)))
    && (b >= 128 && i < 10 ==> result < Shl(1, 7 * i) && Decode(s) == Decode64From(left, result, i))
    && (b >= 128 && (i == 10 || left == []) ==> Decode(s).None?)
  }

  lemma Reading64Start(s: seq<byte>)
    ensures Reading64(s, s, 0, 0, 0x80)
  {
    if Span(s).Some? {
      assert Shl(Number(s), 0) == Number(s);
    }
  }

  lemma Reading64Step(s: seq<byte>, left: seq<byte>, result: nat, i: nat, prev: byte, b: byte)
    requires Reading64(s, left, result, i, prev) && prev >= 128 && i < 10 && left != [] && b == left[0]
    ensures Reading64(s, left[1..], Or(result, Shl(b % 128, 7 * i) % 0x1_0000_0000_0000_0000), i + 1, b)
  {
    hide Shl, Or, Number, Span, Decode, Decode64From;
    Decode64Step(left, result, i, b);
    if left[1..] == [] || i + 1 == 10 {
      Decode64Over(left[1..], result + Shl(b % 128, 7 * i), i + 1);
    }
  }

  lemma Decode64Over(s: seq<byte>, v: nat, i: nat)
    requires s == [] || i >= 10
    ensures Decode64From(s, v, i).None?
  {}

  lemma Shl63()
    ensures Shl(1, 63) == 0x8000_0000_0000_0000
  {
    hide Shl;
    ShlPlus(1, 63, 1);
    Shl64(1);
    ShlOne(Shl(1, 63));
  }

  /** Of the tenth byte the lowest bit is kept. */
  lemma OneBitKept(x: nat, v: nat)
    requires v < 0x8000_0000_0000_0000
    ensures Shl(x, 63) % 0x1_0000_0000_0000_0000 == Shl(x % 2, 63)
    ensures v + Shl(x % 2, 63) == (v + Shl(x, 63)) % 0x1_0000_0000_0000_0000
  {
    hide Shl;
    var h, low := x / 2, x % 2;
    ShlSum(2 * h, low, 63);
    ShlOne(h);
    ShlPlus(h, 1, 63);
    Shl64(h);
    Shl63();
    ShlMonotone(low, 1, 63);
    LowBits64(h, Shl(low, 63));
    LowBits64(h, v + Shl(low, 63));
  }

  lemma LowBits64(h: nat, low: nat)
    requires low < 0x1_0000_0000_0000_0000
    ensures (0x1_0000_0000_0000_0000 * h + low) % 0x1_0000_0000_0000_0000 == low
  {}

  lemma ShlOne(x: nat)
    ensures Shl(x, 1) == 2 * x
  {
    assert Shl(x, 0) == x;
  }

  // Laws of the 32-bit decoder

  /** Up to the fourth byte every bit is kept. */
  lemma AllBitsKept(x: nat, i: nat, v: nat)
    requires x < 128 && 1 <= i <= 3 && v < Shl(1, 7 * i)
    ensures v + Shl(x, 7 * i) < 0x1000_0000
  {
    hide Shl;
    if i == 1 { Shl7(x); Shl7(1); }
    else if i == 2 { Shl14(x); Shl14(1); }
    else { Shl21(x); Shl21(1); }
  }

  /** Of the fifth byte the low four bits are kept. */
  lemma FourBitsKept(x: nat, v: nat)
    requires x < 128 && v < Shl(1, 28)
    ensures v < 0x1000_0000
    ensures Shl(x, 28) % 0x1_0000_0000 == Shl(x % 16, 28)
    ensures v + Shl(x % 16, 28) == (v + Shl(x, 28)) % 0x1_0000_0000
  {
    hide Shl;
    Shl28(x);
    Shl28(x % 16);
    Shl28(1);
    assert x == 16 * (x / 16) + x % 16;
  }

  lemma LostBits(x: nat, i: nat, v: nat)
    requires 5 <= i
    ensures (v + Shl(x, 7 * i)) % 0x1_0000_0000 == v % 0x1_0000_0000
  {
    hide Shl;
    var high := Shl(x, 7 * i - 32);
    ShlPlus(x, 7 * i - 32, 32);
    Shl32(high);
    assert (v + 0x1_0000_0000 * high) % 0x1_0000_0000 == v % 0x1_0000_0000;
  }

  /** One byte of the 32-bit loop adds its bits to the number read so far, mod 2^32. */
  lemma Step32Number(v: nat, b: byte, i: nat)
    requires 1 <= i && v < Shl(1, 7 * i)
    ensures Step32(v % 0x1_0000_0000, b, 7 * i) == (v + Shl(b % 128, 7 * i)) % 0x1_0000_0000
  {
    hide Shl, Or;
    if i <= 3 {
      AllBitsKept(b % 128, i, v);
      OrDisjoint(v, b % 128, 7 * i);
    } else if i == 4 {
      FourBitsKept(b % 128, v);
      OrDisjoint(v, b % 128 % 16, 28);
    } else {
      LostBits(b % 128, i, v);
    }
  }

  lemma Append(v: nat, x: nat, n: nat, i: nat)
    requires v < Shl(1, 7 * i) && x < 128
    ensures v + Shl(x, 7 * i) < Shl(1, 7 * (i + 1))
    ensures Shl(x + 128 * n, 7 * i) == Shl(x, 7 * i) + Shl(n, 7 * (i + 1))
  {
    ShlSum(x, 128 * n, 7 * i);
    Shl7(n);
    ShlPlus(n, 7, 7 * i);
    ShlSum(x, 1, 7 * i);
    ShlMonotone(x + 1, 128, 7 * i);
    Shl7(1);
    ShlPlus(1, 7, 7 * i);
  }

  /** What the loop returns once i bytes standing for v have been read. */
  lemma {:induction false} Tail32Meaning(s: seq<byte>, v: nat, i: nat)
    requires i >= 1 && v < Shl(1, 7 * i)
    requires Tail32(s, v % 0x1_0000_0000, 7 * i).Some?
    requires Span(s).Some? && i + Span(s).value <= 10
    ensures Tail32(s, v % 0x1_0000_0000, 7 * i)
         == Some(((v + Shl(Number(s), 7 * i)) % 0x1_0000_0000, s[Span(s).value..]))
    decreases |s|
  {
    hide Step32, Shl, Or;
    Step32Number(v, s[0], i);
    if s[0] >= 128 {
      Append(v, s[0] - 128, Number(s[1..]), i);
      Tail32Meaning(s[1..], v + Shl(s[0] - 128, 7 * i), i + 1);
    }
  }

  lemma {:induction false} Tail32Spans(s: seq<byte>, result: nat, bitpos: nat)
    requires result < 0x1_0000_0000 && Tail32(s, result, bitpos).Some?
    ensures Span(s).Some?
  {
    hide Step32, Shl, Or;
    if s[0] >= 128 {
      Tail32Spans(s[1..], Step32(result, s[0], bitpos), (bitpos + 7) % 256);
    }
  }

  /** Whatever input of at most ten bytes the 32-bit decoder accepts, it returns its value mod 2^32. */
  lemma Decode32Meaning(s: seq<byte>)
    requires Decode32(s).Some?
    ensures Span(s).Some?
    ensures Span(s).value <= 10 ==> Decode32(s) == Some((Number(s) % 0x1_0000_0000, s[Span(s).value..]))
  {
    hide Tail32, Step32, Shl;
    if s[0] >= 128 {
      Tail32Spans(s[1..], s[0] - 128, 7);
      Shl7(1);
      Shl7(Number(s[1..]));
      if Span(s).value <= 10 {
        Tail32Meaning(s[1..], s[0] - 128, 1);
      }
    }
  }

  /** Every 32-bit number is accepted and read back by the 32-bit decoder. */
  lemma RoundTrip32(v: nat, rest: seq<byte>)
    requires v < 0x1_0000_0000
    ensures Decode32(Encode(v) + rest) == Some((v, rest))
  {
    hide *;
    EncodeMeaning(v, rest);
    Accepts32(v, rest);
    Encode64Length(v);
    Decode32Meaning(Encode(v) + rest);
  }

  /** Whether the loop of pb_decode_varint32_eof lets a byte pass at place i, counted from 0: from the sixth on, only
      one without bits or one of a sign extension. */
  predicate Passes32(b: byte, i: nat, negative: bool) {
    i < 5 || b % 128 == 0 || (negative && b == if i < 9 then 0xFF else 0x01)
  }

  /** Bit 31 of the number is settled once five bytes have been read. */
  lemma PassesExactly(v: nat, more: nat, b: byte, i: nat)
    requires 1 <= i <= 9 && v < Shl(1, 7 * i)
    ensures !Refuses32(b, v % 0x1_0000_0000, 7 * i) <==>
            Passes32(b, i, (v + Shl(more, 7 * i)) % 0x1_0000_0000 >= 0x8000_0000)
  {
    hide Shl;
    if i >= 5 {
      LostBits(more, i, v);
    }
  }

  predicate AllPass(s: seq<byte>, i: nat, n: nat, negative: bool)
    requires n <= |s|
  {
    forall k: nat | k < n :: Passes32(s[k], i + k, negative)
  }

  lemma FirstPasses(s: seq<byte>, i: nat, n: nat, negative: bool)
    requires 0 < n <= |s|
    ensures AllPass(s, i, n, negative) <==> Passes32(s[0], i, negative) && AllPass(s[1..], i + 1, n - 1, negative)
  {
    hide Passes32;
    if Passes32(s[0], i, negative) && AllPass(s[1..], i + 1, n - 1, negative) {
      forall k: nat | k < n ensures Passes32(s[k], i + k, negative) {
        if k > 0 {
          assert Passes32(s[1..][k - 1], i + 1 + (k - 1), negative);
        }
      }
    }
    if AllPass(s, i, n, negative) {
      assert Passes32(s[0], i + 0, negative);
      forall k: nat | k < n - 1 ensures Passes32(s[1..][k], i + 1 + k, negative) {
        assert Passes32(s[k + 1], i + (k + 1), negative);
      }
    }
  }

  /** What is left to read when i bytes standing for v have been read is accepted if every byte passes, and the fifth,
      if it is the last, has no bits that do not fit. */
  lemma {:induction false} Tail32Accepts(s: seq<byte>, v: nat, i: nat, n: nat, total: nat)
    requires 1 <= i && v < Shl(1, 7 * i) && Span(s) == Some(n) && i + n <= 10
    requires total == v + Shl(Number(s), 7 * i)
    ensures Tail32(s, v % 0x1_0000_0000, 7 * i).Some? <==>
            (i + n == 5 ==> s[n - 1] < 16) && AllPass(s, i, n, total % 0x1_0000_0000 >= 0x8000_0000)
    decreases |s|
  {
    hide Step32, Shl, Refuses32, Tail32, Passes32, AllPass;
    var b, negative := s[0], total % 0x1_0000_0000 >= 0x8000_0000;
    Step32Number(v, b, i);
    PassesExactly(v, Number(s), b, i);
    Tail32Turn(s, v % 0x1_0000_0000, 7 * i);
    FirstPasses(s, i, n, negative);
    if b >= 128 {
      Append(v, b - 128, Number(s[1..]), i);
      Tail32Accepts(s[1..], v + Shl(b % 128, 7 * i), i + 1, n - 1, total);
    } else {
      NonePass(s[1..], i + 1, negative);
    }
  }

  lemma NonePass(s: seq<byte>, i: nat, negative: bool)
    ensures AllPass(s, i, 0, negative)
  {}

  /** Of the varints of at most ten bytes the 32-bit decoder accepts exactly those whose fifth byte, if it is the last,
      is below 16, and whose later bytes have no bits but those of a sign extension of a negative number. */
  lemma Decode32Accepts(s: seq<byte>)
    requires Span(s).Some? && Span(s).value <= 10
    ensures var n, negative := Span(s).value, Number(s) % 0x1_0000_0000 >= 0x8000_0000;
            Decode32(s).Some? <==>
            && (n == 5 ==> s[4] < 16)
            && forall k: nat | 5 <= k < n :: s[k] % 128 == 0 || (negative && s[k] == if k < 9 then 0xFF else 0x01)
  {
    var n, negative := Span(s).value, Number(s) % 0x1_0000_0000 >= 0x8000_0000;
    AllPassMeans(s, n, negative);
    hide *;
    Decode32Passes(s, n);
  }

  lemma Decode32Passes(s: seq<byte>, n: nat)
    requires Span(s) == Some(n) && n <= 10
    ensures Decode32(s).Some? <==>
            (n == 5 ==> s[4] < 16) && AllPass(s, 0, n, Number(s) % 0x1_0000_0000 >= 0x8000_0000)
  {
    hide *;
    var negative := Number(s) % 0x1_0000_0000 >= 0x8000_0000;
    FirstSpan(s);
    FirstByte(s);
    FirstPasses(s, 0, n, negative);
    AnyPasses(s[0], negative);
    if s[0] >= 128 {
      FirstNumber(s);
      var low := s[0] % 128;
      Tail32Accepts(s[1..], low, 1, n - 1, Number(s));
      assert low % 0x1_0000_0000 == low && (n == 5 ==> s[1..][n - 2] == s[4]);
    } else {
      NonePass(s[1..], 1, negative);
    }
  }

  lemma AnyPasses(b: byte, negative: bool)
    ensures Passes32(b, 0, negative)
  {}

  /** The first byte is taken without any test. */
  lemma FirstByte(s: seq<byte>)
    requires s != []
    ensures if s[0] < 128 then Decode32(s).Some? else Decode32(s) == Tail32(s[1..], s[0] % 128, 7)
  {
    hide Tail32;
  }

  lemma FirstSpan(s: seq<byte>)
    requires Span(s).Some?
    ensures s != []
    ensures if s[0] < 128 then Span(s).value == 1 else Span(s).value > 1 && Span(s[1..]) == Some(Span(s).value - 1)
  {}

  lemma FirstNumber(s: seq<byte>)
    requires s != [] && s[0] >= 128
    ensures s[0] % 128 < Shl(1, 7 * 1) && Number(s) == s[0] % 128 + Shl(Number(s[1..]), 7 * 1)
  {
    hide Shl;
    Shl7(1);
    Shl7(Number(s[1..]));
  }

  lemma AllPassMeans(s: seq<byte>, n: nat, negative: bool)
    requires n <= |s|
    ensures AllPass(s, 0, n, negative) <==>
            forall k: nat | 5 <= k < n :: s[k] % 128 == 0 || (negative && s[k] == if k < 9 then 0xFF else 0x01)
  {
    if AllPass(s, 0, n, negative) {
      forall k: nat | 5 <= k < n
        ensures s[k] % 128 == 0 || (negative && s[k] == if k < 9 then 0xFF else 0x01)
      {
        assert Passes32(s[k], 0 + k, negative);
      }
    }
  }

  lemma FirstByte32(v: nat, rest: seq<byte>)
    requires v >= 128
    ensures Decode32(Encode(v) + rest) == Tail32(Encode(v / 128) + rest, v % 128, 7)
  {
    hide Tail32;
    PeelEncode(v, rest);
  }

  lemma Accepts32(v: nat, rest: seq<byte>)
    requires v < 0x1_0000_0000
    ensures Decode32(Encode(v) + rest).Some?
  {
    hide Tail32, Shl;
    if v >= 128 {
      FirstByte32(v, rest);
      Shl7(v / 128);
      TailAccepts(v / 128, 1, v % 128, rest);
    }
  }

  lemma {:induction false} TailAccepts(v: nat, k: nat, result: nat, rest: seq<byte>)
    requires 1 <= k <= 4 && result < 0x1_0000_0000
    requires Shl(v, 7 * k) < 0x1_0000_0000
    ensures Tail32(Encode(v) + rest, result, 7 * k).Some?
    decreases 4 - k
  {
    hide Step32, Shl, Or;
    if v >= 128 {
      var w := v / 128;
      PeelEncode(v, rest);
      ShlMonotone(128 * w, v, 7 * k);
      assert Shl(128 * w, 7 * k) == Shl(w, 7 * (k + 1)) by { Shl7(w); ShlPlus(w, 7, 7 * k); }
      if k == 4 {
        assert false by { Shl28(v); }
      } else {
        TailAccepts(w, k + 1, Step32(result, 128 + v % 128, 7 * k), rest);
      }
    } else if k == 4 {
      Shl28(v);
    }
  }

  /** A negative int32 sent sign-extended to 64 bits is read as its low 32 bits. */
  lemma NegativeInt32(x: nat, rest: seq<byte>)
    requires 1 <= x <= 0x8000_0000
    ensures Decode32(Encode(0x1_0000_0000_0000_0000 - x) + rest) == Some((0x1_0000_0000 - x, rest))
  {
    var v := 0x1_0000_0000_0000_0000 - x;
    hide *;
    EncodeMeaning(v, rest);
    Encode64Length(v);
    NegativeAccepted(v, rest);
    Decode32Meaning(Encode(v) + rest);
  }

  lemma NegativeAccepted(v: nat, rest: seq<byte>)
    requires 0x1_0000_0000_0000_0000 - 0x8000_0000 <= v < 0x1_0000_0000_0000_0000
    ensures Decode32(Encode(v) + rest).Some?
  {
    hide *;
    FirstByte32(v, rest);
    var w, b := v / 128, v % 128;
    Shl7(1);
    Shl7(w);
    NegativeTail(w, b, 1, rest);
  }

  /** The loop accepts the rest w of such a number once its low bits acc have been read. */
  lemma {:induction false} NegativeTail(w: nat, acc: nat, i: nat, rest: seq<byte>)
    requires 1 <= i <= 5 && acc < Shl(1, 7 * i)
    requires 0x1_0000_0000_0000_0000 - 0x8000_0000 <= acc + Shl(w, 7 * i) < 0x1_0000_0000_0000_0000
    ensures Tail32(Encode(w) + rest, acc % 0x1_0000_0000, 7 * i).Some?
    decreases 5 - i
  {
    hide Step32, Shl, Encode, Or;
    if i == 5 {
      hide Tail32;
      FifthByte(w, acc);
      SignTail(rest, acc % 0x1_0000_0000);
    } else {
      SmallTail(w, i);
      PeelEncode(w, rest);
      Step32Number(acc, 128 + w % 128, i);
      Append(acc, w % 128, w / 128, i);
      NegativeTail(w / 128, acc + Shl(w % 128, 7 * i), i + 1, rest);
    }
  }

  lemma FifthByte(w: nat, acc: nat)
    requires acc < Shl(1, 35)
    requires 0x1_0000_0000_0000_0000 - 0x8000_0000 <= acc + Shl(w, 35) < 0x1_0000_0000_0000_0000
    ensures w == 0x1FFF_FFFF && acc % 0x1_0000_0000 >= 0x8000_0000
  {
    hide Shl;
    ShlPlus(w, 28, 7);
    Shl28(w);
    Shl7(0x1000_0000 * w);
    ShlPlus(1, 28, 7);
    Shl28(1);
    Shl7(0x1000_0000);
  }

  lemma SmallTail(w: nat, i: nat)
    requires 1 <= i <= 4
    ensures Shl(1, 7 * i) <= 0x1000_0000
    ensures w < 128 ==> Shl(w, 7 * i) < 0x8_0000_0000
  {
    Shl7(w); Shl14(w); Shl21(w); Shl28(w);
    Shl7(1); Shl14(1); Shl21(1); Shl28(1);
  }

  /** The five sign-extension bytes are skipped once bit 31 is set. */
  lemma SignTail(rest: seq<byte>, r: nat)
    requires 0x8000_0000 <= r < 0x1_0000_0000
    ensures Tail32(Encode(0x1FFF_FFFF) + rest, r, 35).Some?
  {
    PeelEncode(0x1FFF_FFFF, rest);
    PeelEncode(0x3F_FFFF, rest);
    PeelEncode(0x7FFF, rest);
    PeelEncode(0xFF, rest);
    assert (Encode(1) + rest)[0] == 1;
    assert Tail32(Encode(1) + rest, r, 63).Some?;
    assert Tail32(Encode(0xFF) + rest, r, 56).Some?;
    assert Tail32(Encode(0x7FFF) + rest, r, 49).Some?;
    assert Tail32(Encode(0x3F_FFFF) + rest, r, 42).Some?;
  }

  // Zigzag and fixed-width numbers

  /** pb_encode_svarint: small magnitudes of either sign become small numbers. */
  function ZigZag(v: int): (z: nat)
    requires -0x8000_0000_0000_0000 <= v < 0x8000_0000_0000_0000
    ensures z < 0x1_0000_0000_0000_0000
  {
    if v < 0 then 0x1_0000_0000_0000_0000 - 1 - (v + 0x1_0000_0000_0000_0000) * 2 % 0x1_0000_0000_0000_0000 else v * 2
  }

  /** pb_decode_svarint: the odd numbers are the complements of their halves. */
  function UnZigZag(z: nat): (v: int)
    requires z < 0x1_0000_0000_0000_0000
    ensures -0x8000_0000_0000_0000 <= v < 0x8000_0000_0000_0000
  {
    if z % 2 == 1 then -(z / 2) - 1 else z / 2
  }

  lemma ZigZagInverse(v: int)
    requires -0x8000_0000_0000_0000 <= v < 0x8000_0000_0000_0000
    ensures UnZigZag(ZigZag(v)) == v
  {
    if v < 0 {
      assert (v + 0x1_0000_0000_0000_0000) * 2 == 0x1_0000_0000_0000_0000 + (0x1_0000_0000_0000_0000 + 2 * v);
    }
  }

  /** n bytes, least significant first. */
  function Fixed(v: nat, n: nat): (bs: seq<byte>)
    ensures |bs| == n
  {
    if n == 0 then [] else [v % 256] + Fixed(v / 256, n - 1)
  }

  function FixedValue(bs: seq<byte>): nat {
    if bs == [] then 0 else bs[0] + 256 * FixedValue(bs[1..])
  }

  lemma Shl256(k: nat)
    ensures Shl(1, k + 8) == 256 * Shl(1, k)
  {
    ShlPlus(1, k, 8);
    Shl8(Shl(1, k));
  }

  lemma {:induction false} FixedInverse(v: nat, n: nat)
    requires v < Shl(1, 8 * n)
    ensures FixedValue(Fixed(v, n)) == v
  {
    if n > 0 {
      Shl256(8 * (n - 1));
      FixedInverse(v / 256, n - 1);
    }
  }

  lemma {:induction false} FixedBound(bs: seq<byte>)
    ensures FixedValue(bs) < Shl(1, 8 * |bs|)
  {
    if bs != [] {
      FixedBound(bs[1..]);
      Shl256(8 * (|bs| - 1));
    }
  }
}
