/** The twelve-byte header in front of every DTLS handshake fragment (section 4.2.2 of RFC 6347). */
module DtlsWire {
  import opened Bytes

  const HEADER_LENGTH: nat := 12

  datatype Header = Header(msgType: byte, msgLen: nat, seqNum: nat, fragOff: nat, fragLen: nat) {
    predicate Fits() {
      msgLen < 0x100_0000 && seqNum < 0x1_0000 && fragOff < 0x100_0000 && fragLen < 0x100_0000
    }
  }

  datatype Parsed = Parsed(header: Header, body: seq<byte>, rest: seq<byte>)

  function PutU16(n: nat): (b: seq<byte>)
    requires n < 0x1_0000
    ensures |b| == 2
  {
    var high: byte := n / 0x100;
    var low: byte := n % 0x100;
    [high, low]
  }

  function PutU24(n: nat): (b: seq<byte>)
    requires n < 0x100_0000
    ensures |b| == 3
  {
    var high: byte := n / 0x1_0000;
    var middle: byte := n / 0x100 % 0x100;
    var low: byte := n % 0x100;
    [high, middle, low]
  }

  function GetU16(b: seq<byte>): (n: nat)
    requires |b| == 2
    ensures n < 0x1_0000
  {
    var high: nat := b[0];
    0x100 * high + b[1]
  }

  function GetU24(b: seq<byte>): (n: nat)
    requires |b| == 3
    ensures n < 0x100_0000
  {
    var high: nat := b[0];
    var middle: nat := b[1];
    0x1_0000 * high + 0x100 * middle + b[2]
  }

  lemma U16Inverse(n: nat)
    requires n < 0x1_0000
    ensures GetU16(PutU16(n)) == n
  {}

  lemma U24Inverse(n: nat)
    requires n < 0x100_0000
    ensures GetU24(PutU24(n)) == n
  {}

  lemma PutGetU16(b: seq<byte>)
    requires |b| == 2
    ensures PutU16(GetU16(b)) == b
  {}

  lemma PutGetU24(b: seq<byte>)
    requires |b| == 3
    ensures PutU24(GetU24(b)) == b
  {
    var n := GetU24(b);
    var upper: nat := b[0];
    upper := 0x100 * upper + b[1];
    assert n == 0x100 * upper + b[2];
    assert n / 0x100 == upper && n % 0x100 == b[2];
    assert upper / 0x100 == b[0] && upper % 0x100 == b[1];
    assert n / 0x1_0000 == n / 0x100 / 0x100;
  }

  function Encode(h: Header): (b: seq<byte>)
    requires h.Fits()
    ensures |b| == HEADER_LENGTH
  {
    [h.msgType] + PutU24(h.msgLen) + PutU16(h.seqNum) + PutU24(h.fragOff) + PutU24(h.fragLen)
  }

  /** The header byte by byte: the type, the length, the number, the offset and the length of the fragment, each with
      its most significant byte first. */
  lemma HeaderBytes(h: Header)
    requires h.Fits()
    ensures Encode(h) ==
            [h.msgType,
             h.msgLen / 0x1_0000, h.msgLen / 0x100 % 0x100, h.msgLen % 0x100,
             h.seqNum / 0x100, h.seqNum % 0x100,
             h.fragOff / 0x1_0000, h.fragOff / 0x100 % 0x100, h.fragOff % 0x100,
             h.fragLen / 0x1_0000, h.fragLen / 0x100 % 0x100, h.fragLen % 0x100]
  {
    PutBytes(h.msgLen);
    PutBytes(h.fragOff);
    PutBytes(h.fragLen);
    hide PutU24;
    assert PutU16(h.seqNum) == [h.seqNum / 0x100, h.seqNum % 0x100];
  }

  lemma PutBytes(n: nat)
    requires n < 0x100_0000
    ensures PutU24(n) == [n / 0x1_0000, n / 0x100 % 0x100, n % 0x100]
  {}

  /** Reads one fragment off the front of b; None when b is too short. */
  function ParseFragment(b: seq<byte>): Option<Parsed> {
    if |b| < HEADER_LENGTH then None
    else
      var h := Header(b[0], GetU24(b[1..4]), GetU16(b[4..6]), GetU24(b[6..9]), GetU24(b[9..12]));
      if |b| - HEADER_LENGTH < h.fragLen then None
      else Some(Parsed(h, b[12..12 + h.fragLen], b[12 + h.fragLen..]))
  }

  lemma ParseEncoded(b: seq<byte>, h: Header, body: seq<byte>, rest: seq<byte>)
    requires h.Fits() && |body| == h.fragLen && b == Encode(h) + body + rest
    ensures ParseFragment(b) == Some(Parsed(h, body, rest))
  {
    hide PutU16, PutU24, GetU16, GetU24;
    assert b[1..4] == PutU24(h.msgLen);
    assert b[4..6] == PutU16(h.seqNum);
    assert b[6..9] == PutU24(h.fragOff);
    assert b[9..12] == PutU24(h.fragLen);
    U24Inverse(h.msgLen);
    U16Inverse(h.seqNum);
    U24Inverse(h.fragOff);
    U24Inverse(h.fragLen);
  }

  lemma EncodeParsed(b: seq<byte>)
    requires ParseFragment(b).Some?
    ensures var p := ParseFragment(b).value;
            p.header.Fits() && |p.body| == p.header.fragLen && b == Encode(p.header) + p.body + p.rest
  {
    hide PutU16, PutU24, GetU16, GetU24;
    var p := ParseFragment(b).value;
    PutGetU24(b[1..4]);
    PutGetU16(b[4..6]);
    PutGetU24(b[6..9]);
    PutGetU24(b[9..12]);
    assert Encode(p.header) == b[..1] + b[1..4] + b[4..6] + b[6..9] + b[9..12];
  }

  /** Parsing accepts exactly the encodings: what it returns is the header, the body and the rest that were put
      one after the other, and nothing else is accepted. */
  lemma ParseExact(b: seq<byte>, p: Parsed)
    ensures ParseFragment(b) == Some(p) <==>
            p.header.Fits() && |p.body| == p.header.fragLen && b == Encode(p.header) + p.body + p.rest
  {
    hide ParseFragment, Encode;
    if p.header.Fits() && |p.body| == p.header.fragLen && b == Encode(p.header) + p.body + p.rest {
      ParseEncoded(b, p.header, p.body, p.rest);
    }
    if ParseFragment(b) == Some(p) {
      EncodeParsed(b);
    }
  }
}
