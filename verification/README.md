# Verified models of the protocol code in TalkApp's pods

TalkApp brings two libraries whose correctness does not show on the surface: nanopb, which encodes and decodes
Protocol Buffers, and BoringSSL, which secures the connections that gRPC opens. This project models their core as
Dafny programs and proves what that code is for. `dafny verify dfyconfig.toml` checks the whole project.

**nanopb.** `PbTypes` holds the descriptor tables and the structs they describe, `PbWire` the wire format as functions,
`PbEncode`, `PbDecode` and `PbIter` the streams, the iterator and the encoder and decoder as classes and methods that
work step by step as the C code does, each proved to be exactly the wire format. `PbFormat` ties that format to the plain
numbers of its documentation: keys, wire types, lengths, byte order, ranges. `PbEncodable`, `PbRoundTrip`, `PbAgree` and
`PbEvolution` prove what the format promises: a message comes back, also to a receiver with another version of its
table. `PbArrivals` says what the decoder makes of the bytes of any other sender: fields in any order and more than once,
arrays packed or not, and submessages that come again. `Varint`, `Bytes` and `Bits` hold the arithmetic.

**DTLS.** `DtlsFragment` is a message under reassembly with its bitmask, `DtlsReceive` the ring of seven of them,
`DtlsFlight` and `DtlsSend` the outgoing flight with its packets, positions and record numbers, `ReplayWindow` the
acceptance of records. `DtlsEndToEnd` joins both sides over a network that loses, repeats and reorders.

**TLS.** `TlsFlow` is the order of messages that RFC 5246 prescribes, written down independently of the code;
`Transcript`, `ClientHandshake` and `ServerHandshake` are the two state machines with their 21 states, everything they
may wait for, and the loop that resumes them. `CipherChoice` is the server's choice of a cipher suite, `TlsFraming` the
way of messages into and out of records.

**Reference counts.** `Refcount` has the version with a lock, and the lock-free one as steps of any number of threads.

How the models treat their surroundings: cryptography, callbacks, allocation and the network are nondeterministic
choices, bounded only by what the code relies on (an AEAD adds at most its overhead; a BIO takes some bytes or none). A
MAC is an arbitrary function of the transcript. Where a choice fails, the code's error path is taken, and what failed is
on record (`Transcript.World`), so that a step may fail only for a named reason or for a message that is not awaited.

Points where the code is more particular than its comments, modelled as the code has it:

- The test for fragments too far in the future (`TalkApp/Pods/BoringSSL-GRPC/ssl/d1_both.cc:380-385`) lets the number
  exactly seven ahead through, and the stricter one at lines 267-271 makes it an internal error. Honest fragments of a
  flight never meet it (`DtlsEndToEnd.NeverRefused`).
- `send_flight` takes its position back only after a refused write. After a failed seal the pieces already in the packet
  are passed without having been written; `DtlsFlight.WrittenGather` says exactly when a message then
  lacks bytes or, being empty or a ChangeCipherSpec (`DtlsFlight.CcsLost`), does not go out at all.
- The ciphers of a last group that is left open count for nothing (`CipherChoice.OpenGroupMissed`); lists built by the
  library close their last group.
- An empty descriptor table "finds" tag 0 in its terminator and then fails (`PbIter.FieldIter.Find`).
- The assertion in `dtls1_update_mtu` fails when the limit is unset and the options forbid asking for it
  (`DtlsSend.Sender.UpdateMtu`).
- A proto3 field with a default other than zero does not survive being zero (`PbEvolution.SingularZero` is exact), and a
  field number of 2^29 or more cannot be read back (`PbRoundTrip.TagReadable`).

## Model

| member | source | states |
|---|---|---|
| PbEvolution.Evolution | TalkApp/Pods/nanopb/pb_decode.c:901-1063 | Schema evolution, at any nesting depth: the bytes of any well-formed message of a table S decode under any table R that S's senders may meet (fields removed, fields added, submessages changed likewise) into any struct; all bytes are consumed, every field both tables have holds the same value, entries, has-flag or active union member, every field only R has is at its default, and every field only S has is skipped by exactly the bytes written for it; a proto3 field both tables have has no default but zero in R; for every message that can be encoded and whose submessages and packed arrays each take less than 2^32 bytes, whatever the whole takes |
| PbEvolution.RoundTrip | TalkApp/Pods/nanopb/pb_encode.c:494-516 | Decoding the encoder's bytes with the same table, into a struct with any contents, succeeds, consumes all of them and gives an observably equal message, field by field: has-flags, counts, entries, active union members, nested submessages, strings up to their NUL; for tables whose proto3 fields have no default but zero, which is needed (SingularZero); for every message that can be encoded and whose submessages and packed arrays each take less than 2^32 bytes, whatever the whole takes |
| PbEvolution.MessageBack | TalkApp/Pods/nanopb/pb_decode.c:901-1049 | The same for the decode loop started on a fresh struct: the step of the induction over nested submessages |
| PbEvolution.UnknownBack | TalkApp/Pods/nanopb/pb_decode.c:933-962 | All the bytes a sender writes for a field the receiver does not have, tag by tag and packed or not, are skipped, and leave the message and the required fields seen as they were |
| PbEvolution.KnownBack | TalkApp/Pods/nanopb/pb_decode.c:401-475 | All the bytes a sender writes for a field both tables have leave in the receiver's member what the sender's holds, and nothing else changes |
| PbArrivals.MessageRead | TalkApp/Pods/nanopb/pb_decode.c:1051-1063 | On the bytes of any sender, with the fields other than submessages in any order and more than once, arrays packed, sent one by one or both mixed, and fields the receiver does not know: decoding succeeds if and only if no array gets more than it has room for and every required field among the first 64 came; then an array holds exactly what came for it, in order, any other member the last that came, or its default if nothing did, and a union the member that came last |
| PbArrivals.ItemsRead | TalkApp/Pods/nanopb/pb_decode.c:401-475 | The same from any point of the decode loop, for a struct with any contents, which the arrays keep in front; the required fields seen are those that came |
| PbArrivals.NumbersFill | TalkApp/Pods/nanopb/pb_decode.c:420-460 | The numbers that came for an array, one by one under their own tag or packed, are put behind its entries one after the other, and no other entry changes |
| PbArrivals.ItemsOverflow | TalkApp/Pods/nanopb/pb_decode.c:420-460 | When an array gets more entries than it has room for, by packed runs, single entries or both, decoding fails, whatever else comes |
| PbArrivals.SubmessageRead | TalkApp/Pods/nanopb/pb_decode.c:1463-1485 | A submessage with any contents, in an array, a union or by itself: it is decoded to the end of its bytes, an array entry and a union member from its defaults and any other from what the member holds, so that one that comes again is merged; the outer message goes on behind it, and fails if it does |
| PbArrivals.SubmessageOverflows | TalkApp/Pods/nanopb/pb_decode.c:449-460 | A submessage for an array that is full makes decoding fail |
| PbArrivals.ZeroEnds | TalkApp/Pods/nanopb/pb_decode.c:923-931 | A zero in place of a key ends the message, wherever it comes, and what follows is left |
| PbFormat.TagMeaning | TalkApp/Pods/nanopb/pb_encode.c:635-639 | The number of a key is eight times the field number plus the wire type |
| PbFormat.SingleKey | TalkApp/Pods/nanopb/pb_encode.c:641-672 | What is written for a field with one value is a key whose number is eight times the field number plus 0 for the three varint types, 1 for fixed64, 5 for fixed32 and 2 for the rest, and then the value |
| PbFormat.ArrayKeys | TalkApp/Pods/nanopb/pb_encode.c:126-211 | An array of numbers is one key with wire type 2, the length of the run and the run; one of anything else is entries with a key of wire type 2 each |
| PbFormat.LengthFirst | TalkApp/Pods/nanopb/pb_encode.c:674-730 | Bytes, strings up to their NUL, fixed-length bytes and submessages are written behind their length |
| PbFormat.ZigZagMeaning | TalkApp/Pods/nanopb/pb_encode.c:596-605 | pb_encode_svarint sends 2v for v from zero on, and -2v - 1 below zero |
| PbFormat.FixedMeaning | TalkApp/Pods/nanopb/pb_encode.c:607-632 | Fixed-width numbers are their four or eight bytes, least significant first |
| PbFormat.NumberWritten | TalkApp/Pods/nanopb/pb_encode.c:734-808 | A number of each type is written as the varint of itself, of its 64-bit two's complement or of its zigzag code, or as its four or eight bytes |
| PbFormat.NumberRead | TalkApp/Pods/nanopb/pb_decode.c:1289-1372 | A varint of any sender is read as its number kept to 64 bits, in two's complement, as it is or undone from zigzag, if the member holds it; otherwise, or if it is longer than ten bytes or does not end, decoding fails |
| PbFormat.FixedRead | TalkApp/Pods/nanopb/pb_decode.c:1254-1287 | Four or eight bytes are read, least significant first, exactly when they are there |
| PbFormat.BytesKept | TalkApp/Pods/nanopb/pb_decode.c:1391-1508 | Bytes are kept exactly if they fit behind a four-byte size, a string exactly if it fits with its NUL, the member keeping its bytes after that, and fixed-length bytes exactly if they have that length or none, which gives zeros |
| PbFormat.Sent | TalkApp/Pods/nanopb/pb_encode.c:307-392 | Nothing is written for a field exactly if it is optional without its flag, a proto3 field at zero, an empty array or a member of a union that is not the active one |
| PbFormat.ZeroMeaning | TalkApp/Pods/nanopb/pb_encode.c:215-303 | Zero is the number zero, no bytes, an empty string, a byte array of no length |
| PbFormat.ZeroSubmessage | TalkApp/Pods/nanopb/pb_encode.c:261-281 | A submessage is at zero when it would be written as no bytes, and only then if every union names no member or one of its own |
| PbFormat.SkipMeaning | TalkApp/Pods/nanopb/pb_decode.c:316-326 | Wire type 0 skips a varint, 1 eight bytes, 5 four bytes, and those other than 0, 1, 2 and 5 fail |
| PbFormat.SkipLength | TalkApp/Pods/nanopb/pb_decode.c:316-326 | Wire type 2 skips a length and that many bytes, and fails if they are not there |
| PbEncodable.EncodableExactly | TalkApp/Pods/nanopb/pb_encode.c:126-516 | pb_encode accepts a message exactly when, in what it writes and at every depth, no count exceeds its array, no bytes value its member, and every integer has a supported size |
| PbRoundTrip.ValueSkipped | TalkApp/Pods/nanopb/pb_decode.c:316-326 | For every type of field, pb_skip_field with the field's wire type skips exactly the bytes pb_encode wrote for a value |
| PbRoundTrip.ScalarBack | TalkApp/Pods/nanopb/pb_decode.c:1289-1389 | Every number of a field's C type comes back as itself from the bytes of its encoding, and can be skipped |
| PbRoundTrip.BytesBack | TalkApp/Pods/nanopb/pb_decode.c:1391-1508 | Bytes, strings and fixed-length bytes come back from their encoding: strings as the text before the NUL, and empty fixed-length bytes as zeros |
| PbRoundTrip.TagReadable | TalkApp/Pods/nanopb/pb_encode.c:635-639 | A 32-bit field number survives its own tag exactly when it is below 2^29, because the tag goes through a 32-bit varint |
| PbEvolution.SingularZero | TalkApp/Pods/nanopb/pb_encode.c:215-303 | In a message of any table, a proto3 field of any type that is at zero is not written; with everything else it is decoded into any struct, and it comes back observably the same exactly when its default is absent or zero (of a submessage: those of its proto3 fields) |
| PbEvolution.ZeroIsFresh | TalkApp/Pods/nanopb/pb_encode.c:215-303 | What pb_check_proto3_default_value takes for zero agrees with a member set to its default exactly when that default is zero, at any nesting depth |
| PbAgree.DefaultsAreFresh | TalkApp/Pods/nanopb/pb_decode.c:812-895 | Setting a struct to its defaults leaves every member as if nothing had been decoded into it, at any depth |
| PbTypes.FindUnique | TalkApp/Pods/nanopb/pb_common.c:78-95 | Tags being distinct, a tag names one position of the table |
| PbIter.FieldIter.Next | TalkApp/Pods/nanopb/pb_common.c:20-76 | The iterator moves on by one field, wraps around with false, and its required-field index is the number of required fields before it |
| PbIter.FieldIter.Find | TalkApp/Pods/nanopb/pb_common.c:78-95 | From wherever the iterator stands, one turn around the table finds the field with the tag if there is one, and otherwise comes back to where it was; on an empty table tag 0 is found in the terminator |
| Varint.RoundTrip | TalkApp/Pods/nanopb/pb_encode.c:574-594 | pb_decode_varint reads back every 64-bit value, and leaves the bytes after it |
| Varint.Encode64Length | TalkApp/Pods/nanopb/pb_encode.c:574-594 | A 64-bit value takes one to ten bytes |
| Varint.RoundTrip32 | TalkApp/Pods/nanopb/pb_decode.c:182-242 | pb_decode_varint32 reads back every value below 2^32 |
| Varint.NegativeInt32 | TalkApp/Pods/nanopb/pb_decode.c:182-242 | pb_decode_varint32 reads every negative int32, which is written sign-extended to 64 bits, as its low 32 bits |
| Varint.Decode32Meaning | TalkApp/Pods/nanopb/pb_decode.c:182-242 | Whatever pb_decode_varint32_eof accepts in up to ten bytes is the number written, mod 2^32, and it stops right after it |
| Varint.Decode32Accepts | TalkApp/Pods/nanopb/pb_decode.c:182-242 | Of the varints of up to ten bytes pb_decode_varint32_eof accepts exactly those whose fifth byte, if it is the last, is below 16, and whose bytes from the sixth on have no bits but those of a sign extension of a number with bit 31 |
| Varint.ZigZagInverse | TalkApp/Pods/nanopb/pb_decode.c:1240-1252 | The zigzag code of pb_encode_svarint is undone by pb_decode_svarint for every int64 |
| Varint.FixedInverse | TalkApp/Pods/nanopb/pb_encode.c:607-632 | Little-endian bytes of any width give back the number they were made from |
| PbEncode.OStream.BufWrite | TalkApp/Pods/nanopb/pb_encode.c:72-82 | The bytes land at the position of the stream, which moves on, and no other byte of the memory changes |
| PbEncode.OStream.Write | TalkApp/Pods/nanopb/pb_encode.c:101-119 | The bytes are written exactly if there is room for them; a sizing stream counts them; nothing outside the room of the stream changes |
| PbEncode.OStream.EncodeVarint | TalkApp/Pods/nanopb/pb_encode.c:574-594 | Writes the varint of any 64-bit value, or fails for want of room |
| PbEncode.VarintBytes | TalkApp/Pods/nanopb/pb_encode.c:574-594 | The loop that fills the local buffer leaves the varint in it |
| PbEncode.OStream.EncodeSvarint | TalkApp/Pods/nanopb/pb_encode.c:596-605 | Writes the varint of the zigzag code |
| PbEncode.OStream.EncodeTag | TalkApp/Pods/nanopb/pb_encode.c:635-639 | Writes the tag of a field number and wire type |
| PbEncode.OStream.EncodeString | TalkApp/Pods/nanopb/pb_encode.c:674-680 | Writes length and contents, or fails for want of room |
| PbEncode.EncodeTagForField | TalkApp/Pods/nanopb/pb_encode.c:641-672 | Writes the tag with the wire type of the field's type, which is 0, 1, 2 or 5 as the format has it (PbFormat.SingleKey) |
| PbEncode.EncodeScalarField | TalkApp/Pods/nanopb/pb_encode.c:734-808 | Writes a number of any type and size as the wire format has it, and fails for a size that is not supported |
| PbEncode.StringLength | TalkApp/Pods/nanopb/pb_encode.c:831-855 | Finds the NUL, or the end of the member |
| PbEncode.EncodeFieldValue | TalkApp/Pods/nanopb/pb_encode.c:734-868 | Writes a value of any type as the wire format has it |
| PbEncode.GetEncodedSize | TalkApp/Pods/nanopb/pb_encode.c:533-542 | Succeeds exactly when the message can be encoded, and gives exactly the number of bytes of the encoding |
| PbEncode.EncodeSubmessage | TalkApp/Pods/nanopb/pb_encode.c:682-730 | Counts and writes a submessage at any depth; the second walk always writes what the first one counted, so the failure for a changed size is unreachable |
| PbEncode.EncodeItemsOf | TalkApp/Pods/nanopb/pb_encode.c:126-211 | Writes the entries of an array one after the other, with a tag each unless they are packed |
| PbEncode.EncodeItem | TalkApp/Pods/nanopb/pb_encode.c:174-208 | Writes one entry, with its own tag unless the array is packed, or fails within its room |
| PbEncode.EncodeArray | TalkApp/Pods/nanopb/pb_encode.c:126-211 | Writes an array: nothing when it is empty, one packed run with its length counted beforehand, or entry by entry; fails when the count exceeds the array |
| PbEncode.EncodeBasicField | TalkApp/Pods/nanopb/pb_encode.c:307-392 | Writes a field exactly if it is to be written: by has-flag, proto3 default, count or active union member |
| PbEncode.Encode | TalkApp/Pods/nanopb/pb_encode.c:494-516 | Succeeds exactly when the message can be encoded and the encoding fits into the room of the stream; then the memory holds exactly the encoding, and in any case no byte outside the room has changed; on a sizing stream it counts the encoding |
| PbDecode.IStream.DecodeVarint32Eof | TalkApp/Pods/nanopb/pb_decode.c:182-242 | Reads what the 32-bit varint of the format defines, with the sign-extension bytes of negative numbers, and tells the end of the stream before the first byte from other failures |
| PbDecode.IStream.DecodeVarint | TalkApp/Pods/nanopb/pb_decode.c:250-270 | Reads a varint of up to ten bytes |
| PbDecode.IStream.SkipFieldOf | TalkApp/Pods/nanopb/pb_decode.c:316-326 | Skips exactly one value of a wire type, or fails |
| PbDecode.IStream.ReadTag | TalkApp/Pods/nanopb/pb_decode.c:293-314 | Reads a tag, and treats a zero as the end of the message |
| PbDecode.IStream.MakeSubstream | TalkApp/Pods/nanopb/pb_decode.c:367-380 | Splits off a stream limited to the announced length; the rest stays with the parent |
| PbDecode.IStream.CloseSubstream | TalkApp/Pods/nanopb/pb_decode.c:382-395 | Afterwards the parent goes on behind the substream, whatever was left in it |
| PbDecode.StoreVarint | TalkApp/Pods/nanopb/pb_decode.c:1289-1372 | Stores a number in the member's C type, or fails when it does not fit or the size is not supported |
| PbDecode.DecodeScalarField | TalkApp/Pods/nanopb/pb_decode.c:1289-1389 | Reads a number as the wire format has it |
| PbDecode.DecodeBytesField | TalkApp/Pods/nanopb/pb_decode.c:1391-1508 | Reads bytes, a string or fixed-length bytes; fails when they are too long for the member |
| PbDecode.FieldSetToDefault | TalkApp/Pods/nanopb/pb_decode.c:812-882 | Sets a member to its default; unions keep their contents and arrays only lose their count |
| PbDecode.MessageSetToDefaults | TalkApp/Pods/nanopb/pb_decode.c:884-895 | Sets every member to its default and every union to no member |
| PbDecode.DecodeSubmessage | TalkApp/Pods/nanopb/pb_decode.c:1463-1485 | Reads a submessage from a limited stream; one in an array starts from its defaults, others are merged into |
| PbDecode.DecodePackedField | TalkApp/Pods/nanopb/pb_decode.c:420-447 | Reads a packed run of entries to the end of its length, and fails when the array is full |
| PbDecode.DecodeStaticField | TalkApp/Pods/nanopb/pb_decode.c:401-475 | Stores one arrival of a field: sets the has-flag, appends to the array, also an entry of a packable type that came by itself, or makes it the active union member, a submessage from its defaults; over any series of arrivals, PbArrivals.ItemsRead says what is there in the end |
| PbDecode.RequiredSeen | TalkApp/Pods/nanopb/pb_decode.c:1006-1046 | Succeeds exactly when every required field among the first 64 was seen |
| PbDecode.DecodeNextField | TalkApp/Pods/nanopb/pb_decode.c:919-997 | One turn of the loop: ends on a zero tag or the end of the stream, skips unknown fields, stores known ones, and fails on the tag 0 that an empty table finds in its terminator |
| PbDecode.DecodeNoinit | TalkApp/Pods/nanopb/pb_decode.c:901-1049 | Reads a whole message: succeeds exactly when the format accepts the bytes, with exactly the message the format gives and the bytes it leaves |
| PbDecode.Decode | TalkApp/Pods/nanopb/pb_decode.c:1051-1063 | The same after setting the struct to its defaults |
| DtlsWire.ParseExact | TalkApp/Pods/BoringSSL-GRPC/ssl/d1_both.cc:459-473 | A fragment parses exactly as the header, body and rest that were put one after the other, and nothing else parses |
| DtlsWire.HeaderBytes | TalkApp/Pods/BoringSSL-GRPC/ssl/d1_both.cc:511-523 | The twelve bytes of a header, each number with its most significant byte first |
| DtlsFragment.BitRangeBits | TalkApp/Pods/BoringSSL-GRPC/ssl/d1_both.cc:203-205 | bit_range sets exactly the bits from start to end |
| DtlsFragment.MaskIsUnion | TalkApp/Pods/BoringSSL-GRPC/ssl/d1_both.cc:211-251 | After any sequence of marks, overlapping, empty and in any order, a bit is set exactly when a mark covered its byte, no bit lies at or beyond the message's end, and the mask is released exactly when every byte is covered |
| DtlsFragment.LowBits | TalkApp/Pods/BoringSSL-GRPC/ssl/d1_both.cc:236-246 | A byte of the mask equals bit_range(0, n) exactly when its n lowest bits are all set |
| DtlsFragment.HmFragment.ReleasedIsComplete | TalkApp/Pods/BoringSSL-GRPC/ssl/d1_both.cc:255-259 | The mask is released exactly when every byte has arrived, and then the buffer holds the body |
| DtlsFragment.HmFragment.constructor | TalkApp/Pods/BoringSSL-GRPC/ssl/d1_both.cc:152-199 | A new message has its header in front of the buffer, nothing arrived, and a mask exactly if it has a body |
| DtlsFragment.HmFragment.Mark | TalkApp/Pods/BoringSSL-GRPC/ssl/d1_both.cc:211-251 | The mask becomes the union with the range, and is released if that is the whole message and the range is not empty |
| DtlsFragment.HmFragment.SetBits | TalkApp/Pods/BoringSSL-GRPC/ssl/d1_both.cc:224-234 | The loop over whole bytes and the two ends set exactly the bits of the range |
| DtlsFragment.HmFragment.IsFull | TalkApp/Pods/BoringSSL-GRPC/ssl/d1_both.cc:236-246 | The loop finds out whether every byte of the message is marked |
| DtlsFragment.HmFragment.Store | TalkApp/Pods/BoringSSL-GRPC/ssl/d1_both.cc:399-402 | The message then holds exactly what it held, and the new bytes at their place |
| DtlsReceive.TakenInOrder | TalkApp/Pods/BoringSSL-GRPC/ssl/d1_both.cc:426-438 | In every run of arriving records of any content, in any epochs, with looks and takes in between: the messages taken are complete and numbered without a gap or a repeat, also across the wrap-around of the 16-bit number |
| DtlsReceive.FragmentAnswered | TalkApp/Pods/BoringSSL-GRPC/ssl/d1_both.cc:362-402 | What becomes of a fragment, in every case: one out of its bounds or of a message too long, and in epoch 1 one of another message, is an error; one before the next message or more than seven behind it is ignored; one exactly seven behind it and one that contradicts its message so far are errors; any other is filed unless its message is complete |
| DtlsReceive.RecordKeepsRing | TalkApp/Pods/BoringSSL-GRPC/ssl/d1_both.cc:350-406 | After any record an occupied slot i holds a message with number mod 7 equal to i, from the read number to six beyond it, with bytes only inside the message |
| DtlsReceive.DeliveryKeepsRing | TalkApp/Pods/BoringSSL-GRPC/ssl/d1_both.cc:426-438 | The slot taken holds the message with the read number, and the next read number keeps the invariant, even where it wraps around |
| DtlsReceive.Incoming.GetIncomingMessage | TalkApp/Pods/BoringSSL-GRPC/ssl/d1_both.cc:265-295 | Finds or creates the message of a fragment; the assertion on the number of an occupied slot never fails; refuses numbers outside the window and fragments that contradict earlier ones |
| DtlsReceive.Incoming.AcceptFragment | TalkApp/Pods/BoringSSL-GRPC/ssl/d1_both.cc:362-402 | One turn of the loop: out-of-bounds fragments and, in epoch 1, fragments of another message are errors, old ones and ones more than seven ahead are ignored, one exactly seven ahead is an internal error, others are filed |
| DtlsReceive.Incoming.OpenHandshake | TalkApp/Pods/BoringSSL-GRPC/ssl/d1_both.cc:297-406 | A handshake record is processed fragment by fragment up to the first error; application data and ChangeCipherSpec are sorted out by whether the cipher is null |
| DtlsReceive.Incoming.GetMessage | TalkApp/Pods/BoringSSL-GRPC/ssl/d1_both.cc:408-424 | Gives the message with the read number, body and raw bytes, exactly when every byte of it has arrived |
| DtlsReceive.Incoming.NextMessage | TalkApp/Pods/BoringSSL-GRPC/ssl/d1_both.cc:426-438 | Empties the slot and moves to the next number; the assertion that the message is complete never fails |
| DtlsReceive.Incoming.HasUnprocessedData | TalkApp/Pods/BoringSSL-GRPC/ssl/d1_both.cc:440-457 | True exactly when a ChangeCipherSpec waits or some slot besides the message being looked at is occupied |
| DtlsEndToEnd.NeverRefused | TalkApp/Pods/BoringSSL-GRPC/ssl/d1_both.cc:350-406 | Fragments of a flight, cut, lost, repeated and reordered in any way, are never answered with an alert, if and only if none comes in epoch 1 for a message other than the next |
| DtlsEndToEnd.EndToEnd | TalkApp/Pods/BoringSSL-GRPC/ssl/d1_both.cc:350-438 | For every such run, the handshake gets exactly the messages in front of the first one that did not arrive whole, in order, and the raw bytes it hashes are those that the sender hashed |
| DtlsEndToEnd.AllDelivered | TalkApp/Pods/BoringSSL-GRPC/ssl/d1_both.cc:350-438 | If every byte of every message (and something of every empty one) arrives, the whole flight is delivered |
| DtlsEndToEnd.FlightDelivered | TalkApp/Pods/BoringSSL-GRPC/ssl/d1_both.cc:644-827 | Sender to receiver: when only handshake records come that the sender sealed, in any transmission and cut in any way, and among them, once or more and in any order, all of some transmission that tiles the flight, the receiver takes every message and hashes exactly the bytes the sender hashed, which are the data of the flight's handshake messages |
| DtlsEndToEnd.SendsWhatIsAdded | TalkApp/Pods/BoringSSL-GRPC/ssl/d1_both.cc:525-594 | An outgoing flight is the flight of the end-to-end results exactly when the data of its handshake messages are those messages as built, in order |
| DtlsEndToEnd.RunTracks | TalkApp/Pods/BoringSSL-GRPC/ssl/d1_both.cc:350-438 | At every point of a run each slot holds exactly the bytes that have arrived of its message |
| DtlsEndToEnd.ReadyIffWhole | TalkApp/Pods/BoringSSL-GRPC/ssl/d1_both.cc:255-259 | There is a message to deliver exactly when the next one of the flight arrived whole |
| DtlsEndToEnd.SentIsHonest | TalkApp/Pods/BoringSSL-GRPC/ssl/d1_both.cc:679-733 | Every handshake record the sender seals for a flight carries one piece of one of its messages, so it is one that the receiving side's results are about |
| DtlsFlight.TilesGather | TalkApp/Pods/BoringSSL-GRPC/ssl/d1_both.cc:644-780 | The pieces passed, put together, are the body of every message as far as the position goes, without a gap or an overlap; a message without a body and a ChangeCipherSpec appear once |
| DtlsFlight.TilesCover | TalkApp/Pods/BoringSSL-GRPC/ssl/d1_both.cc:644-780 | Every byte of a message passed is in a piece that was sealed, and an empty message has a piece too |
| DtlsFlight.WrittenGather | TalkApp/Pods/BoringSSL-GRPC/ssl/d1_both.cc:795-816 | The written pieces of a message passed are all of it exactly when no piece of it was sealed into a packet that was not written: its whole body, or, for an empty message and a ChangeCipherSpec, its one appearance |
| DtlsFlight.CcsLost | TalkApp/Pods/BoringSSL-GRPC/ssl/d1_both.cc:644-659 | An unwritten packet with a ChangeCipherSpec: the position is past it and it never goes out |
| DtlsFlight.WholeFlight | TalkApp/Pods/BoringSSL-GRPC/ssl/d1_both.cc:782-827 | A flight that went out to its end with every packet written delivers each body in order and each ChangeCipherSpec once |
| DtlsSend.Sender.PieceFills | TalkApp/Pods/BoringSSL-GRPC/ssl/d1_both.cc:644-733 | A packet takes a piece exactly if there is room for one byte of it behind 13 bytes of record header, 12 of fragment header and what the cipher may add; the piece is the rest of the message or as much as fits |
| DtlsSend.RecordWriter.SealRecord | TalkApp/Pods/BoringSSL-GRPC/ssl/dtls_record.cc:294-351 | A sealed record has the next number of its epoch and at most the overhead on top of its plaintext; no (epoch, number) pair is used twice over any series of seals in both epochs and write-state changes, until a number or the epoch wraps around; sealing fails only when the cipher refuses, the number wraps around, there is no room for the record header or the record would be longer than 16 bits can say |
| DtlsSend.RecordWriter.SetWriteState | TalkApp/Pods/BoringSSL-GRPC/ssl/dtls_method.cc:97-107 | The epoch goes up, the numbers of the old epoch go on where they were for retransmissions, and nothing used before becomes usable again unless the epoch wraps around |
| DtlsSend.Sender.SealNextMessage | TalkApp/Pods/BoringSSL-GRPC/ssl/d1_both.cc:644-734 | Seals the next piece: the rest of the message or as much as fits; no progress exactly when a sealable message finds no room; the position moves by exactly the piece |
| DtlsSend.Sender.SealFragment | TalkApp/Pods/BoringSSL-GRPC/ssl/d1_both.cc:679-733 | The part for handshake messages: the fragment carries the header with offset and length and exactly those bytes of the body |
| DtlsSend.Sender.SealNextPacket | TalkApp/Pods/BoringSSL-GRPC/ssl/d1_both.cc:739-780 | Fills a packet with consecutive pieces; it is never longer than the room given and, when it succeeds, never empty |
| DtlsSend.Sender.UpdateMtu | TalkApp/Pods/BoringSSL-GRPC/ssl/d1_both.cc:615-632 | A limit of 228 or more, or one that may not be asked for, is left as it is; otherwise it becomes the BIO's answer if that is from 228 to 2^30, and 1472 if not; the assertion that the limit is at least the minimum holds afterwards exactly when it did before or the BIO may be asked |
| DtlsSend.Sender.SendPacket | TalkApp/Pods/BoringSSL-GRPC/ssl/d1_both.cc:794-816 | One turn of the loop: a refused write leaves the position where it was before the packet; a failed seal may leave it further on |
| DtlsSend.Sender.SendFlight | TalkApp/Pods/BoringSSL-GRPC/ssl/d1_both.cc:782-827 | Sends the rest of the flight in packets of at most the limit, which is what UpdateMtu says of the limit before, the BIO's answer and the options; unless a seal fails every piece passed is in a written packet; terminates in the messages and bytes left; fails only when the connection is shut down, the cipher or the BIO refuses, a number wraps around, or the limit is too small for a byte of a message |
| DtlsSend.Sender.FlushFlight | TalkApp/Pods/BoringSSL-GRPC/ssl/d1_both.cc:829-834 | Marks the flight complete and sends it, in packets of at most the limit that UpdateMtu gives, failing only for the reasons SendFlight does |
| DtlsSend.Sender.Retransmit | TalkApp/Pods/BoringSSL-GRPC/ssl/d1_both.cc:836-845 | Sends the flight again from its beginning, in packets of at most the limit that UpdateMtu gives, failing only for the reasons SendFlight does |
| DtlsSend.Sender.AddOutgoing | TalkApp/Pods/BoringSSL-GRPC/ssl/d1_both.cc:555-594 | Appends to the flight, or starts a new one after a complete one; what was sent before stays as it was; handshake messages are hashed, a ChangeCipherSpec is not; while all handshake messages of a flight are hashed, the messages hashed end with exactly the flight's |
| DtlsSend.Sender.BuildMessage | TalkApp/Pods/BoringSSL-GRPC/ssl/d1_both.cc:511-537 | The message built, with its length copied into the header, is the one-fragment form that is hashed, and holds the body |
| DtlsSend.Sender.ClearOutgoing | TalkApp/Pods/BoringSSL-GRPC/ssl/d1_both.cc:500-509 | The flight is empty and at its beginning |
| DtlsSend.Sender.NoteReply | TalkApp/Pods/BoringSSL-GRPC/ssl/d1_both.cc:432-437 | A complete flight is marked as answered |
| DtlsSend.Sender.OnHandshakeComplete | TalkApp/Pods/BoringSSL-GRPC/ssl/dtls_method.cc:71-79 | An answered flight is dropped, another one kept for retransmission |
| ReplayWindow.DiscardsExactly | TalkApp/Pods/BoringSSL-GRPC/ssl/dtls_record.cc:140-150 | A number is discarded if and only if it was accepted in this epoch or is 64 or more below the largest |
| ReplayWindow.RecordedStands | TalkApp/Pods/BoringSSL-GRPC/ssl/dtls_record.cc:155-175 | Recording any number keeps bit i of the map standing for the largest number minus i, for every distance the window moves |
| ReplayWindow.RunStands | TalkApp/Pods/BoringSSL-GRPC/ssl/dtls_record.cc:225-259 | Over every run of arriving numbers, some of which do not open: the window stands for the numbers accepted, and none is accepted twice |
| ReplayWindow.FreshAccepted | TalkApp/Pods/BoringSSL-GRPC/ssl/dtls_record.cc:225-259 | A record that opens is accepted exactly when it is new and not too late |
| ReplayWindow.EpochBytes | TalkApp/Pods/BoringSSL-GRPC/ssl/dtls_record.cc:225-226 | The epoch compared is the upper 16 bits of the number recorded |
| ReplayWindow.ToU64Be | TalkApp/Pods/BoringSSL-GRPC/ssl/dtls_record.cc:128-136 | The loop of shifts computes the big-endian number, byte by byte |
| ReplayWindow.ReadHeader | TalkApp/Pods/BoringSSL-GRPC/ssl/dtls_record.cc:192-218 | Accepts exactly the headers of 13 bytes that announce a body that is there and has at most 16704 bytes, with major version 0xFE under the null cipher and the record version otherwise |
| ReplayWindow.ReadState.Record | TalkApp/Pods/BoringSSL-GRPC/ssl/dtls_record.cc:155-175 | Shifts and sets the map as the window's specification does |
| ReplayWindow.ReadState.OpenRecord | TalkApp/Pods/BoringSSL-GRPC/ssl/dtls_record.cc:177-272 | In every case what is returned and how much of the packet is consumed: close_notify, incomplete, an unreadable header, another epoch, a number seen before or 64 or more below the largest, a body that does not open, one longer than 16384 bytes, an alert exactly for type 21, and otherwise acceptance with the type and the plaintext; the window moves exactly in the last two cases |
| ReplayWindow.ReadState.SetReadState | TalkApp/Pods/BoringSSL-GRPC/ssl/dtls_method.cc:81-95 | Refused while data waits; otherwise the window starts empty in the next epoch, and no (epoch, number) accepted before can be accepted again unless the epoch wraps around |
| TlsFlow.FlowCounts | TalkApp/Pods/BoringSSL-GRPC/ssl/handshake_client.cc:1707-1789 | In every flow of messages that follows section 7.3 of RFC 5246, each side's Finished and ChangeCipherSpec is there once from the step on where it should be |
| TlsFlow.FinishedOrder | TalkApp/Pods/BoringSSL-GRPC/ssl/handshake_client.cc:1658-1672 | In a complete flow the client's Finished comes before the server's in a full handshake and after it in a resumed one |
| TlsFlow.SwitchedBefore | TalkApp/Pods/BoringSSL-GRPC/ssl/handshake_client.cc:1457-1512 | In every flow of messages each side's Finished comes after its ChangeCipherSpec |
| TlsFlow.VerifiedBefore | TalkApp/Pods/BoringSSL-GRPC/ssl/handshake_client.cc:871-889 | In every flow of messages a verification, of a certificate or of a signature, comes before either side's Finished |
| TlsFlow.FlagsMean | TalkApp/Pods/BoringSSL-GRPC/ssl/handshake_server.cc:1269-1363 | The phase knows exactly which certificates and which request for one were sent and which verifications were made |
| TlsFlow.CertificateOnRequest | TalkApp/Pods/BoringSSL-GRPC/ssl/handshake_client.cc:1169-1215 | In every flow the client's Certificate is there only if it was requested, and its CertificateVerify only with its Certificate |
| Transcript.Connection.HashMessage | TalkApp/Pods/BoringSSL-GRPC/ssl/handshake.cc:215-222 | The raw bytes of the next message go into the transcript |
| Transcript.Connection.SetReadState | TalkApp/Pods/BoringSSL-GRPC/ssl/tls_method.cc:84-95 | The read cipher is changed only after the peer's ChangeCipherSpec and only with no message left in the inbox |
| Transcript.Connection.NextMessage | TalkApp/Pods/BoringSSL-GRPC/ssl/s3_both.cc:562-583 | Exactly the front message leaves the inbox and exactly its consumption is added to the log; the transcript stays that of the log, and consumed messages and inbox together stay the messages received |
| Transcript.Connection.HashAndParse | TalkApp/Pods/BoringSSL-GRPC/ssl/handshake_client.cc:1145-1167 | The message at the front, if it parses, is hashed, consumed and logged once; if it does not, that is on record as what failed |
| Transcript.Connection.HashAndConsume | TalkApp/Pods/BoringSSL-GRPC/ssl/handshake_server.cc:1058-1267 | The message at the front is hashed, consumed and logged once |
| Transcript.Connection.AddMessage | TalkApp/Pods/BoringSSL-GRPC/ssl/s3_both.cc:184-205 | Exactly one event is added to the log, a message of the kind and body given, and exactly its bytes to the transcript |
| Transcript.Connection.ConsumeAndReset | TalkApp/Pods/BoringSSL-GRPC/ssl/handshake_client.cc:520-525 | HelloVerifyRequest leaves the inbox, its consumption and a reset are added to the log, and the transcript starts again, empty |
| Transcript.Connection.GetFinished | TalkApp/Pods/BoringSSL-GRPC/ssl/handshake.cc:380-429 | A Finished is consumed only when its body is the MAC of the transcript before it; while there is no message nothing happens |
| Transcript.Connection.SendFinished | TalkApp/Pods/BoringSSL-GRPC/ssl/handshake.cc:431-476 | Exactly one Finished is added to the log, with the MAC of the transcript before it |
| Transcript.Connection.VerifyPeerCert | TalkApp/Pods/BoringSSL-GRPC/ssl/handshake.cc:285-360 | A verification is on record exactly when the verifier found the chain good; a chain found bad is on record as what failed, and the verifier may ask to be called again |
| Transcript.Connection.VerifySignature | TalkApp/Pods/BoringSSL-GRPC/ssl/handshake_server.cc:1269-1363 | A signature is on record exactly when it was found good, and otherwise that it was not |
| Transcript.AnswerProceeds | TalkApp/Pods/BoringSSL-GRPC/ssl/handshake.cc:491-609 | An answer that a wait needs lets the handshake go on, and is the only thing taken |
| Transcript.NoAnswerReturns | TalkApp/Pods/BoringSSL-GRPC/ssl/handshake.cc:491-609 | Without an answer the handshake returns early from the waits for early data, and reports that it waits from all others; a wait for a callback is over at the next call |
| ClientHandshake.Client.DoneIsSafe | TalkApp/Pods/BoringSSL-GRPC/ssl/handshake_client.cc:1538-1705 | Every client run of TLS 1.2 or below that ends sent one Finished and verified one, each after its side's one ChangeCipherSpec, own first exactly when not resumed; a full run with a certificate cipher verified the server's certificate; Certificate was sent only on request and CertificateVerify only after Certificate; the transcript is the concatenation of the messages sent and consumed since the last reset, the consumed ones are the front of those received, in order, and each Finished covers the transcript before it; the server's certificate was verified before either Finished, and the Finished consumed arrived after the peer's ChangeCipherSpec |
| ClientHandshake.Client.Converse | TalkApp/Pods/BoringSSL-GRPC/ssl/handshake.cc:491-628 | Liveness over whole runs: with a server that sends, one after the other, messages that are awaited, and answers to every other wait, whatever they are, the handshake comes to its last state, unless something fails that it depends on and that is named, or TLS 1.3 is chosen |
| ClientHandshake.AwaitedFits | TalkApp/Pods/BoringSSL-GRPC/ssl/handshake_client.cc:1707-1789 | The messages awaited continue the flow of section 7.3 of RFC 5246 |
| ClientHandshake.Client.Run | TalkApp/Pods/BoringSSL-GRPC/ssl/handshake.cc:491-628 | Under every series of answers of the record layer and any number of calls: the log only grows; the messages received are those of the answers taken, and are those consumed, in order, and those in the inbox; the transcript is exactly that of the log; the handshake stands where its messages say; whether a session is resumed never changes once decided; it reports the end exactly in the last state and a failure exactly after one; and one awaited message or answer brings it to its end, to a failure that is named, or nearer to its end and ready for the next |
| ClientHandshake.Client.Resolve | TalkApp/Pods/BoringSSL-GRPC/ssl/handshake.cc:496-609 | For each wait and each answer exactly what ssl_run_handshake does: go on, read again, or return and with what, and what it waits for then; the cipher is switched only after the peer's ChangeCipherSpec; the log only grows, and what is received is what the answer brought |
| ClientHandshake.Client.AwaitCcs | TalkApp/Pods/BoringSSL-GRPC/ssl/handshake.cc:502-546 | Only a ChangeCipherSpec ends the wait for one, and exactly it is logged; over DTLS other records are taken meanwhile |
| ClientHandshake.Client.Turn | TalkApp/Pods/BoringSSL-GRPC/ssl/handshake.cc:493-626 | One round of the loop: what Resolve says, and then the state machine; an awaited message or answer is taken and lets it go on; without one it returns with nothing changed but the wait |
| ClientHandshake.Client.ReadMore | TalkApp/Pods/BoringSSL-GRPC/ssl/handshake.cc:505-546 | A wait for a message ends with what the record layer reads, and only then |
| ClientHandshake.Client.Handshake | TalkApp/Pods/BoringSSL-GRPC/ssl/handshake_client.cc:1707-1789 | The loop ends or waits, because every step that goes on lowers a rank whose order depends on resumption; the log only grows and nothing is received; it fails only because something failed that is named or the message was not one awaited |
| ClientHandshake.Client.Do | TalkApp/Pods/BoringSSL-GRPC/ssl/handshake_client.cc:1713-1778 | Every state's step keeps the invariant and moves forward, and one that has to be taken again has left log, transcript and inbox as they were; it fails only because something failed that is named or the message was not one awaited, and it waits for a message only when one is awaited and there is none |
| ClientHandshake.Client.DoStartConnect | TalkApp/Pods/BoringSSL-GRPC/ssl/handshake_client.cc:385-452 | Ends in a flight to flush, with exactly a ClientHello added to the log, or fails; a session may be dropped but not gained; fails only for incompatible versions or want of room |
| ClientHandshake.Client.DoEnterEarlyData | TalkApp/Pods/BoringSSL-GRPC/ssl/handshake_client.cc:454-489 | Over DTLS goes on to HelloVerifyRequest and without early data to ServerHello, nothing added; with early data returns early, with exactly a ChangeCipherSpec added; fails only with early data over TLS, for want of room or without keys |
| ClientHandshake.Client.DoReadHelloVerifyRequest | TalkApp/Pods/BoringSSL-GRPC/ssl/handshake_client.cc:491-533 | Waits exactly without a message; a HelloVerifyRequest adds its consumption, a reset and a ClientHello, which alone makes up the transcript; another message is left alone, nothing added; fails only on a HelloVerifyRequest, one that does not parse or for want of room |
| ClientHandshake.Client.DoReadServerHello | TalkApp/Pods/BoringSSL-GRPC/ssl/handshake_client.cc:535-759 | Waits exactly without a message; TLS 1.3 leaves everything as it is; otherwise exactly ServerHello is consumed, never after early data was offered, and a session is resumed only if one was offered and not in a renegotiation, which decides the next state; fails only on another message, one that does not parse, an incompatible one or early data lost |
| ClientHandshake.Client.DoReadServerCertificate | TalkApp/Pods/BoringSSL-GRPC/ssl/handshake_client.cc:771-819 | Exactly a Certificate is consumed with a certificate cipher, and nothing otherwise; fails only with a certificate cipher, on another message or one that does not parse |
| ClientHandshake.Client.DoReadCertificateStatus | TalkApp/Pods/BoringSSL-GRPC/ssl/handshake_client.cc:821-869 | Exactly CertificateStatus is consumed when expected and next, and nothing otherwise; fails only on an expected CertificateStatus that does not parse |
| ClientHandshake.Client.DoVerifyServerCertificate | TalkApp/Pods/BoringSSL-GRPC/ssl/handshake_client.cc:871-889 | Goes on with exactly the verification on record for a certificate cipher, and nothing otherwise; otherwise waits or fails; fails only with a certificate cipher, on a chain that is not trusted |
| ClientHandshake.Client.DoReadServerKeyExchange | TalkApp/Pods/BoringSSL-GRPC/ssl/handshake_client.cc:891-1071 | Exactly ServerKeyExchange is consumed when next, and nothing otherwise, which the cipher must allow; fails only on one that does not parse, or on another message if the cipher needs it |
| ClientHandshake.Client.DoReadCertificateRequest | TalkApp/Pods/BoringSSL-GRPC/ssl/handshake_client.cc:1073-1143 | Exactly CertificateRequest is consumed when next, only with a certificate cipher, and is remembered; otherwise nothing, and with a certificate cipher ServerHelloDone is next; fails only with a certificate cipher, on a message that is neither or does not parse |
| ClientHandshake.Client.DoReadServerHelloDone | TalkApp/Pods/BoringSSL-GRPC/ssl/handshake_client.cc:1145-1167 | Exactly ServerHelloDone is consumed; fails only on another message or one that does not parse |
| ClientHandshake.Client.DoSendClientCertificate | TalkApp/Pods/BoringSSL-GRPC/ssl/handshake_client.cc:1169-1215 | Exactly Certificate is added when requested, unless there is none in SSL 3.0, and nothing otherwise; without a request it does not wait; fails only on request, when the application denies or for want of room |
| ClientHandshake.Client.DoSendClientKeyExchange | TalkApp/Pods/BoringSSL-GRPC/ssl/handshake_client.cc:1220-1371 | Exactly ClientKeyExchange is added; fails only when the secret cannot be computed or for want of room |
| ClientHandshake.Client.DoSendClientCertificateVerify | TalkApp/Pods/BoringSSL-GRPC/ssl/handshake_client.cc:1373-1455 | Exactly CertificateVerify is added when a certificate was requested and there is one, and nothing otherwise; waits or fails only then, for the signature or for want of room |
| ClientHandshake.Client.DoSendClientFinished | TalkApp/Pods/BoringSSL-GRPC/ssl/handshake_client.cc:1457-1512 | Exactly ChangeCipherSpec, NextProto and ChannelID if negotiated, and Finished are added, in this order, and the flight is to be flushed; waits only for a Channel ID that was negotiated, and fails only when denied, without keys or for want of room |
| ClientHandshake.Client.DoFinishFlight | TalkApp/Pods/BoringSSL-GRPC/ssl/handshake_client.cc:1538-1564 | Goes on to the end when resumed and to the server's ticket otherwise, nothing added; returns early only in a full first handshake over TLS; fails only in a full handshake, when denied |
| ClientHandshake.Client.DoReadSessionTicket | TalkApp/Pods/BoringSSL-GRPC/ssl/handshake_client.cc:1566-1647 | Exactly NewSessionTicket is consumed when expected, and nothing otherwise; then a ChangeCipherSpec is awaited; fails only with a ticket expected, on another message or one that does not parse |
| ClientHandshake.Client.DoProcessChangeCipherSpec | TalkApp/Pods/BoringSSL-GRPC/ssl/handshake_client.cc:1649-1656 | Needs the peer's ChangeCipherSpec; goes on to Finished with nothing added, the read cipher changed, and only with an empty inbox; fails only with a message left or without keys |
| ClientHandshake.Client.DoReadServerFinished | TalkApp/Pods/BoringSSL-GRPC/ssl/handshake_client.cc:1658-1672 | Exactly Finished is consumed, whose body is the server's MAC of the transcript before; resumption decides the next state; fails only on another message or a MAC that differs |
| ClientHandshake.Client.DoFinishClientHandshake | TalkApp/Pods/BoringSSL-GRPC/ssl/handshake_client.cc:1674-1705 | Ends in the last state with nothing added; fails only in a full handshake, for want of room |
| ServerHandshake.Server.DoneIsSafe | TalkApp/Pods/BoringSSL-GRPC/ssl/handshake_server.cc:1439-1537 | Every server run of TLS 1.2 or below that ends sent one Finished and verified one, each after its side's one ChangeCipherSpec, the client's first exactly when not resumed; if the client sent a certificate, it was verified and so was the signature of its CertificateVerify; Certificate was consumed only on request and CertificateVerify only after Certificate; the transcript is exact, the messages consumed are the front of those received, in order, and each Finished covers the transcript before it; verifications came before either Finished, and the Finished consumed arrived after the peer's ChangeCipherSpec |
| ServerHandshake.Server.Converse | TalkApp/Pods/BoringSSL-GRPC/ssl/handshake.cc:491-628 | Liveness over whole runs: with a client that sends, one after the other, messages that are awaited, and answers to every other wait, whatever they are, the handshake comes to its last state, unless something fails that it depends on and that is named, or TLS 1.3 is chosen |
| ServerHandshake.AwaitedFits | TalkApp/Pods/BoringSSL-GRPC/ssl/handshake_server.cc:1539-1621 | The messages awaited continue the flow of section 7.3 of RFC 5246 |
| ServerHandshake.Server.Run | TalkApp/Pods/BoringSSL-GRPC/ssl/handshake.cc:491-628 | The driver on the server's machine: under every series of answers and any number of calls, the log only grows; the messages received are those of the answers taken, and are those consumed, in order, and those in the inbox; the transcript is exactly that of the log; resumption never changes once decided; it reports the end exactly in the last state and a failure exactly after one; and one awaited message or answer brings it to its end, to a failure that is named, or nearer to its end and ready for the next |
| ServerHandshake.Server.Resolve | TalkApp/Pods/BoringSSL-GRPC/ssl/handshake.cc:496-609 | For each wait and each answer exactly what ssl_run_handshake does: go on, read again, or return and with what, and what it waits for then; the cipher is switched only after the peer's ChangeCipherSpec; the log only grows, and what is received is what the answer brought |
| ServerHandshake.Server.AwaitCcs | TalkApp/Pods/BoringSSL-GRPC/ssl/handshake.cc:502-546 | Only a ChangeCipherSpec ends the wait for one, and exactly it is logged; over DTLS other records are taken meanwhile |
| ServerHandshake.Server.Turn | TalkApp/Pods/BoringSSL-GRPC/ssl/handshake.cc:493-626 | One round of the loop: what Resolve says, and then the state machine; an awaited message or answer is taken and lets it go on; without one it returns with nothing changed but the wait |
| ServerHandshake.Server.ReadMore | TalkApp/Pods/BoringSSL-GRPC/ssl/handshake.cc:505-546 | A wait for a message ends with what the record layer reads, and only then |
| ServerHandshake.Server.Handshake | TalkApp/Pods/BoringSSL-GRPC/ssl/handshake_server.cc:1539-1621 | The loop ends or waits, because every step that goes on lowers a rank whose order depends on resumption; the log only grows and nothing is received; it fails only because something failed that is named or the message was not one awaited |
| ServerHandshake.Server.Do | TalkApp/Pods/BoringSSL-GRPC/ssl/handshake_server.cc:1545-1610 | Every state's step keeps the invariant and moves forward, and one that has to be taken again has left log, transcript and inbox as they were; it fails only because something failed that is named or the message was not one awaited, and it waits for a message only when one is awaited and there is none |
| ServerHandshake.Server.DoStartAccept | TalkApp/Pods/BoringSSL-GRPC/ssl/handshake_server.cc:426-430 | Goes on with nothing added or consumed |
| ServerHandshake.Server.DoReadClientHello | TalkApp/Pods/BoringSSL-GRPC/ssl/handshake_server.cc:432-510 | Waits for a message exactly without one; goes on only on a ClientHello, which stays in the inbox, unhashed, and is remembered; fails only on another message or an incompatible one |
| ServerHandshake.Server.DoSelectCertificate | TalkApp/Pods/BoringSSL-GRPC/ssl/handshake_server.cc:512-560 | The ClientHello that was parsed is still in front; goes on to the parameters, or out to TLS 1.3, with nothing added or consumed; fails only when denied or incompatible |
| ServerHandshake.Server.DoSelectParameters | TalkApp/Pods/BoringSSL-GRPC/ssl/handshake_server.cc:572-684 | The ClientHello that was parsed is still in front, and exactly it is consumed, once, the pauses having left nothing behind; a client certificate is requested only with a certificate cipher; fails only without a session or for incompatible parameters |
| ServerHandshake.Server.DoSendServerHello | TalkApp/Pods/BoringSSL-GRPC/ssl/handshake_server.cc:686-752 | Exactly ServerHello is added; resumption decides the next state; fails only for want of room |
| ServerHandshake.Server.DoSendServerCertificate | TalkApp/Pods/BoringSSL-GRPC/ssl/handshake_server.cc:754-840 | With a certificate cipher exactly Certificate, and CertificateStatus if wanted, are added, and nothing otherwise; fails only when the parameters cannot be computed or, with a certificate cipher, without a certificate or for want of room |
| ServerHandshake.Server.DoSendServerKeyExchange | TalkApp/Pods/BoringSSL-GRPC/ssl/handshake_server.cc:842-912 | Exactly ServerKeyExchange is added if there are parameters, and nothing otherwise; it waits for a signature only with a certificate cipher; waits or fails only with parameters, for the signature or for want of room |
| ServerHandshake.Server.DoSendServerHelloDone | TalkApp/Pods/BoringSSL-GRPC/ssl/handshake_server.cc:914-947 | Exactly CertificateRequest, if wanted, and ServerHelloDone are added, and the flight is to be flushed; fails only for want of room |
| ServerHandshake.Server.DoReadClientCertificate | TalkApp/Pods/BoringSSL-GRPC/ssl/handshake_server.cc:949-1040 | Exactly Certificate is consumed if requested and next, and nothing otherwise, which with a request is allowed only in SSL 3.0 before ClientKeyExchange; a client key comes only with a Certificate; does not fail or wait without a request; with one fails only on a Certificate that does not parse or is empty where it may not be, or on another message that may not come |
| ServerHandshake.Server.DoVerifyClientCertificate | TalkApp/Pods/BoringSSL-GRPC/ssl/handshake_server.cc:1042-1056 | With a client key goes on with exactly the verification on record, and with nothing otherwise; otherwise waits or fails; fails only on a chain that is not trusted |
| ServerHandshake.Server.DoReadClientKeyExchange | TalkApp/Pods/BoringSSL-GRPC/ssl/handshake_server.cc:1058-1267 | Waits for a message exactly without one; exactly ClientKeyExchange is consumed; fails only on another message or when the secret cannot be computed |
| ServerHandshake.Server.DoReadClientCertificateVerify | TalkApp/Pods/BoringSSL-GRPC/ssl/handshake_server.cc:1269-1363 | With a client key exactly the good signature and then the consumption of CertificateVerify are added, and nothing otherwise; does not fail or wait without a client key; with one fails only on another message or a bad signature |
| ServerHandshake.Server.DoAwaitChangeCipherSpec | TalkApp/Pods/BoringSSL-GRPC/ssl/handshake_server.cc:1365-1368 | Awaits a ChangeCipherSpec with nothing added |
| ServerHandshake.Server.DoProcessChangeCipherSpec | TalkApp/Pods/BoringSSL-GRPC/ssl/handshake_server.cc:1370-1377 | Needs the client's ChangeCipherSpec; goes on with nothing added, the read cipher changed, and only with an empty inbox; fails only with a message left or without keys |
| ServerHandshake.Server.DoReadNextProto | TalkApp/Pods/BoringSSL-GRPC/ssl/handshake_server.cc:1379-1413 | Exactly NextProto is consumed if negotiated, and nothing otherwise; does not fail or wait if not negotiated; otherwise fails only on another message or one that does not parse |
| ServerHandshake.Server.DoReadChannelId | TalkApp/Pods/BoringSSL-GRPC/ssl/handshake_server.cc:1415-1437 | Exactly ChannelID is consumed if negotiated, and nothing otherwise; does not fail or wait if not negotiated; otherwise fails only on another message or a bad signature |
| ServerHandshake.Server.DoReadClientFinished | TalkApp/Pods/BoringSSL-GRPC/ssl/handshake_server.cc:1439-1461 | Exactly Finished is consumed, whose body is the client's MAC of the transcript before; resumption decides the next state; fails only on another message, a MAC that differs, or a Channel ID that is denied |
| ServerHandshake.Server.DoSendServerFinished | TalkApp/Pods/BoringSSL-GRPC/ssl/handshake_server.cc:1463-1509 | Exactly NewSessionTicket, if expected, ChangeCipherSpec and Finished are added, in this order; resumption decides the next state, and the flight is to be flushed; fails only for want of room or without keys |
| ServerHandshake.Server.DoFinishServerHandshake | TalkApp/Pods/BoringSSL-GRPC/ssl/handshake_server.cc:1511-1537 | Ends in the last state with nothing added |
| CipherChoice.Choose | TalkApp/Pods/BoringSSL-GRPC/ssl/handshake_server.cc:357-424 | With the server's priority: the acceptable shared cipher in the earliest group of the server's list and, within it, earliest in the client's; with the client's priority: the earliest in the client's list; nothing exactly when there is no candidate |
| CipherChoice.ChooseFrom | TalkApp/Pods/BoringSSL-GRPC/ssl/handshake_server.cc:381-423 | The one pass over the list with the smallest index of the open group finds the best candidate for every list and every flags |
| CipherChoice.Find | TalkApp/Pods/BoringSSL-GRPC/ssl/handshake_server.cc:401-401 | Finds the first place of a cipher |
| CipherChoice.ChoiceUnique | TalkApp/Pods/BoringSSL-GRPC/ssl/handshake_server.cc:357-424 | The specification allows one answer at most |
| CipherChoice.AllAreCandidates | TalkApp/Pods/BoringSSL-GRPC/ssl/internal.h:1860-1893 | Where the last group is closed, as the format of the list demands, there is a choice exactly when some cipher is shared and acceptable, and it is one |
| CipherChoice.WithoutGroups | TalkApp/Pods/BoringSSL-GRPC/ssl/handshake_server.cc:378-379 | Without groups the choice is the first shared and acceptable cipher of the list with priority |
| CipherChoice.OpenGroupMissed | TalkApp/Pods/BoringSSL-GRPC/ssl/handshake_server.cc:416-423 | For every list and every flags: the choice is that from the list without a last group left open, and no cipher of such a group is a candidate |
| TlsFraming.FramingUnique | TalkApp/Pods/BoringSSL-GRPC/ssl/s3_both.cc:399-425 | A stream has one framing into (type, 24-bit length, body) messages and a rest |
| TlsFraming.HandshakeBuffer.TakesTheFraming | TalkApp/Pods/BoringSSL-GRPC/ssl/s3_both.cc:427-439 | However the stream was cut into records, and whenever messages were looked at and consumed in between: the messages consumed are the front of the one framing, and all of it once the buffer holds no whole message |
| TlsFraming.HandshakeBuffer.TakesTheFlight | TalkApp/Pods/BoringSSL-GRPC/ssl/s3_both.cc:184-205 | From one side to the other: while the bytes received are the front of the stream that carries a flight, the messages taken are the first of the flight, with its types and bodies, and they are all of it at the end |
| TlsFraming.HandshakeBuffer.Append | TalkApp/Pods/BoringSSL-GRPC/ssl/s3_both.cc:553-560 | A record is refused exactly when a whole message waits or the next is too long; otherwise its bytes are appended |
| TlsFraming.HandshakeBuffer.GetMessage | TalkApp/Pods/BoringSSL-GRPC/ssl/s3_both.cc:427-439 | Gives the message at the front, or how many bytes are needed |
| TlsFraming.HandshakeBuffer.NextMessage | TalkApp/Pods/BoringSSL-GRPC/ssl/s3_both.cc:562-583 | Takes exactly the front message off |
| TlsFraming.HandshakeBuffer.HasUnprocessed | TalkApp/Pods/BoringSSL-GRPC/ssl/s3_both.cc:461-472 | True exactly when there is something besides the message being looked at |
| TlsFraming.CutsCarryMessages | TalkApp/Pods/BoringSSL-GRPC/ssl/s3_both.cc:184-205 | The records of any messages, put together, are a stream whose framing is those messages |
| TlsFraming.FlightCarried | TalkApp/Pods/BoringSSL-GRPC/ssl/s3_both.cc:167-205 | The messages built for a flight are the one framing of the stream of their records, and each parses to the type and body it was built from |
| TlsFraming.BuildMessage | TalkApp/Pods/BoringSSL-GRPC/ssl/s3_both.cc:167-182 | A body that fits in 24 bits is built into its type, its length with the most significant byte first, and itself, which parses back to its type and body; a longer one is refused |
| TlsFraming.FlightBuffer.AddMessage | TalkApp/Pods/BoringSSL-GRPC/ssl/s3_both.cc:184-205 | The records of a message put together are the message; all but the last have the greatest length, and an empty message makes one empty record; it is hashed once |
| TlsFraming.FlightBuffer.AddRecord | TalkApp/Pods/BoringSSL-GRPC/ssl/s3_both.cc:135-165 | A sealed record goes behind the others; it fails only when it cannot be sealed or stored |
| TlsFraming.FlightBuffer.FlushFlight | TalkApp/Pods/BoringSSL-GRPC/ssl/s3_both.cc:231-279 | Over any series of partial and refused writes the bytes written are those queued, in order, each once; it fails only when the connection is shut down or the BIO refuses |
| Refcount.Linearizable | TalkApp/Pods/BoringSSL-GRPC/crypto/refcount_c11.c:37-65 | Under every interleaving, with exchanges failing without a reason: the operations take effect one after the other as on the atomic counter, each thread gets its own results in its order, and an operation that returned before another was called takes effect before it |
| Refcount.EffectInside | TalkApp/Pods/BoringSSL-GRPC/crypto/refcount_c11.c:37-65 | An operation takes effect between its load and its return: what has returned to a thread is in the log, and when it loads for its next operation nothing of that one is |
| Refcount.CountLaw | TalkApp/Pods/BoringSSL-GRPC/crypto/internal.h:402-416 | An unsaturated count, below 2^32 - 1, is the initial one plus the increments minus the decrements that did not crash |
| Refcount.Saturated | TalkApp/Pods/BoringSSL-GRPC/crypto/internal.h:402-416 | Once at its maximum of 2^32 - 1 the count never changes and no decrement reports zero |
| Refcount.OneReportsZero | TalkApp/Pods/BoringSSL-GRPC/crypto/internal.h:408-416 | While no reference is taken to a count of zero and nobody crashes, exactly one decrement reports zero if the count has drained, and none before |
| Refcount.RunCounts | TalkApp/Pods/BoringSSL-GRPC/crypto/refcount_c11.c:37-65 | The two laws, for the count after every run of the lock-free version |
| Refcount.LockedCount.Increment | TalkApp/Pods/BoringSSL-GRPC/crypto/refcount_lock.c:29-35 | The version with a lock is the atomic counter's increment |
| Refcount.LockedCount.DecrementAndTestZero | TalkApp/Pods/BoringSSL-GRPC/crypto/refcount_lock.c:37-51 | The version with a lock is the atomic counter's decrement, with its answer |

## Left out

nanopb

- Callback fields, extensions, pointer fields and their release, fixed-count repeated fields, custom streams and the
  build without 64-bit integers.
- Struct offsets and the packing macros: a member is found by the index of its descriptor. The members of a union are
  kept one by one, and only the active one is observable.
- PbEncode.Encode: sizes are assumed to fit a `size_t`; a message whose encoding would overflow it is not modelled.
- Varint.Decode32Meaning: encodings of more than ten bytes, where the 8-bit bit position of the code wraps around, are
  read as the code reads them but nothing is claimed about their value.
- PbArrivals.ItemsRead: submessages are not among these fields; what one arrival of a submessage does, in any state of
  the message, is PbArrivals.SubmessageRead.
- PbDecode.IStream.Read: the caller's input buffer is an immutable sequence, as the decoder only reads it.
- PbDecode.RequiredSeen: the two words of the seen flags are 64 booleans.
- `pb_encode_delimited`, `pb_encode_nullterminated` and their counterparts, which only wrap what is modelled.

DTLS

- The timer, the message callbacks, and the wrappers around opening a ChangeCipherSpec and application data.
- DtlsSend.RecordWriter.SealRecord: the bytes of the sealed record are not modelled, only its number, plaintext and
  size; the test that input and output do not overlap holds at both calls and is omitted.
- DtlsSend.Sender.AddOutgoing: a failure of the transcript's hash is not modelled.
- DtlsReceive.Incoming.OpenHandshake: works on a record that the record layer has accepted; acceptance is
  `ReplayWindow.ReadState.OpenRecord`.
- DtlsEndToEnd.EndToEnd: one flight within one epoch, from an empty ring.

TLS

- TLS 1.3 is one opaque state: after it nothing is claimed about the transcript.
- ClientHandshake.Client.DoReadServerHello: parsing, version and cipher checks and the extensions are choices; their
  results are kept where a later step depends on them. So for the parsing in every other step of both machines.
- ClientHandshake.Client.Converse: a callback may ask to be called again any number of times, but not for ever. So for
  `ServerHandshake.Server.Converse`.
- ServerHandshake.Server.Run: the driver stands in both classes, since the C code reaches the two machines through a
  function pointer.
- ClientHandshake.Client.Run: runs on a list of answers, so that it ends when nothing more arrives; the C loop reads on.
- Handoff and handback, V2ClientHello, SRTP, custom extensions, and the release of the buffered transcript, which does
  not change what is hashed.
- TlsFraming.FlightBuffer.AddRecord: the bytes a record is sealed to are a choice.

Reference counts

- Refcount.Linearizable: the lock-free version is given by its steps and not as a method with a loop, because a thread
  that always loses the exchange does not terminate.
