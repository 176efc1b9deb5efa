/** What both record layers share: the content types of records and the length of the DTLS record header. */
module RecordTypes {
  import opened Bytes

  const CHANGE_CIPHER_SPEC: byte := 20
  const ALERT: byte := 21
  const HANDSHAKE: byte := 22
  const APPLICATION_DATA: byte := 23

  /** The one byte of a ChangeCipherSpec. */
  const CCS: byte := 1

  const DTLS_RECORD_HEADER_LENGTH: nat := 13
}
