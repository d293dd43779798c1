/** `ConnAckDecoder.decode`. The common-header check of the decoder's base class is
    not part of this model; it is a parameter that, given the buffer (read from the
    marked reader index) and the expected flag nibble, either rejects or says how
    many octets the fixed header took. */
module ConnAckDecoder {
  import opened Bytes
  import opened Results
  import opened Protocol
  import ConnAckEncoder

  /** The common-header check: `Some(k)` when the header was accepted and took `k` octets. */
  type CommonHeaderCheck = (seq<Byte>, Byte) -> Option<nat>

  /** What one call to `decode` leaves behind. */
  datatype DecodeStep =
    | NoMessage(readerIndex: nat)                      // nothing emitted
    | Emitted(msg: ConnAckMessage, readerIndex: nat)   // one message emitted
    | IndexOutOfBounds                                 // `skipBytes`/`readByte` ran past the end

  /** Reset to the mark, check the header with flags 0x00, skip the reserved octet,
      read the return code. */
  function Decode(input: seq<Byte>, commonHeader: CommonHeaderCheck): (r: DecodeStep)
    ensures commonHeader(input, 0x00).None? <==> r == NoMessage(0)
    ensures r.Emitted? ==>
              && commonHeader(input, 0x00).Some?
              && r.readerIndex == commonHeader(input, 0x00).value + 2 <= |input|
              && r.msg.returnCode == ToJavaByte(input[r.readerIndex - 1])
              && !r.msg.sessionPresent
    ensures r.IndexOutOfBounds? <==>
      commonHeader(input, 0x00).Some? && commonHeader(input, 0x00).value + 2 > |input|
    ensures commonHeader(input, 0x00).Some? && commonHeader(input, 0x00).value + 2 <= |input| ==> r.Emitted?
  {
    match commonHeader(input, 0x00)
    case None => NoMessage(0)
    case Some(k) =>
      if k + 2 > |input| then IndexOutOfBounds
      else Emitted(ConnAckMessage(false, ToJavaByte(input[k + 1])), k + 2)
  }

  /** Decoding what the encoder wrote recovers the return code; the session-present
      octet is skipped, so the decoded message always says no session is present. */
  lemma DecodeEncoded(m: ConnAckMessage, commonHeader: CommonHeaderCheck)
    requires commonHeader(ConnAckEncoder.Encode(m), 0x00) == Some(2)
    ensures Decode(ConnAckEncoder.Encode(m), commonHeader)
         == Emitted(ConnAckMessage(false, m.returnCode), 4)
  {
  }
}
