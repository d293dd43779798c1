/** `UnsubAckEncoder.encode`: the fixed four-octet UNSUBACK. */
module UnsubAckEncoder {
  import opened Bytes
  import opened Protocol
  import opened CodecUtils

  /** Header 0xB0, remaining length 2, the packet identifier's low 16 bits. */
  function Encode(m: MessageIdMessage): (r: seq<Byte>)
    ensures |r| == 4
    ensures r[0] == 0xB0 && r[0] / 16 == UNSUBACK && r[0] % 16 == 0
    ensures DecodeRemainingLength(r[1..]) == Decoded(|r| - 2, 1)
    ensures ReadU16(r[2], r[3]) == m.messageId % 65536
  {
    var rl := EncodeRemainingLength(2);
    assert rl.value == [2];
    [HeaderByte(UNSUBACK, 0)] + rl.value + U16(m.messageId)
  }

  /** The octets depend on the packet identifier alone, not on DUP, QoS or RETAIN. */
  lemma OnlyMessageIdMatters(m1: MessageIdMessage, m2: MessageIdMessage)
    requires m1.messageId % 65536 == m2.messageId % 65536
    ensures Encode(m1) == Encode(m2)
  {
    var a, b := Encode(m1), Encode(m2);
    assert a[2] == ReadU16(a[2], a[3]) / 256 == ReadU16(b[2], b[3]) / 256 == b[2];
  }
}
