/** `PubRecEncoder.encode`: the fixed four-octet PUBREC. */
module PubRecEncoder {
  import opened Bytes
  import opened Protocol
  import opened CodecUtils

  /** Header 0x50, remaining length 2, the packet identifier's low 16 bits. */
  function Encode(m: MessageIdMessage): (r: seq<Byte>)
    ensures |r| == 4
    ensures r[0] == 0x50 && r[0] / 16 == PUBREC && r[0] % 16 == 0
    ensures DecodeRemainingLength(r[1..]) == Decoded(|r| - 2, 1)
    ensures ReadU16(r[2], r[3]) == m.messageId % 65536
  {
    var rl := EncodeRemainingLength(2);
    assert rl.value == [2];
    [HeaderByte(PUBREC, 0)] + rl.value + U16(m.messageId)
  }
}
