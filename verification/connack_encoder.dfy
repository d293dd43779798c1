/** `ConnAckEncoder.encode`: the fixed four-octet CONNACK of sections 3.2.2.2-3.2.2.3
    of MQTT 3.1.1. */
module ConnAckEncoder {
  import opened Bytes
  import opened Protocol
  import opened CodecUtils

  /** Header, remaining length 2, the session-present octet, the return code. */
  function Encode(m: ConnAckMessage): (r: seq<Byte>)
    ensures |r| == 4
    ensures r[0] == 0x20 && r[0] / 16 == CONNACK && r[0] % 16 == 0
    ensures DecodeRemainingLength(r[1..]) == Decoded(|r| - 2, 1)
    ensures r[2] == (if m.sessionPresent then 0x01 else 0x00)
    ensures ToJavaByte(r[3]) == m.returnCode
  {
    var rl := EncodeRemainingLength(2);
    assert rl.value == [2];
    [HeaderByte(CONNACK, 0)] + rl.value + [if m.sessionPresent then 0x01 else 0x00] + [LowByte(m.returnCode)]
  }
}
