/** Message-level vocabulary shared by the encoders and decoders: control packet
    type codes (section 2.2.1 of MQTT 3.1.1), QoS levels, and the plain data holders
    the codec reads from and fills in. */
module Protocol {
  import opened Bytes

  /** Control packet types, the high nibble of the fixed header's first byte. */
  const CONNECT: Byte := 1
  const CONNACK: Byte := 2
  const PUBLISH: Byte := 3
  const PUBACK: Byte := 4
  const PUBREC: Byte := 5
  const PUBREL: Byte := 6
  const PUBCOMP: Byte := 7
  const SUBSCRIBE: Byte := 8
  const SUBACK: Byte := 9
  const UNSUBSCRIBE: Byte := 10
  const UNSUBACK: Byte := 11
  const PINGREQ: Byte := 12
  const PINGRESP: Byte := 13
  const DISCONNECT: Byte := 14

  /** CONNACK return codes. */
  const CONNECTION_ACCEPTED: JavaByte := 0x00
  const UNACCEPTABLE_PROTOCOL_VERSION: JavaByte := 0x01
  const IDENTIFIER_REJECTED: JavaByte := 0x02
  const SERVER_UNAVAILABLE: JavaByte := 0x03
  const BAD_USERNAME_OR_PASSWORD: JavaByte := 0x04
  const NOT_AUTHORIZED: JavaByte := 0x05

  /** Quality-of-service level of a message or a subscription. */
  datatype QosType = MostOne | LeastOne | ExactlyOnce {
    function Value(): nat
    {
      match this
      case MostOne => 0
      case LeastOne => 1
      case ExactlyOnce => 2
    }
  }

  /** CONNACK: the session-present indicator and the return code. */
  datatype ConnAckMessage = ConnAckMessage(sessionPresent: bool, returnCode: JavaByte)

  /** A message that carries only a packet identifier besides the common header
      attributes (PUBREC, UNSUBACK). */
  datatype MessageIdMessage = MessageIdMessage(dupFlag: bool, qos: QosType, retainFlag: bool, messageId: int)
}
