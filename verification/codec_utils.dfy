/** The wire helpers every encoder relies on: the remaining-length field
    (section 2.2.3 of MQTT 3.1.1), length-prefixed strings (section 1.5.3) and the
    fixed-header flag nibble (section 2.2.2). Each decoding function here is the
    partner its encoder is proved against. */
module CodecUtils {
  import opened Bytes
  import opened Results
  import opened Protocol

  /** Why an encoder throws instead of writing. */
  datatype EncodeError =
    | EmptyTopicList        // SUBSCRIBE / UNSUBSCRIBE without any topic filter
    | UnexpectedQos(qos: QosType)  // SUBSCRIBE / UNSUBSCRIBE whose header QoS is not 1
    | LengthOutOfRange(length: int) // remaining length outside 0..268,435,455
    | NullField             // a mandatory field is null (NullPointerException)

  /** The greatest value a four-byte remaining-length field can carry. */
  const MaxRemainingLength: nat := 268_435_455

  /** 128 raised to `k`. */
  function Pow128(k: nat): (r: nat)
    ensures r >= 1
  {
    if k == 0 then 1 else 128 * Pow128(k - 1)
  }

  /** Seven bits per octet, least significant group first, bit 7 set on every
      octet but the last. */
  function Varint(n: nat): (r: seq<Byte>)
    ensures |r| >= 1
    ensures r[|r| - 1] < 128
    ensures forall i :: 0 <= i < |r| - 1 ==> r[i] >= 128
    decreases n
  {
    if n < 128 then [n] else [n % 128 + 128] + Varint(n / 128)
  }

  /** The number of octets the remaining-length field takes for `n`, as tabulated
      in section 2.2.3 of MQTT 3.1.1. */
  function RemainingLengthSize(n: nat): nat
  {
    if n < 128 then 1
    else if n < 16_384 then 2
    else if n < 2_097_152 then 3
    else 4
  }

  /** The encoding uses exactly as many octets as the table says. */
  lemma {:induction false} VarintSize(n: nat)
    requires n <= MaxRemainingLength
    ensures |Varint(n)| == RemainingLengthSize(n)
  {
    if n >= 128 {
      VarintSize(n / 128);
    }
  }

  /** `CodecUtils.encodeRemainingLength`: fails for values a four-octet field cannot carry. */
  function EncodeRemainingLength(n: int): (r: Result<seq<Byte>, EncodeError>)
    ensures r.Ok? <==> 0 <= n <= MaxRemainingLength
    ensures r.Ok? ==> 1 <= |r.value| <= 4
    ensures r.Err? ==> r.error == LengthOutOfRange(n)
  {
    if n < 0 || n > MaxRemainingLength then Err(LengthOutOfRange(n))
    else
      VarintSize(n);
      Ok(Varint(n))
  }

  /** What reading a remaining-length field yields. */
  datatype LengthRead =
    | Decoded(value: nat, size: nat)  // the value and the number of octets it took
    | InsufficientData                // the input ends inside the field
    | MalformedLength                 // a fifth octet would be needed

  /** Reads a remaining-length field, allowing at most `budget` octets. */
  function DecodeVarint(bs: seq<Byte>, budget: nat): (r: LengthRead)
    ensures r.Decoded? ==> 1 <= r.size <= budget && r.size <= |bs|
    ensures r.Decoded? ==> r.value < Pow128(r.size)
    ensures r.InsufficientData? ==> |bs| < budget
    decreases budget
  {
    if budget == 0 then MalformedLength
    else if |bs| == 0 then InsufficientData
    else if bs[0] < 128 then Decoded(bs[0], 1)
    else
      match DecodeVarint(bs[1..], budget - 1)
      case Decoded(v, k) => Decoded(bs[0] - 128 + 128 * v, k + 1)
      case other => other
  }

  /** The decoder of the remaining-length field: at most four octets. */
  function DecodeRemainingLength(bs: seq<Byte>): (r: LengthRead)
    ensures r.Decoded? ==> r.value <= MaxRemainingLength && 1 <= r.size <= 4
  {
    var r := DecodeVarint(bs, 4);
    assert Pow128(4) == MaxRemainingLength + 1;
    r
  }

  /** The encoding of `n` read back within a budget at least its size gives `n`,
      whatever follows it. */
  lemma {:induction false} VarintRoundTrip(n: nat, rest: seq<Byte>, budget: nat)
    requires |Varint(n)| <= budget
    ensures DecodeVarint(Varint(n) + rest, budget) == Decoded(n, |Varint(n)|)
    decreases n
  {
    var bs := Varint(n) + rest;
    if n >= 128 {
      VarintRoundTrip(n / 128, rest, budget - 1);
      assert bs[1..] == Varint(n / 128) + rest;
    }
  }

  /** Round trip of the remaining-length field. */
  lemma RemainingLengthRoundTrip(n: nat, rest: seq<Byte>)
    requires n <= MaxRemainingLength
    ensures EncodeRemainingLength(n).Ok?
    ensures DecodeRemainingLength(EncodeRemainingLength(n).value + rest)
         == Decoded(n, |EncodeRemainingLength(n).value|)
  {
    VarintSize(n);
    VarintRoundTrip(n, rest, 4);
  }

  /** In a frame made of a header octet, the remaining length of a body and the
      body, the remaining length read after the header counts the octets after it. */
  lemma FramedRemainingLength(h: Byte, body: seq<Byte>)
    requires |body| <= MaxRemainingLength
    ensures EncodeRemainingLength(|body|).Ok?
    ensures var bs := [h] + EncodeRemainingLength(|body|).value + body;
            var d := DecodeRemainingLength(bs[1..]);
            d.Decoded? && d.value == |bs| - 1 - d.size
  {
    var rl := EncodeRemainingLength(|body|).value;
    var bs := [h] + rl + body;
    assert bs[1..] == rl + body;
    RemainingLengthRoundTrip(|body|, body);
  }

  /** `CodecUtils.encodeString` / `encodeFixedLengthContent`: a two-octet big-endian
      length (written with `writeShort`, so only its low 16 bits) and then the octets
      themselves. Strings are given as their UTF-8 octets. */
  function EncodeString(raw: seq<Byte>): (r: seq<Byte>)
    ensures |r| == 2 + |raw|
    ensures r[2..] == raw
  {
    U16(|raw|) + raw
  }

  /** Reads a length-prefixed string; `None` when the input is shorter than the prefix says. */
  function ReadString(bs: seq<Byte>): (r: Option<seq<Byte>>)
    ensures r.Some? ==> 2 + |r.value| <= |bs| && bs[2..2 + |r.value|] == r.value
  {
    if |bs| < 2 then None
    else
      var n := ReadU16(bs[0], bs[1]);
      if |bs| < 2 + n then None else Some(bs[2..2 + n])
  }

  /** A string shorter than 65536 octets reads back unchanged, whatever follows it. */
  lemma StringRoundTrip(raw: seq<Byte>, rest: seq<Byte>)
    requires |raw| < 65536
    ensures ReadString(EncodeString(raw) + rest) == Some(raw)
  {
    var bs := EncodeString(raw) + rest;
    assert bs[2..2 + |raw|] == raw;
  }

  /** `CodecUtils.encodeFlags`: DUP in bit 3, the QoS level in bits 2-1, RETAIN in bit 0. */
  function EncodeFlags(dupFlag: bool, qos: QosType, retainFlag: bool): (r: Byte)
    ensures r < 16
    ensures (r / 8 == 1) == dupFlag
    ensures (r / 2) % 4 == qos.Value()
    ensures (r % 2 == 1) == retainFlag
  {
    (if dupFlag then 8 else 0) + qos.Value() * 2 + (if retainFlag then 1 else 0)
  }

  /** The first octet of a fixed header: packet type in the high nibble, flags in the low one. */
  function HeaderByte(kind: Byte, flags: Byte): (r: Byte)
    requires 1 <= kind <= 14 && flags < 16
    ensures r / 16 == kind && r % 16 == flags
  {
    kind * 16 + flags
  }
}
