/** `SubscribeEncoder.encode` (section 3.8.1 of MQTT 3.1.1 fixes the header flags at
    0b0010), together with a reader of the same layout that the encoder is proved
    against. */
module SubscribeEncoder {
  import opened Bytes
  import opened Results
  import opened Protocol
  import opened CodecUtils

  /** One requested subscription: topic filter (as UTF-8 octets) and requested QoS byte. */
  datatype Couple = Couple(topicFilter: seq<Byte>, qos: JavaByte)

  datatype SubscribeMessage = SubscribeMessage(
    dupFlag: bool, qos: QosType, retainFlag: bool, messageId: int, subscriptions: seq<Couple>)

  /** Each couple in list order: its encoded filter, then one QoS octet. */
  function Payload(cs: seq<Couple>): (r: seq<Byte>)
    ensures |cs| == 0 <==> |r| == 0
  {
    if |cs| == 0 then []
    else EncodeString(cs[0].topicFilter) + [LowByte(cs[0].qos)] + Payload(cs[1..])
  }

  /** The variable header (packet identifier) followed by the payload. */
  function Body(m: SubscribeMessage): (r: seq<Byte>)
    ensures |r| >= 2
  {
    U16(m.messageId) + Payload(m.subscriptions)
  }

  /** Rejects an empty list, then a header QoS other than 1; otherwise writes the
      fixed header, the remaining length of the body, and the body. */
  function Encode(m: SubscribeMessage): (r: Result<seq<Byte>, EncodeError>)
    ensures |m.subscriptions| == 0 ==> r == Err(EmptyTopicList)
    ensures |m.subscriptions| > 0 && m.qos != LeastOne ==> r == Err(UnexpectedQos(m.qos))
    ensures r.Ok? ==> |m.subscriptions| > 0 && m.qos == LeastOne
    ensures |m.subscriptions| > 0 && m.qos == LeastOne ==> (r.Ok? <==> |Body(m)| <= MaxRemainingLength)
    ensures r.Err? && |m.subscriptions| > 0 && m.qos == LeastOne ==> r.error == LengthOutOfRange(|Body(m)|)
    ensures r.Ok? ==> |r.value| > 0 && r.value[0] == 0x82 + (if m.dupFlag then 8 else 0) + (if m.retainFlag then 1 else 0)
  {
    if |m.subscriptions| == 0 then Err(EmptyTopicList)
    else if m.qos != LeastOne then Err(UnexpectedQos(m.qos))
    else
      var body := Body(m);
      var rl :- EncodeRemainingLength(|body|);
      Ok([HeaderByte(SUBSCRIBE, EncodeFlags(m.dupFlag, m.qos, m.retainFlag))] + rl + body)
  }

  /** What a reader recovers from a SUBSCRIBE on the wire. */
  datatype SubscribeView = SubscribeView(
    dupFlag: bool, qosBits: nat, retainFlag: bool, messageId: nat, couples: seq<(seq<Byte>, Byte)>)

  /** Reads (filter, QoS octet) pairs until the input is used up. */
  function ReadCouples(bs: seq<Byte>): Option<seq<(seq<Byte>, Byte)>>
    decreases |bs|
  {
    if |bs| == 0 then Some([])
    else
      var f := ReadString(bs);
      if f.None? || |bs| < 3 + |f.value| then None
      else
        var rest := ReadCouples(bs[3 + |f.value|..]);
        if rest.None? then None
        else Some([(f.value, bs[2 + |f.value|])] + rest.value)
  }

  /** Reads a whole SUBSCRIBE: type nibble 8, flags, a remaining length that covers
      exactly the rest of the input, the packet identifier and the couples. */
  function Read(bs: seq<Byte>): Option<SubscribeView>
  {
    if |bs| == 0 || bs[0] / 16 != SUBSCRIBE then None
    else
      var d := DecodeRemainingLength(bs[1..]);
      if !d.Decoded? || |bs| != 1 + d.size + d.value || d.value < 2 then None
      else
        var body := bs[1 + d.size..];
        var cs := ReadCouples(body[2..]);
        if cs.None? then None
        else
          var flags := bs[0] % 16;
          Some(SubscribeView(flags / 8 == 1, (flags / 2) % 4, flags % 2 == 1,
                             ReadU16(body[0], body[1]), cs.value))
  }

  /** The pairs a reader should recover: each filter with the low octet of its QoS. */
  function Expected(cs: seq<Couple>): seq<(seq<Byte>, Byte)>
  {
    if |cs| == 0 then [] else [(cs[0].topicFilter, LowByte(cs[0].qos))] + Expected(cs[1..])
  }

  predicate ShortFilters(cs: seq<Couple>)
  {
    forall i :: 0 <= i < |cs| ==> |cs[i].topicFilter| < 65536
  }

  /** One encoded couple in front of `tail` reads as that couple followed by what `tail` reads as. */
  lemma ReadCouplesStep(f: seq<Byte>, q: Byte, tail: seq<Byte>)
    requires |f| < 65536
    ensures ReadCouples(EncodeString(f) + [q] + tail)
         == if ReadCouples(tail).None? then None else Some([(f, q)] + ReadCouples(tail).value)
  {
    var bs := EncodeString(f) + [q] + tail;
    assert bs == EncodeString(f) + ([q] + tail);
    StringRoundTrip(f, [q] + tail);
    assert bs[2 + |f|] == q;
    assert bs[3 + |f|..] == tail;
  }

  lemma {:induction false} PayloadRoundTrip(cs: seq<Couple>)
    requires ShortFilters(cs)
    ensures ReadCouples(Payload(cs)) == Some(Expected(cs))
    decreases |cs|
  {
    if |cs| > 0 {
      assert ShortFilters(cs[1..]) by {
        forall i | 0 <= i < |cs| - 1 ensures |cs[1..][i].topicFilter| < 65536 {
          assert cs[1..][i] == cs[i + 1];
        }
      }
      PayloadRoundTrip(cs[1..]);
      ReadCouplesStep(cs[0].topicFilter, LowByte(cs[0].qos), Payload(cs[1..]));
    }
  }

  /** A fixed header, a remaining-length field that decodes to the body's size, and
      the body read as the header's flags, the body's packet identifier and its payload. */
  lemma ReadFramed(h: Byte, rl: seq<Byte>, body: seq<Byte>)
    requires h / 16 == SUBSCRIBE && |body| >= 2
    requires DecodeRemainingLength(rl + body) == Decoded(|body|, |rl|)
    ensures ReadCouples(body[2..]).Some? ==>
      Read([h] + rl + body) == Some(SubscribeView((h % 16) / 8 == 1, ((h % 16) / 2) % 4, (h % 16) % 2 == 1,
                                               ReadU16(body[0], body[1]), ReadCouples(body[2..]).value))
  {
    var bs := [h] + rl + body;
    assert bs[1..] == rl + body;
    assert bs[1 + |rl|..] == body;
  }

  /** Whatever the encoder writes reads back as the message's flags (QoS 1), its
      packet identifier's low 16 bits, and its couples in list order. */
  lemma EncodeThenRead(m: SubscribeMessage)
    requires ShortFilters(m.subscriptions)
    requires Encode(m).Ok?
    ensures Read(Encode(m).value)
         == Some(SubscribeView(m.dupFlag, 1, m.retainFlag, m.messageId % 65536, Expected(m.subscriptions)))
  {
    var body := Body(m);
    var rl := EncodeRemainingLength(|body|).value;
    var flags := EncodeFlags(m.dupFlag, m.qos, m.retainFlag);
    var header := HeaderByte(SUBSCRIBE, flags);
    assert Encode(m).value == [header] + rl + body;
    RemainingLengthRoundTrip(|body|, body);
    assert body[2..] == Payload(m.subscriptions);
    PayloadRoundTrip(m.subscriptions);
    ReadFramed(header, rl, body);
  }

  /** The remaining-length field encodes exactly the number of octets after it. */
  lemma RemainingLengthIsBodySize(m: SubscribeMessage)
    requires Encode(m).Ok?
    ensures DecodeRemainingLength(Encode(m).value[1..]).Decoded?
    ensures var d := DecodeRemainingLength(Encode(m).value[1..]);
            d.value == |Encode(m).value| - 1 - d.size
  {
    var body := Body(m);
    var header := HeaderByte(SUBSCRIBE, EncodeFlags(m.dupFlag, m.qos, m.retainFlag));
    assert EncodeRemainingLength(|body|).Ok?;
    assert Encode(m).value == [header] + EncodeRemainingLength(|body|).value + body;
    FramedRemainingLength(header, body);
  }

}
