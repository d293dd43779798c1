/** `UnsubscribeEncoder.encode` (section 3.10.1 of MQTT 3.1.1 fixes the header flags
    at 0b0010), together with a reader of the same layout that the encoder is proved
    against. */
module UnsubscribeEncoder {
  import opened Bytes
  import opened Results
  import opened Protocol
  import opened CodecUtils

  /** Topic filters are given as their UTF-8 octets. */
  datatype UnsubscribeMessage = UnsubscribeMessage(
    dupFlag: bool, qos: QosType, retainFlag: bool, messageId: int, topicFilters: seq<seq<Byte>>)

  /** Each topic filter in list order as an encoded string; no QoS octets. */
  function Payload(ts: seq<seq<Byte>>): (r: seq<Byte>)
    ensures |ts| == 0 <==> |r| == 0
  {
    if |ts| == 0 then [] else EncodeString(ts[0]) + Payload(ts[1..])
  }

  /** The variable header (packet identifier) followed by the payload. */
  function Body(m: UnsubscribeMessage): (r: seq<Byte>)
    ensures |r| >= 2
  {
    U16(m.messageId) + Payload(m.topicFilters)
  }

  /** Rejects an empty list, then a header QoS other than 1; otherwise writes the
      fixed header, the remaining length of the body, and the body. */
  function Encode(m: UnsubscribeMessage): (r: Result<seq<Byte>, EncodeError>)
    ensures |m.topicFilters| == 0 ==> r == Err(EmptyTopicList)
    ensures |m.topicFilters| > 0 && m.qos != LeastOne ==> r == Err(UnexpectedQos(m.qos))
    ensures r.Ok? ==> |m.topicFilters| > 0 && m.qos == LeastOne
    ensures |m.topicFilters| > 0 && m.qos == LeastOne ==> (r.Ok? <==> |Body(m)| <= MaxRemainingLength)
    ensures r.Err? && |m.topicFilters| > 0 && m.qos == LeastOne ==> r.error == LengthOutOfRange(|Body(m)|)
    ensures r.Ok? ==> |r.value| > 0 && r.value[0] == 0xA2 + (if m.dupFlag then 8 else 0) + (if m.retainFlag then 1 else 0)
  {
    if |m.topicFilters| == 0 then Err(EmptyTopicList)
    else if m.qos != LeastOne then Err(UnexpectedQos(m.qos))
    else
      var body := Body(m);
      var rl :- EncodeRemainingLength(|body|);
      Ok([HeaderByte(UNSUBSCRIBE, EncodeFlags(m.dupFlag, m.qos, m.retainFlag))] + rl + body)
  }

  /** What a reader recovers from an UNSUBSCRIBE on the wire. */
  datatype UnsubscribeView = UnsubscribeView(
    dupFlag: bool, qosBits: nat, retainFlag: bool, messageId: nat, topicFilters: seq<seq<Byte>>)

  /** Reads length-prefixed strings until the input is used up. */
  function ReadFilters(bs: seq<Byte>): Option<seq<seq<Byte>>>
    decreases |bs|
  {
    if |bs| == 0 then Some([])
    else
      var f := ReadString(bs);
      if f.None? then None
      else
        var rest := ReadFilters(bs[2 + |f.value|..]);
        if rest.None? then None else Some([f.value] + rest.value)
  }

  /** Reads a whole UNSUBSCRIBE: type nibble 10, flags, a remaining length that covers
      exactly the rest of the input, the packet identifier and the filters. */
  function Read(bs: seq<Byte>): Option<UnsubscribeView>
  {
    if |bs| == 0 || bs[0] / 16 != UNSUBSCRIBE then None
    else
      var d := DecodeRemainingLength(bs[1..]);
      if !d.Decoded? || |bs| != 1 + d.size + d.value || d.value < 2 then None
      else
        var body := bs[1 + d.size..];
        var fs := ReadFilters(body[2..]);
        if fs.None? then None
        else
          var flags := bs[0] % 16;
          Some(UnsubscribeView(flags / 8 == 1, (flags / 2) % 4, flags % 2 == 1,
                               ReadU16(body[0], body[1]), fs.value))
  }

  predicate ShortFilters(ts: seq<seq<Byte>>)
  {
    forall i :: 0 <= i < |ts| ==> |ts[i]| < 65536
  }

  /** One encoded filter in front of `tail` reads as that filter followed by what `tail` reads as. */
  lemma ReadFiltersStep(f: seq<Byte>, tail: seq<Byte>)
    requires |f| < 65536
    ensures ReadFilters(EncodeString(f) + tail)
         == if ReadFilters(tail).None? then None else Some([f] + ReadFilters(tail).value)
  {
    var bs := EncodeString(f) + tail;
    StringRoundTrip(f, tail);
    assert bs[2 + |f|..] == tail;
  }

  lemma {:induction false} PayloadRoundTrip(ts: seq<seq<Byte>>)
    requires ShortFilters(ts)
    ensures ReadFilters(Payload(ts)) == Some(ts)
    decreases |ts|
  {
    if |ts| > 0 {
      assert ShortFilters(ts[1..]) by {
        forall i | 0 <= i < |ts| - 1 ensures |ts[1..][i]| < 65536 {
          assert ts[1..][i] == ts[i + 1];
        }
      }
      PayloadRoundTrip(ts[1..]);
      ReadFiltersStep(ts[0], Payload(ts[1..]));
      assert [ts[0]] + ts[1..] == ts;
    }
  }

  /** A fixed header, a remaining-length field that decodes to the body's size, and
      the body read as the header's flags, the body's packet identifier and its payload. */
  lemma ReadFramed(h: Byte, rl: seq<Byte>, body: seq<Byte>)
    requires h / 16 == UNSUBSCRIBE && |body| >= 2
    requires DecodeRemainingLength(rl + body) == Decoded(|body|, |rl|)
    ensures ReadFilters(body[2..]).Some? ==>
      Read([h] + rl + body) == Some(UnsubscribeView((h % 16) / 8 == 1, ((h % 16) / 2) % 4, (h % 16) % 2 == 1,
                                               ReadU16(body[0], body[1]), ReadFilters(body[2..]).value))
  {
    var bs := [h] + rl + body;
    assert bs[1..] == rl + body;
    assert bs[1 + |rl|..] == body;
  }

  /** Whatever the encoder writes reads back as the message's flags (QoS 1), its
      packet identifier's low 16 bits, and its filters in list order. */
  lemma EncodeThenRead(m: UnsubscribeMessage)
    requires ShortFilters(m.topicFilters)
    requires Encode(m).Ok?
    ensures Read(Encode(m).value)
         == Some(UnsubscribeView(m.dupFlag, 1, m.retainFlag, m.messageId % 65536, m.topicFilters))
  {
    var body := Body(m);
    var rl := EncodeRemainingLength(|body|).value;
    var flags := EncodeFlags(m.dupFlag, m.qos, m.retainFlag);
    var header := HeaderByte(UNSUBSCRIBE, flags);
    assert Encode(m).value == [header] + rl + body;
    RemainingLengthRoundTrip(|body|, body);
    assert body[2..] == Payload(m.topicFilters);
    PayloadRoundTrip(m.topicFilters);
    ReadFramed(header, rl, body);
  }

  /** The remaining-length field encodes exactly the number of octets after it. */
  lemma RemainingLengthIsBodySize(m: UnsubscribeMessage)
    requires Encode(m).Ok?
    ensures DecodeRemainingLength(Encode(m).value[1..]).Decoded?
    ensures var d := DecodeRemainingLength(Encode(m).value[1..]);
            d.value == |Encode(m).value| - 1 - d.size
  {
    var body := Body(m);
    var header := HeaderByte(UNSUBSCRIBE, EncodeFlags(m.dupFlag, m.qos, m.retainFlag));
    assert EncodeRemainingLength(|body|).Ok?;
    assert Encode(m).value == [header] + EncodeRemainingLength(|body|).value + body;
    FramedRemainingLength(header, body);
  }

}
