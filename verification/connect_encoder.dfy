/** `ConnectEncoder.encode`: a CONNECT in the MQTT 3.1 layout (protocol name
    "MQIsdp", level 3) whose connect-flags octet follows section 3.1.2.3 of MQTT 3.1.1.
    The encoder is proved against a reader of the same layout. */
module ConnectEncoder {
  import opened Bytes
  import opened Results
  import opened Protocol
  import opened CodecUtils

  /** The fields the encoder reads. String and binary fields are given as their
      octets; `None` is a Java `null`. */
  datatype ConnectMessage = ConnectMessage(
    cleanSession: bool,
    willFlag: bool,
    willQos: JavaByte,
    willRetain: bool,
    passwordFlag: bool,
    userFlag: bool,
    keepAlive: int,
    clientId: Option<seq<Byte>>,
    willTopic: Option<seq<Byte>>,
    willMessage: Option<seq<Byte>>,
    username: Option<seq<Byte>>,
    password: Option<seq<Byte>>)

  /** "MQIsdp" in ASCII. */
  const ProtocolName: seq<Byte> := [0x4D, 0x51, 0x49, 0x73, 0x64, 0x70]

  const ProtocolVersion: Byte := 0x03

  /** Size of protocol name, version, connect flags and keep-alive. */
  const StaticPartSize: nat := 12

  /** The connect-flags octet: clean session in bit 1, will in bit 2, `willQos & 3`
      in bits 3-4, will retain in bit 5, password in bit 6, user name in bit 7. */
  function ConnectFlags(m: ConnectMessage): Byte
  {
    (if m.cleanSession then 0x02 else 0)
    + (if m.willFlag then 0x04 else 0)
    + (m.willQos % 4) * 8
    + (if m.willRetain then 0x20 else 0)
    + (if m.passwordFlag then 0x40 else 0)
    + (if m.userFlag then 0x80 else 0)
  }

  /** The connect-flags octet taken apart bit by bit. */
  datatype FlagBits = FlagBits(
    reserved: bool, cleanSession: bool, will: bool, willQos: nat,
    willRetain: bool, password: bool, username: bool)

  /** Bit `k` of an octet, counting from the least significant. */
  function Bit(b: Byte, k: nat): bool
    requires k < 8
  {
    (b / Pow2(k)) % 2 == 1
  }

  function Pow2(k: nat): (r: nat)
    ensures r >= 1
  {
    if k == 0 then 1 else 2 * Pow2(k - 1)
  }

  function ReadConnectFlags(b: Byte): FlagBits
  {
    FlagBits(Bit(b, 0), Bit(b, 1), Bit(b, 2), (b / 8) % 4, Bit(b, 5), Bit(b, 6), Bit(b, 7))
  }

  /** What the flag octet of `m` reads back as. */
  function FlagsOf(m: ConnectMessage): FlagBits
  {
    FlagBits(false, m.cleanSession, m.willFlag, m.willQos % 4, m.willRetain, m.passwordFlag, m.userFlag)
  }

  function B(x: bool): nat
  {
    if x then 1 else 0
  }

  /** An octet assembled from single bits and a two-bit field at the connect-flag
      positions reads back as those bits. */
  lemma ReadAssembledFlags(b: Byte, c: nat, w: nat, q: nat, rt: nat, p: nat, u: nat)
    requires c < 2 && w < 2 && q < 4 && rt < 2 && p < 2 && u < 2
    requires b == 2 * c + 4 * w + 8 * q + 32 * rt + 64 * p + 128 * u
    ensures ReadConnectFlags(b) == FlagBits(false, c == 1, w == 1, q, rt == 1, p == 1, u == 1)
  {
    assert Pow2(0) == 1 && Pow2(1) == 2 && Pow2(2) == 4 && Pow2(5) == 32 && Pow2(6) == 64 && Pow2(7) == 128;
    DivMod(b, 1, b, 0);
    DivMod(b, 2, c + 2 * w + 4 * q + 16 * rt + 32 * p + 64 * u, 0);
    DivMod(c + 2 * w + 4 * q + 16 * rt + 32 * p + 64 * u, 2, w + 2 * q + 8 * rt + 16 * p + 32 * u, c);
    DivMod(b, 4, w + 2 * q + 8 * rt + 16 * p + 32 * u, 2 * c);
    DivMod(w + 2 * q + 8 * rt + 16 * p + 32 * u, 2, q + 4 * rt + 8 * p + 16 * u, w);
    DivMod(b, 8, q + 4 * rt + 8 * p + 16 * u, 2 * c + 4 * w);
    DivMod(q + 4 * rt + 8 * p + 16 * u, 4, rt + 2 * p + 4 * u, q);
    DivMod(b, 32, rt + 2 * p + 4 * u, 2 * c + 4 * w + 8 * q);
    DivMod(rt + 2 * p + 4 * u, 2, p + 2 * u, rt);
    DivMod(b, 64, p + 2 * u, 2 * c + 4 * w + 8 * q + 32 * rt);
    DivMod(p + 2 * u, 2, u, p);
    DivMod(b, 128, u, 2 * c + 4 * w + 8 * q + 32 * rt + 64 * p);
    DivMod(u, 2, 0, u);
  }

  /** Every flag lands in its own bit, and the reserved bit 0 is always clear. */
  lemma ConnectFlagsLayout(m: ConnectMessage)
    ensures ReadConnectFlags(ConnectFlags(m)) == FlagsOf(m)
  {
    ReadAssembledFlags(ConnectFlags(m), B(m.cleanSession), B(m.willFlag), m.willQos % 4,
                       B(m.willRetain), B(m.passwordFlag), B(m.userFlag));
  }

  /** Protocol name, version, connect flags, keep-alive. */
  function StaticPart(m: ConnectMessage): (r: seq<Byte>)
    ensures |r| == StaticPartSize
  {
    EncodeString(ProtocolName) + [ProtocolVersion, ConnectFlags(m)] + U16(m.keepAlive)
  }

  /** Writes `v` as a length-prefixed field when `present`, nothing otherwise. */
  function FieldIf(present: bool, v: Option<seq<Byte>>): seq<Byte>
  {
    if present && v.Some? then EncodeString(v.value) else []
  }

  /** The client identifier, then will topic and will message when the will flag is
      set, then the user name when the user flag is set and one is given, and within
      that the password when the password flag is set and one is given. A null client
      identifier writes nothing at all. */
  function VariablePart(m: ConnectMessage): (r: Result<seq<Byte>, EncodeError>)
    ensures r.Err? <==> m.clientId.Some? && m.willFlag && (m.willTopic.None? || m.willMessage.None?)
    ensures r.Err? ==> r.error == NullField
    ensures r.Ok? && ShortFields(m) ==> |r.value| <= 5 * (2 + 65535)
  {
    if m.clientId.None? then Ok([])
    else if m.willFlag && (m.willTopic.None? || m.willMessage.None?) then Err(NullField)
    else
      var withName := m.userFlag && m.username.Some?;
      Ok(EncodeString(m.clientId.value)
         + FieldIf(m.willFlag, m.willTopic) + FieldIf(m.willFlag, m.willMessage)
         + FieldIf(withName, m.username)
         + FieldIf(withName && m.passwordFlag, m.password))
  }

  /** Header 0x10, the remaining length `12 + |variable part|`, the static part, the
      variable part. */
  function Encode(m: ConnectMessage): (r: Result<seq<Byte>, EncodeError>)
    ensures r.Ok? ==> |r.value| > 0 && r.value[0] == 0x10 && r.value[0] / 16 == CONNECT
    ensures r.Err? ==> r.error == NullField || r.error.LengthOutOfRange?
    ensures m.clientId.None? ==> r == Ok([0x10, StaticPartSize] + StaticPart(m))
    ensures m.clientId.Some? && m.willFlag && (m.willTopic.None? || m.willMessage.None?) ==> r == Err(NullField)
    ensures VariablePart(m).Ok? ==> (r.Ok? <==> StaticPartSize + |VariablePart(m).value| <= MaxRemainingLength)
    ensures ShortFields(m) && (m.clientId.Some? && m.willFlag ==> m.willTopic.Some? && m.willMessage.Some?) ==> r.Ok?
  {
    var variable :- VariablePart(m);
    var rl :- EncodeRemainingLength(StaticPartSize + |variable|);
    assert variable == [] ==> [HeaderByte(CONNECT, 0)] + rl + StaticPart(m) + variable == [0x10, StaticPartSize] + StaticPart(m);
    Ok([HeaderByte(CONNECT, 0)] + rl + StaticPart(m) + variable)
  }

  // ---------------------------------------------------------------------------
  // Reading the layout back

  /** The optional fields a reader finds after the static part. */
  datatype Fields = Fields(
    clientId: Option<seq<Byte>>, willTopic: Option<seq<Byte>>, willMessage: Option<seq<Byte>>,
    username: Option<seq<Byte>>, password: Option<seq<Byte>>)

  /** What a reader recovers from a CONNECT on the wire. */
  datatype ConnectView = ConnectView(flags: FlagBits, keepAlive: nat, fields: Fields)

  /** A field read (or skipped) and what follows it. */
  datatype Step = Step(field: Option<seq<Byte>>, rest: seq<Byte>)

  /** Reads a length-prefixed field when `present`; skips nothing otherwise. */
  function ReadIf(present: bool, bs: seq<Byte>): Option<Step>
  {
    if !present then Some(Step(None, bs))
    else
      var v := ReadString(bs);
      if v.None? then None else Some(Step(Some(v.value), bs[2 + |v.value|..]))
  }

  /** Will topic and will message, when the will flag is set. */
  datatype WillFields = WillFields(topic: Option<seq<Byte>>, message: Option<seq<Byte>>, rest: seq<Byte>)

  function ReadWill(will: bool, bs: seq<Byte>): Option<WillFields>
  {
    var wt := ReadIf(will, bs);
    if wt.None? then None
    else
      var wm := ReadIf(will, wt.value.rest);
      if wm.None? then None else Some(WillFields(wt.value.field, wm.value.field, wm.value.rest))
  }

  /** User name, when its flag is set and octets remain; within it the password, when
      its flag is set and octets remain; nothing may follow. */
  function ReadCredentials(f: FlagBits, bs: seq<Byte>): Option<(Option<seq<Byte>>, Option<seq<Byte>>)>
  {
    var un := ReadIf(f.username && |bs| > 0, bs);
    if un.None? then None
    else
      var pw := ReadIf(un.value.field.Some? && f.password && |un.value.rest| > 0, un.value.rest);
      if pw.None? || pw.value.rest != [] then None else Some((un.value.field, pw.value.field))
  }

  /** Reads the variable part under the given flags. An empty variable part has no
      client identifier. */
  function ReadFields(f: FlagBits, bs: seq<Byte>): Option<Fields>
  {
    if |bs| == 0 then Some(Fields(None, None, None, None, None))
    else
      var id := ReadIf(true, bs);
      if id.None? then None
      else
        var w := ReadWill(f.will, id.value.rest);
        if w.None? then None
        else
          var cred := ReadCredentials(f, w.value.rest);
          if cred.None? then None
          else Some(Fields(id.value.field, w.value.topic, w.value.message, cred.value.0, cred.value.1))
  }

  /** Reads a whole CONNECT: header 0x10, a remaining length covering exactly the rest
      of the input, "MQIsdp", level 3, the flags, the keep-alive, the variable part. */
  function Read(bs: seq<Byte>): Option<ConnectView>
  {
    if |bs| == 0 || bs[0] != 0x10 then None
    else
      var d := DecodeRemainingLength(bs[1..]);
      if !d.Decoded? || |bs| != 1 + d.size + d.value || d.value < StaticPartSize then None
      else
        var body := bs[1 + d.size..];
        if body[..8] != EncodeString(ProtocolName) || body[8] != ProtocolVersion then None
        else
          var flags := ReadConnectFlags(body[9]);
          var fields := ReadFields(flags, body[12..]);
          if fields.None? then None
          else Some(ConnectView(flags, ReadU16(body[10], body[11]), fields.value))
  }

  /** The fields the encoder writes for `m`, as a reader sees them. */
  function Written(m: ConnectMessage): Fields
  {
    if m.clientId.None? then Fields(None, None, None, None, None)
    else
      var withName := m.userFlag && m.username.Some?;
      Fields(m.clientId,
             if m.willFlag then m.willTopic else None,
             if m.willFlag then m.willMessage else None,
             if withName then m.username else None,
             if withName && m.passwordFlag then m.password else None)
  }

  predicate Short(v: Option<seq<Byte>>)
  {
    v.Some? ==> |v.value| < 65536
  }

  predicate ShortFields(m: ConnectMessage)
  {
    Short(m.clientId) && Short(m.willTopic) && Short(m.willMessage) && Short(m.username) && Short(m.password)
  }

  lemma ReadIfField(present: bool, v: Option<seq<Byte>>, rest: seq<Byte>)
    requires Short(v)
    ensures ReadIf(present && v.Some?, FieldIf(present, v) + rest)
         == Some(Step(if present then v else None, rest))
  {
    if present && v.Some? {
      StringRoundTrip(v.value, rest);
      assert (EncodeString(v.value) + rest)[2 + |v.value|..] == rest;
    } else {
      assert FieldIf(present, v) + rest == rest;
    }
  }

  function WillPart(m: ConnectMessage): seq<Byte>
  {
    FieldIf(m.willFlag, m.willTopic) + FieldIf(m.willFlag, m.willMessage)
  }

  function CredentialsPart(m: ConnectMessage): seq<Byte>
  {
    var withName := m.userFlag && m.username.Some?;
    FieldIf(withName, m.username) + FieldIf(withName && m.passwordFlag, m.password)
  }

  lemma WillRoundTrip(m: ConnectMessage, rest: seq<Byte>)
    requires ShortFields(m)
    requires m.willFlag ==> m.willTopic.Some? && m.willMessage.Some?
    ensures ReadWill(m.willFlag, WillPart(m) + rest)
         == Some(WillFields(if m.willFlag then m.willTopic else None,
                            if m.willFlag then m.willMessage else None, rest))
  {
    var wmPart := FieldIf(m.willFlag, m.willMessage) + rest;
    assert WillPart(m) + rest == FieldIf(m.willFlag, m.willTopic) + wmPart;
    ReadIfField(m.willFlag, m.willTopic, wmPart);
    ReadIfField(m.willFlag, m.willMessage, rest);
  }

  lemma CredentialsRoundTrip(m: ConnectMessage)
    requires ShortFields(m)
    ensures ReadCredentials(FlagsOf(m), CredentialsPart(m))
         == Some((if m.userFlag && m.username.Some? then m.username else None,
                  if m.userFlag && m.username.Some? && m.passwordFlag then m.password else None))
  {
    var withName := m.userFlag && m.username.Some?;
    var pwPart := FieldIf(withName && m.passwordFlag, m.password);
    ReadIfField(withName, m.username, pwPart);
    assert withName <==> (m.userFlag && |CredentialsPart(m)| > 0);
    ReadIfField(withName && m.passwordFlag, m.password, []);
    assert pwPart + [] == pwPart;
  }

  /** The variable part reads back as exactly the fields the encoder chose to write. */
  lemma VariablePartRoundTrip(m: ConnectMessage)
    requires ShortFields(m)
    requires VariablePart(m).Ok?
    ensures ReadFields(FlagsOf(m), VariablePart(m).value) == Some(Written(m))
  {
    if m.clientId.Some? {
      var tail := WillPart(m) + CredentialsPart(m);
      assert VariablePart(m).value == EncodeString(m.clientId.value) + tail;
      ReadIfField(true, m.clientId, tail);
      WillRoundTrip(m, CredentialsPart(m));
      CredentialsRoundTrip(m);
    }
  }

  /** A header, a remaining-length field that decodes to the body's size, and a body
      with the static part read as the flags, keep-alive and variable part. */
  lemma ReadFramed(rl: seq<Byte>, body: seq<Byte>)
    requires |body| >= StaticPartSize
    requires DecodeRemainingLength(rl + body) == Decoded(|body|, |rl|)
    requires body[..8] == EncodeString(ProtocolName) && body[8] == ProtocolVersion
    ensures ReadFields(ReadConnectFlags(body[9]), body[12..]).Some? ==>
      Read([0x10] + rl + body) == Some(ConnectView(ReadConnectFlags(body[9]), ReadU16(body[10], body[11]),
                                                   ReadFields(ReadConnectFlags(body[9]), body[12..]).value))
  {
    var bs := [0x10] + rl + body;
    assert bs[1..] == rl + body;
    assert bs[1 + |rl|..] == body;
  }

  /** Whatever the encoder writes reads back as the message's flags, the low 16 bits
      of its keep-alive, and the fields the layout calls for, in order. */
  lemma EncodeThenRead(m: ConnectMessage)
    requires ShortFields(m)
    requires Encode(m).Ok?
    ensures Read(Encode(m).value) == Some(ConnectView(FlagsOf(m), m.keepAlive % 65536, Written(m)))
  {
    var variable := VariablePart(m).value;
    var fixedPart := StaticPart(m);
    var body := fixedPart + variable;
    var rl := EncodeRemainingLength(|body|).value;
    assert Encode(m).value == [0x10] + rl + body;
    RemainingLengthRoundTrip(|body|, body);
    BodyLayout(m, variable);
    ConnectFlagsLayout(m);
    VariablePartRoundTrip(m);
    ReadFramed(rl, body);
  }

  /** Where the static part's octets and the variable part sit in a body. */
  lemma BodyLayout(m: ConnectMessage, variable: seq<Byte>)
    ensures var body := StaticPart(m) + variable;
            && body[..8] == EncodeString(ProtocolName)
            && body[8] == ProtocolVersion && body[9] == ConnectFlags(m)
            && body[10] == U16(m.keepAlive)[0] && body[11] == U16(m.keepAlive)[1]
            && body[12..] == variable
  {
    var body := StaticPart(m) + variable;
    assert body[..8] == EncodeString(ProtocolName);
    assert body[12..] == variable;
  }
}
