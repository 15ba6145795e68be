/**
 * The CONNECT packets of the codec's unit tests, as byte sequences, and the
 * outcome each test expects, proved about the model.
 */
module ConnectFixtures {
  import opened Wire
  import opened FixedHeaders
  import opened Connect

  // ASCII strings of the fixtures
  const CLIENT_ID: seq<Byte> := [0x30, 0x31, 0x32, 0x33, 0x34, 0x35, 0x36, 0x37, 0x38, 0x39]  // "0123456789"
  const WILL_TOPIC: seq<Byte> := [0x57, 0x69, 0x6c, 0x6c, 0x54, 0x6f, 0x70, 0x69, 0x63]     // "WillTopic"
  const WILL_MESSAGE: seq<Byte> :=
    [0x57, 0x69, 0x6c, 0x6c, 0x4d, 0x65, 0x73, 0x73, 0x61, 0x67, 0x65]                    // "WillMessage"
  const USERNAME: seq<Byte> := [0x75, 0x73, 0x65, 0x72]                                      // "user"
  const PASSWORD: seq<Byte> := [0x70, 0x61, 0x73, 0x73, 0x77, 0x6f, 0x72, 0x64]             // "password"
  const REVERSED_NAME: seq<Byte> := [0x54, 0x54, 0x51, 0x4d]                                 // "TTQM"

  /** Connect flags 0xce: user name, password, will QoS 1, will, clean session. */
  const FLAGS: Byte := 0xce

  // The fixtures' fields as they appear on the wire
  const NAME_FIELD: seq<Byte> := [0x00, 0x04] + PROTOCOL_NAME
  const CLIENT_ID_FIELD: seq<Byte> := [0x00, 0x0a] + CLIENT_ID
  const WILL_TOPIC_FIELD: seq<Byte> := [0x00, 0x09] + WILL_TOPIC
  const WILL_MESSAGE_FIELD: seq<Byte> := [0x00, 0x0b] + WILL_MESSAGE
  const USERNAME_FIELD: seq<Byte> := [0x00, 0x04] + USERNAME
  const PASSWORD_FIELD: seq<Byte> := [0x00, 0x08] + PASSWORD

  /** Protocol level 4, connect flags 0xce, keep-alive 0. */
  const LEVEL_FLAGS_KEEP_ALIVE: seq<Byte> := [0x04, FLAGS] + [0x00, 0x00]
  const VARIABLE_HEADER: seq<Byte> := NAME_FIELD + LEVEL_FLAGS_KEEP_ALIVE
  const FULL_PAYLOAD: seq<Byte> :=
    CLIENT_ID_FIELD + (WILL_TOPIC_FIELD + (WILL_MESSAGE_FIELD + (USERNAME_FIELD + PASSWORD_FIELD)))

  /** The complete packet: a body of 0x3e bytes. */
  const FULL_BODY: seq<Byte> := VARIABLE_HEADER + FULL_PAYLOAD
  const FULL: seq<Byte> := [0x10, 0x3e] + FULL_BODY

  /** The protocol name reversed. */
  const BAD_NAME_BODY: seq<Byte> := ([0x00, 0x04] + REVERSED_NAME) + (LEVEL_FLAGS_KEEP_ALIVE + FULL_PAYLOAD)
  const BAD_NAME: seq<Byte> := [0x10, 0x3e] + BAD_NAME_BODY

  /** Connect flags 0xcf: the reserved bit set. */
  const RESERVED_HEADER: seq<Byte> := NAME_FIELD + ([0x04, 0xcf] + [0x00, 0x00])
  const RESERVED_BODY: seq<Byte> := RESERVED_HEADER + FULL_PAYLOAD
  const RESERVED_SET: seq<Byte> := [0x10, 0x3e] + RESERVED_BODY

  /** The packets cut short, each with a Remaining Length that covers only what is there. */
  const NO_CLIENT_ID: seq<Byte> := [0x10, 0x0a] + (VARIABLE_HEADER + [])
  const NO_WILL_TOPIC: seq<Byte> := [0x10, 0x16] + (VARIABLE_HEADER + CLIENT_ID_FIELD)
  const NO_USERNAME: seq<Byte> :=
    [0x10, 0x2e] + (VARIABLE_HEADER + (CLIENT_ID_FIELD + (WILL_TOPIC_FIELD + WILL_MESSAGE_FIELD)))
  const NO_PASSWORD: seq<Byte> :=
    [0x10, 0x34] + (VARIABLE_HEADER
      + (CLIENT_ID_FIELD + (WILL_TOPIC_FIELD + (WILL_MESSAGE_FIELD + USERNAME_FIELD))))

  const HEADER: ConnectVariableHeader := ConnectVariableHeader(FLAGS, 0, PROTOCOL_NAME, 4)
  const PAYLOAD: ConnectPayload :=
    ConnectPayload(CLIENT_ID, Some(WILL_TOPIC), Some(WILL_MESSAGE), Some(USERNAME), Some(PASSWORD))

  /** The packet the encoding test builds: its header declares a Remaining Length of 0. */
  const PACKET: ConnectPacket := ConnectPacket(FixedHeader(CONNECT, 0, 0), HEADER, PAYLOAD)

  /** The fixture's fixed header for a body of `n` bytes, n below 128. */
  lemma ShortHeader(n: nat)
    requires n < 0x80
    ensures EncodeFixedHeader(FixedHeader(CONNECT, 0, n)).value == [0x10, n]
  {
  }

  lemma HeaderBytes()
    ensures EncodeVariableHeader(HEADER) == Success(VARIABLE_HEADER)
  {
  }

  lemma FieldBytes()
    ensures EncodeString(CLIENT_ID) == Success(CLIENT_ID_FIELD)
    ensures EncodeString(WILL_TOPIC) == Success(WILL_TOPIC_FIELD)
    ensures EncodeString(WILL_MESSAGE) == Success(WILL_MESSAGE_FIELD)
    ensures EncodeString(USERNAME) == Success(USERNAME_FIELD)
    ensures EncodeString(PASSWORD) == Success(PASSWORD_FIELD)
  {
  }

  lemma FullPayloadBytes()
    ensures EncodePayload(PAYLOAD, HEADER) == Success(FULL_PAYLOAD)
  {
    FieldBytes();
  }

  /** The flags of the fixtures' variable header, bit by bit. */
  lemma HeaderFlags()
    ensures HEADER.UsernameFlag() && HEADER.PasswordFlag() && !HEADER.WillRetainFlag()
    ensures HEADER.WillQos() == 1 && HEADER.WillFlag() && HEADER.CleanSessionFlag()
    ensures !HEADER.ReservedFlag()
  {
  }

  /** A CONNECT packet whose body is shorter than 0x80 bytes: a two-byte fixed header. */
  lemma ShortConnect(rl: Byte, body: seq<Byte>)
    requires |body| == rl < 0x80
    ensures DecodeConnect([0x10, rl] + body) == DecodeConnectBody(FixedHeader(CONNECT, 0, rl), body)
  {
    var s := [0x10, rl] + body;
    var h := FixedHeader(CONNECT, 0, rl);
    assert s[1..] == [rl] + body && s[1..][..1] == [rl];
    DecodeVarintAt(s[1..], 1, MAX_VARINT_BYTES);
    DecodeFixedHeaderOf(s, h, 1);
    assert s[2 .. 2 + rl] == body;
    DecodeConnectFrom(s, h, 2);
  }

  /** A body starting with the fixtures' variable header decodes as its payload does. */
  lemma AfterHeader(h: FixedHeader, payload: seq<Byte>)
    ensures DecodePayload(payload, HEADER).Failure? ==>
      DecodeConnectBody(h, VARIABLE_HEADER + payload) == Failure(DecodePayload(payload, HEADER).error)
    ensures DecodePayload(payload, HEADER).Success? ==>
      DecodeConnectBody(h, VARIABLE_HEADER + payload)
        == Success(ConnectPacket(h, HEADER, DecodePayload(payload, HEADER).value))
  {
    HeaderBytes();
    HeaderFlags();
    VariableHeaderRoundTrip(HEADER, payload);
  }

  lemma FullPayload()
    ensures DecodePayload(FULL_PAYLOAD, HEADER) == Success(PAYLOAD)
  {
    HeaderFlags();
    FullPayloadBytes();
    PayloadRoundTrip(PAYLOAD, HEADER, []);
    assert FULL_PAYLOAD + [] == FULL_PAYLOAD;
  }

  /** The decoding test: every field as the test expects it. */
  lemma TestDecodeOk()
    ensures DecodeConnect(FULL).Success?
    ensures var p := DecodeConnect(FULL).value;
      var vh := p.variableHeader;
      && p.fixedHeader == FixedHeader(CONNECT, 0, 0x3e)
      && vh.protoName == PROTOCOL_NAME && vh.protoLevel == 4
      && vh.UsernameFlag() && vh.PasswordFlag() && !vh.WillRetainFlag()
      && vh.WillQos() == 1 && vh.WillFlag() && vh.CleanSessionFlag() && !vh.ReservedFlag()
      && vh.keepAlive == 0
      && p.payload == PAYLOAD
  {
    assert |FULL_BODY| == 0x3e;
    ShortConnect(0x3e, FULL_BODY);
    FullPayload();
    AfterHeader(FixedHeader(CONNECT, 0, 0x3e), FULL_PAYLOAD);
    HeaderFlags();
  }

  /** A body whose first string is not the protocol name. */
  lemma WrongNameBody(h: FixedHeader, body: seq<Byte>)
    requires ReadString(body).Some? && ReadString(body).value.0 != PROTOCOL_NAME
    ensures DecodeConnectBody(h, body) == Failure(MalformedPacket(BadProtocolName))
  {
  }

  lemma TestDecodeFailProtocolName()
    ensures DecodeConnect(BAD_NAME) == Failure(MalformedPacket(BadProtocolName))
  {
    assert |BAD_NAME_BODY| == 0x3e;
    ShortConnect(0x3e, BAD_NAME_BODY);
    assert EncodeString(REVERSED_NAME).value == [0x00, 0x04] + REVERSED_NAME;
    StringRoundTrip(REVERSED_NAME, LEVEL_FLAGS_KEEP_ALIVE + FULL_PAYLOAD);
    WrongNameBody(FixedHeader(CONNECT, 0, 0x3e), BAD_NAME_BODY);
  }

  lemma ReservedHeaderBytes()
    ensures |RESERVED_HEADER| == 10
    ensures RESERVED_HEADER[..6] == [0, 4] + PROTOCOL_NAME && RESERVED_HEADER[7] == 0xcf
  {
  }

  /** A body starting with the protocol name and connect flags 0xcf, whatever follows. */
  lemma ReservedBitBody(h: FixedHeader, tail: seq<Byte>)
    ensures DecodeConnectBody(h, RESERVED_HEADER + tail) == Failure(MalformedPacket(ReservedFlagSet))
  {
    var body := RESERVED_HEADER + tail;
    ReservedHeaderBytes();
    assert body[..6] == RESERVED_HEADER[..6] && body[7] == RESERVED_HEADER[7];
  }

  lemma TestDecodeFailReservedFlag()
    ensures DecodeConnect(RESERVED_SET) == Failure(MalformedPacket(ReservedFlagSet))
  {
    assert |RESERVED_BODY| == 0x3e;
    ShortConnect(0x3e, RESERVED_BODY);
    ReservedBitBody(FixedHeader(CONNECT, 0, 0x3e), FULL_PAYLOAD);
  }

  lemma TestDecodeFailMissClientId()
    ensures DecodeConnect(NO_CLIENT_ID) == Failure(MalformedPacket(MissingClientId))
  {
    ShortConnect(0x0a, VARIABLE_HEADER + []);
    AfterHeader(FixedHeader(CONNECT, 0, 0x0a), []);
  }

  lemma MissWillTopicPayload()
    ensures DecodePayload(CLIENT_ID_FIELD, HEADER) == Failure(MalformedPacket(MissingWillTopic))
  {
    HeaderFlags();
    FieldBytes();
    StringRoundTrip(CLIENT_ID, []);
    assert CLIENT_ID_FIELD + [] == CLIENT_ID_FIELD;
  }

  lemma TestDecodeFailMissWillTopic()
    ensures DecodeConnect(NO_WILL_TOPIC) == Failure(MalformedPacket(MissingWillTopic))
  {
    assert |VARIABLE_HEADER + CLIENT_ID_FIELD| == 0x16;
    ShortConnect(0x16, VARIABLE_HEADER + CLIENT_ID_FIELD);
    MissWillTopicPayload();
    AfterHeader(FixedHeader(CONNECT, 0, 0x16), CLIENT_ID_FIELD);
  }

  lemma MissUsernamePayload()
    ensures DecodePayload(CLIENT_ID_FIELD + (WILL_TOPIC_FIELD + WILL_MESSAGE_FIELD), HEADER)
         == Failure(MalformedPacket(MissingUsername))
  {
    HeaderFlags();
    FieldBytes();
    StringRoundTrip(CLIENT_ID, WILL_TOPIC_FIELD + WILL_MESSAGE_FIELD);
    StringRoundTrip(WILL_TOPIC, WILL_MESSAGE_FIELD);
    StringRoundTrip(WILL_MESSAGE, []);
    assert WILL_MESSAGE_FIELD + [] == WILL_MESSAGE_FIELD;
  }

  lemma TestDecodeFailMissUsername()
    ensures DecodeConnect(NO_USERNAME) == Failure(MalformedPacket(MissingUsername))
  {
    var payload := CLIENT_ID_FIELD + (WILL_TOPIC_FIELD + WILL_MESSAGE_FIELD);
    assert |VARIABLE_HEADER + payload| == 0x2e;
    ShortConnect(0x2e, VARIABLE_HEADER + payload);
    MissUsernamePayload();
    AfterHeader(FixedHeader(CONNECT, 0, 0x2e), payload);
  }

  lemma MissPasswordPayload()
    ensures DecodePayload(CLIENT_ID_FIELD + (WILL_TOPIC_FIELD + (WILL_MESSAGE_FIELD + USERNAME_FIELD)), HEADER)
         == Failure(MalformedPacket(MissingPassword))
  {
    HeaderFlags();
    FieldBytes();
    StringRoundTrip(CLIENT_ID, WILL_TOPIC_FIELD + (WILL_MESSAGE_FIELD + USERNAME_FIELD));
    StringRoundTrip(WILL_TOPIC, WILL_MESSAGE_FIELD + USERNAME_FIELD);
    StringRoundTrip(WILL_MESSAGE, USERNAME_FIELD);
    StringRoundTrip(USERNAME, []);
    assert USERNAME_FIELD + [] == USERNAME_FIELD;
  }

  lemma TestDecodeFailMissPassword()
    ensures DecodeConnect(NO_PASSWORD) == Failure(MalformedPacket(MissingPassword))
  {
    var payload := CLIENT_ID_FIELD + (WILL_TOPIC_FIELD + (WILL_MESSAGE_FIELD + USERNAME_FIELD));
    assert |VARIABLE_HEADER + payload| == 0x34;
    ShortConnect(0x34, VARIABLE_HEADER + payload);
    MissPasswordPayload();
    AfterHeader(FixedHeader(CONNECT, 0, 0x34), payload);
  }

  /**
   * The encoding test: the header's Remaining Length 0 is not what is
   * written; the encoder writes the body's size, 0x3e.
   */
  lemma TestEncode()
    ensures EncodeConnect(PACKET) == Success(FULL)
    ensures FULL[1] == 0x3e
  {
    HeaderBytes();
    FullPayloadBytes();
    assert BodySize(PACKET) == 0x3e;
    ShortHeader(0x3e);
  }

  /** Decoding the encoding test's output gives back its fields, under the recomputed length. */
  lemma TestEncodeDecodes()
    ensures DecodeConnect(EncodeConnect(PACKET).value)
         == Success(ConnectPacket(FixedHeader(CONNECT, 0, 0x3e), HEADER, PAYLOAD))
  {
    TestEncode();
    assert |FULL_BODY| == 0x3e;
    ShortConnect(0x3e, FULL_BODY);
    FullPayload();
    AfterHeader(FixedHeader(CONNECT, 0, 0x3e), FULL_PAYLOAD);
  }
}
