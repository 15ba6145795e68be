/**
 * The CONNECT packet of MQTT 3.1.1 (section 3.1): its variable header
 * (protocol name, protocol level, connect flags, keep-alive) and its payload
 * (client identifier, then the will topic and will message, the user name
 * and the password, each present only when its flag says so).
 *
 * The decoder reads the fixed header, cuts out exactly Remaining Length
 * bytes of body and decodes the variable header and the payload from that
 * body alone. The encoder serialises the body first and derives the
 * Remaining Length from its size, whatever length the given header carries.
 */
module Connect {
  import opened Wire
  import opened FixedHeaders

  /** "MQTT" (section 3.1.2.1). */
  const PROTOCOL_NAME: seq<Byte> := [0x4D, 0x51, 0x54, 0x54]

  // ---------------------------------------------------------------- data model

  /** Field order as the variable header's constructor takes them. */
  datatype ConnectVariableHeader =
    ConnectVariableHeader(connectFlags: Byte, keepAlive: U16, protoName: seq<Byte>, protoLevel: Byte)
  {
    // Bit layout of the connect-flags byte (section 3.1.2.3); each accessor is
    // also stated as the test of its bit against the byte's lower bits.
    /** Bit 7: the byte is at least 0x80. */
    function UsernameFlag(): (f: bool)
      ensures f <==> connectFlags >= 0x80
    {
      (connectFlags / 0x80) % 2 == 1
    }
    /** Bit 6: the byte's low seven bits are at least 0x40. */
    function PasswordFlag(): (f: bool)
      ensures f <==> connectFlags % 0x80 >= 0x40
    {
      (connectFlags / 0x40) % 2 == 1
    }
    /** Bit 5: the byte's low six bits are at least 0x20. */
    function WillRetainFlag(): (f: bool)
      ensures f <==> connectFlags % 0x40 >= 0x20
    {
      (connectFlags / 0x20) % 2 == 1
    }
    /** Bits 4-3, read as one number. */
    function WillQos(): (q: nat)
      ensures q < 4 && q * 0x08 == connectFlags % 0x20 - connectFlags % 0x08
    {
      (connectFlags / 0x08) % 4
    }
    /** Bit 2: the byte's low three bits are at least 0x04. */
    function WillFlag(): (f: bool)
      ensures f <==> connectFlags % 0x08 >= 0x04
    {
      (connectFlags / 0x04) % 2 == 1
    }
    /** Bit 1: the byte's low two bits are at least 0x02. */
    function CleanSessionFlag(): (f: bool)
      ensures f <==> connectFlags % 0x04 >= 0x02
    {
      (connectFlags / 0x02) % 2 == 1
    }
    /** Bit 0, reserved: set exactly when the byte with bit 0 cleared is one less. */
    function ReservedFlag(): (f: bool)
      ensures f <==> connectFlags >= 1 && (connectFlags - 1) % 2 == 0
    {
      connectFlags % 2 == 1
    }
  }

  /** The client identifier is always there; the other fields are optional. */
  datatype ConnectPayload = ConnectPayload(
    clientId: seq<Byte>,
    willTopic: Option<seq<Byte>>,
    willMessage: Option<seq<Byte>>,
    username: Option<seq<Byte>>,
    password: Option<seq<Byte>>)

  datatype ConnectPacket =
    ConnectPacket(fixedHeader: FixedHeader, variableHeader: ConnectVariableHeader, payload: ConnectPayload)

  function BitValue(x: bool): nat {
    if x then 1 else 0
  }

  /** The connect-flags byte assembled from its sub-fields. */
  function ComposeConnectFlags(
    username: bool, password: bool, willRetain: bool, willQos: nat,
    will: bool, cleanSession: bool, reserved: bool): (b: Byte)
    requires willQos < 4
    ensures b >= 0x80 <==> username
    ensures b % 2 == 1 <==> reserved
  {
    0x80 * BitValue(username) + 0x40 * BitValue(password) + 0x20 * BitValue(willRetain)
    + 0x08 * willQos + 0x04 * BitValue(will) + 0x02 * BitValue(cleanSession) + BitValue(reserved)
  }

  /** Each sub-field reads back from the byte it was composed into. */
  lemma FlagsCompose(
    username: bool, password: bool, willRetain: bool, willQos: nat,
    will: bool, cleanSession: bool, reserved: bool, keepAlive: U16, name: seq<Byte>, level: Byte)
    requires willQos < 4
    ensures var vh := ConnectVariableHeader(
      ComposeConnectFlags(username, password, willRetain, willQos, will, cleanSession, reserved),
      keepAlive, name, level);
      && vh.UsernameFlag() == username && vh.PasswordFlag() == password
      && vh.WillRetainFlag() == willRetain && vh.WillQos() == willQos
      && vh.WillFlag() == will && vh.CleanSessionFlag() == cleanSession
      && vh.ReservedFlag() == reserved
  {
    var b := ComposeConnectFlags(username, password, willRetain, willQos, will, cleanSession, reserved);
    // the byte's digits from the most significant down: 1, 1, 1, 2, 1, 1, 1 bits
    var x6 := BitValue(username);
    var x5 := 2 * x6 + BitValue(password);
    var x4 := 2 * x5 + BitValue(willRetain);
    var x3 := 4 * x4 + willQos;
    var x2 := 2 * x3 + BitValue(will);
    var x1 := 2 * x2 + BitValue(cleanSession);
    assert b == 2 * x1 + BitValue(reserved);
    assert b / 0x02 == x1 && b % 2 == BitValue(reserved);
    assert b / 0x04 == x2 && x1 % 2 == BitValue(cleanSession);
    assert b / 0x08 == x3 && x2 % 2 == BitValue(will);
    assert b / 0x20 == x4 && x3 % 4 == willQos;
    assert b / 0x40 == x5 && x4 % 2 == BitValue(willRetain);
    assert b / 0x80 == x6 && x5 % 2 == BitValue(password);
  }

  /** A byte is the sum of its bits, with bits 4-3 read as one two-bit digit. */
  lemma ByteDigits(b: Byte)
    ensures b == 0x80 * ((b / 0x80) % 2) + 0x40 * ((b / 0x40) % 2) + 0x20 * ((b / 0x20) % 2)
               + 0x08 * ((b / 0x08) % 4) + 0x04 * ((b / 0x04) % 2) + 0x02 * ((b / 0x02) % 2) + b % 2
  {
    var x1, d0 := b / 2, b % 2;
    var x2, d1 := x1 / 2, x1 % 2;
    var x3, d2 := x2 / 2, x2 % 2;
    var x4, d3 := x3 / 4, x3 % 4;
    var x5, d4 := x4 / 2, x4 % 2;
    var x6, d5 := x5 / 2, x5 % 2;
    assert b / 0x04 == x2 && b / 0x08 == x3 && b / 0x20 == x4 && b / 0x40 == x5 && b / 0x80 == x6;
    assert x6 < 2;
  }

  /** The sub-fields determine the byte: nothing of it is lost in the decomposition. */
  lemma FlagsDecompose(vh: ConnectVariableHeader)
    ensures ComposeConnectFlags(
      vh.UsernameFlag(), vh.PasswordFlag(), vh.WillRetainFlag(), vh.WillQos(),
      vh.WillFlag(), vh.CleanSessionFlag(), vh.ReservedFlag()) == vh.connectFlags
  {
    var b := vh.connectFlags;
    assert BitValue(vh.UsernameFlag()) == (b / 0x80) % 2;
    assert BitValue(vh.PasswordFlag()) == (b / 0x40) % 2;
    assert BitValue(vh.WillRetainFlag()) == (b / 0x20) % 2;
    assert BitValue(vh.WillFlag()) == (b / 0x04) % 2;
    assert BitValue(vh.CleanSessionFlag()) == (b / 0x02) % 2;
    assert BitValue(vh.ReservedFlag()) == b % 2;
    ByteDigits(b);
  }

  // ---------------------------------------------------------------- well-formedness

  /** A field the flags license is present and short enough to encode. */
  predicate Licensed(field: Option<seq<Byte>>, flag: bool) {
    flag ==> field.Some? && |field.value| <= MAX_STRING_LENGTH
  }

  /** Each optional field is present exactly when its flag is set (section 3.1.3). */
  predicate FieldsMatchFlags(vh: ConnectVariableHeader, pl: ConnectPayload) {
    && (pl.willTopic.Some? <==> vh.WillFlag())
    && (pl.willMessage.Some? <==> vh.WillFlag())
    && (pl.username.Some? <==> vh.UsernameFlag())
    && (pl.password.Some? <==> vh.PasswordFlag())
  }

  /** The payload fields an encoder writes are at hand and short enough. */
  predicate PayloadEncodable(pl: ConnectPayload, vh: ConnectVariableHeader) {
    && |pl.clientId| <= MAX_STRING_LENGTH
    && Licensed(pl.willTopic, vh.WillFlag())
    && Licensed(pl.willMessage, vh.WillFlag())
    && Licensed(pl.username, vh.UsernameFlag())
    && Licensed(pl.password, vh.PasswordFlag())
  }

  /** What the encoder needs: strings that fit and every flagged field at hand. */
  predicate Encodable(p: ConnectPacket) {
    |p.variableHeader.protoName| <= MAX_STRING_LENGTH && PayloadEncodable(p.payload, p.variableHeader)
  }

  /** A first byte of type CONNECT with the four flag bits clear (section 2.2.2). */
  predicate IsConnectHeader(h: FixedHeader) {
    h.packetType == CONNECT && h.flags == 0
  }

  /** A CONNECT packet as the decoder accepts it. */
  predicate Valid(p: ConnectPacket) {
    && IsConnectHeader(p.fixedHeader)
    && p.variableHeader.protoName == PROTOCOL_NAME
    && !p.variableHeader.ReservedFlag()
    && FieldsMatchFlags(p.variableHeader, p.payload)
    && Encodable(p)
  }

  /** Bytes a flagged field takes on the wire; an unflagged one takes none. */
  function FieldSize(field: Option<seq<Byte>>, flag: bool): nat {
    if flag && field.Some? then 2 + |field.value| else 0
  }

  function VariableHeaderSize(vh: ConnectVariableHeader): nat {
    2 + |vh.protoName| + 4
  }

  function PayloadSize(pl: ConnectPayload, vh: ConnectVariableHeader): nat {
    2 + |pl.clientId|
    + FieldSize(pl.willTopic, vh.WillFlag()) + FieldSize(pl.willMessage, vh.WillFlag())
    + FieldSize(pl.username, vh.UsernameFlag()) + FieldSize(pl.password, vh.PasswordFlag())
  }

  /** The Remaining Length an encoder must declare for this packet. */
  function BodySize(p: ConnectPacket): nat {
    VariableHeaderSize(p.variableHeader) + PayloadSize(p.payload, p.variableHeader)
  }

  /** Six strings of at most 65535 bytes leave the body far below the Remaining Length limit. */
  lemma BodySizeFits(p: ConnectPacket)
    requires Encodable(p)
    ensures BodySize(p) <= MAX_REMAINING_LENGTH
  {
  }

  /** The packet with the Remaining Length its encoding declares. */
  function WithBodySize(p: ConnectPacket): (q: ConnectPacket)
    ensures q.fixedHeader.remainingLength == BodySize(q) == BodySize(p)
    ensures q.variableHeader == p.variableHeader && q.payload == p.payload
    ensures q.fixedHeader.packetType == p.fixedHeader.packetType
    ensures q.fixedHeader.flags == p.fixedHeader.flags
  {
    p.(fixedHeader := p.fixedHeader.(remainingLength := BodySize(p)))
  }

  // ---------------------------------------------------------------- encoder

  function EncodeVariableHeader(vh: ConnectVariableHeader): (r: Result<seq<Byte>, EncodeError>)
    ensures r.Success? <==> |vh.protoName| <= MAX_STRING_LENGTH
    ensures r.Success? ==> |r.value| == VariableHeaderSize(vh)
  {
    var name :- EncodeString(vh.protoName);
    Success(name + ([vh.protoLevel, vh.connectFlags] + EncodeU16(vh.keepAlive)))
  }

  /** A field is written exactly when its flag is set; writing fails if it is missing. */
  function EncodeOptional(field: Option<seq<Byte>>, flag: bool): (r: Result<seq<Byte>, EncodeError>)
    ensures r.Success? <==> Licensed(field, flag)
    ensures r.Success? ==> |r.value| == FieldSize(field, flag)
    ensures !flag ==> r == Success([])
  {
    if !flag then Success([])
    else match field
      case None => Failure(MissingField)
      case Some(s) => EncodeString(s)
  }

  /** Client identifier, then each optional field its flag licenses, in wire order. */
  function EncodePayload(pl: ConnectPayload, vh: ConnectVariableHeader): (r: Result<seq<Byte>, EncodeError>)
    ensures r.Success? <==> PayloadEncodable(pl, vh)
    ensures r.Success? ==> |r.value| == PayloadSize(pl, vh)
  {
    var clientId :- EncodeString(pl.clientId);
    var willTopic :- EncodeOptional(pl.willTopic, vh.WillFlag());
    var willMessage :- EncodeOptional(pl.willMessage, vh.WillFlag());
    var username :- EncodeOptional(pl.username, vh.UsernameFlag());
    var password :- EncodeOptional(pl.password, vh.PasswordFlag());
    Success(clientId + (willTopic + (willMessage + (username + password))))
  }

  /**
   * The packet's bytes: fixed header, variable header, payload. The
   * Remaining Length written is the body's size, not the one in the header.
   */
  function EncodeConnect(p: ConnectPacket): (r: Result<seq<Byte>, EncodeError>)
    ensures r.Success? <==> Encodable(p)
    ensures r.Success? ==>
      var len := EncodeVarint(BodySize(p));
      && |r.value| == 1 + |len| + BodySize(p)
      && r.value[0] / 0x10 == p.fixedHeader.packetType
      && r.value[0] % 0x10 == p.fixedHeader.flags
      && r.value[1 .. 1 + |len|] == len
    ensures r.Failure? ==> r.error == StringTooLong || r.error == MissingField
  {
    var vh :- EncodeVariableHeader(p.variableHeader);
    var pl :- EncodePayload(p.payload, p.variableHeader);
    assert |vh| + |pl| == BodySize(p);
    BodySizeFits(p);
    var header := EncodeFixedHeader(p.fixedHeader.(remainingLength := BodySize(p))).value;
    assert (header + (vh + pl))[..|header|] == header;
    Success(header + (vh + pl))
  }

  // ---------------------------------------------------------------- decoder

  /**
   * Reads the variable header from the front of the body, in wire order:
   * protocol name (checked), protocol level, connect flags (reserved bit
   * checked), keep-alive. Yields it with the bytes after it.
   */
  function DecodeVariableHeader(body: seq<Byte>)
    : (r: Result<(ConnectVariableHeader, seq<Byte>), DecodeError>)
    ensures r.Success? ==>
      var (vh, rest) := r.value;
      && 10 <= |body| && rest == body[10..]
      && body[..6] == [0, 4] + PROTOCOL_NAME
      && vh == ConnectVariableHeader(body[7], DecodeU16(body[8], body[9]), PROTOCOL_NAME, body[6])
      && !vh.ReservedFlag()
    ensures ReadString(body).None? ==> r == Failure(MalformedPacket(Truncated))
    ensures ReadString(body).Some? && ReadString(body).value.0 != PROTOCOL_NAME ==>
      r == Failure(MalformedPacket(BadProtocolName))
    ensures 8 <= |body| && body[..6] == [0, 4] + PROTOCOL_NAME && body[7] % 2 == 1 ==>
      r == Failure(MalformedPacket(ReservedFlagSet))
  {
    match ReadString(body)
    case None => Failure(MalformedPacket(Truncated))
    case Some((name, rest)) =>
      if name != PROTOCOL_NAME then Failure(MalformedPacket(BadProtocolName))
      else if |rest| < 2 then Failure(MalformedPacket(Truncated))
      else if rest[1] % 2 == 1 then Failure(MalformedPacket(ReservedFlagSet))
      else if |rest| < 4 then Failure(MalformedPacket(Truncated))
      else
        assert body[..6] == [0, 4] + PROTOCOL_NAME by {
          assert body[2..6] == PROTOCOL_NAME;
        }
        assert rest[4..] == body[10..];
        Success((ConnectVariableHeader(rest[1], DecodeU16(rest[2], rest[3]), name, rest[0]), rest[4..]))
  }

  /** A mandatory string; `missing` is the reason given when the body ends first. */
  function ReadField(s: seq<Byte>, missing: Reason): (r: Result<(seq<Byte>, seq<Byte>), DecodeError>)
    ensures r.Failure? <==> ReadString(s).None?
    ensures r.Failure? ==> r.error == MalformedPacket(missing)
    ensures r.Success? ==> r.value == ReadString(s).value && |r.value.0| <= MAX_STRING_LENGTH
  {
    match ReadString(s)
    case None => Failure(MalformedPacket(missing))
    case Some(field) => Success(field)
  }

  /** An optional string: read only when its flag is set, and then mandatory. */
  function ReadOptional(s: seq<Byte>, flag: bool, missing: Reason)
    : (r: Result<(Option<seq<Byte>>, seq<Byte>), DecodeError>)
    ensures !flag ==> r == Success((None, s))
    ensures flag ==> (r.Failure? <==> ReadString(s).None?)
    ensures r.Failure? ==> r.error == MalformedPacket(missing)
    ensures r.Success? ==>
      && (r.value.0.Some? <==> flag)
      && Licensed(r.value.0, flag)
      && FieldSize(r.value.0, flag) + |r.value.1| == |s|
    ensures flag && r.Success? ==>
      r.value == (Some(ReadString(s).value.0), ReadString(s).value.1)
  {
    if !flag then Success((None, s))
    else
      var field :- ReadField(s, missing);
      Success((Some(field.0), field.1))
  }

  /**
   * Reads the payload from the rest of the body: client identifier, then
   * will topic and will message if the will flag is set, then user name and
   * password if their flags are set.
   */
  function DecodePayload(s: seq<Byte>, vh: ConnectVariableHeader): (r: Result<ConnectPayload, DecodeError>)
    ensures ReadString(s).None? ==> r == Failure(MalformedPacket(MissingClientId))
    ensures r.Success? ==>
      && FieldsMatchFlags(vh, r.value)
      && PayloadEncodable(r.value, vh)
      && PayloadSize(r.value, vh) <= |s|
  {
    var clientId :- ReadField(s, MissingClientId);
    var willTopic :- ReadOptional(clientId.1, vh.WillFlag(), MissingWillTopic);
    var willMessage :- ReadOptional(willTopic.1, vh.WillFlag(), MissingWillMessage);
    var username :- ReadOptional(willMessage.1, vh.UsernameFlag(), MissingUsername);
    var password :- ReadOptional(username.1, vh.PasswordFlag(), MissingPassword);
    Success(ConnectPayload(clientId.0, willTopic.0, willMessage.0, username.0, password.0))
  }

  /** Variable header and payload from a body of exactly Remaining Length bytes. */
  function DecodeConnectBody(h: FixedHeader, body: seq<Byte>): (r: Result<ConnectPacket, DecodeError>)
    ensures r.Success? ==>
      && r.value.fixedHeader == h
      && r.value.variableHeader.protoName == PROTOCOL_NAME
      && !r.value.variableHeader.ReservedFlag()
      && FieldsMatchFlags(r.value.variableHeader, r.value.payload)
      && Encodable(r.value)
      && BodySize(r.value) <= |body|
  {
    var vh :- DecodeVariableHeader(body);
    var pl :- DecodePayload(vh.1, vh.0);
    Success(ConnectPacket(h, vh.0, pl))
  }

  /**
   * Decodes one CONNECT packet from the front of `bytes`. Bytes after the
   * declared body belong to whatever follows on the stream and are not read.
   */
  function DecodeConnect(bytes: seq<Byte>): (r: Result<ConnectPacket, DecodeError>)
    ensures r.Success? ==>
      && DecodeFixedHeader(bytes).Success?
      && var (h, n) := DecodeFixedHeader(bytes).value;
      && r.value.fixedHeader == h
      && BodySize(r.value) <= h.remainingLength
      && n + h.remainingLength <= |bytes|
  {
    var header :- DecodeFixedHeader(bytes);
    var (h, n) := header;
    if h.packetType != CONNECT then Failure(MalformedPacket(BadPacketType))
    else if h.flags != 0 then Failure(MalformedPacket(BadHeaderFlags))
    else if n + h.remainingLength > |bytes| then Failure(MalformedPacket(IncompleteBody))
    else DecodeConnectBody(h, bytes[n .. n + h.remainingLength])
  }

  // ---------------------------------------------------------------- properties

  /** The variable header reads back from its encoding, whatever follows it. */
  lemma VariableHeaderRoundTrip(vh: ConnectVariableHeader, rest: seq<Byte>)
    requires vh.protoName == PROTOCOL_NAME && !vh.ReservedFlag()
    ensures DecodeVariableHeader(EncodeVariableHeader(vh).value + rest) == Success((vh, rest))
  {
    var tail := [vh.protoLevel, vh.connectFlags] + EncodeU16(vh.keepAlive);
    var body := EncodeVariableHeader(vh).value + rest;
    assert body == EncodeString(vh.protoName).value + (tail + rest);
    StringRoundTrip(vh.protoName, tail + rest);
    assert (tail + rest)[4..] == rest;
  }

  /** An optional field reads back from its encoding, whatever follows it. */
  lemma ReadOptionalRoundTrip(field: Option<seq<Byte>>, flag: bool, rest: seq<Byte>, missing: Reason)
    requires Licensed(field, flag) && (field.Some? <==> flag)
    ensures ReadOptional(EncodeOptional(field, flag).value + rest, flag, missing) == Success((field, rest))
  {
    if flag {
      StringRoundTrip(field.value, rest);
    } else {
      assert [] + rest == rest;
    }
  }

  /** The encoded payload, followed by `rest`, as its five pieces nested to the right. */
  lemma PayloadBytes(pl: ConnectPayload, vh: ConnectVariableHeader, rest: seq<Byte>)
    requires PayloadEncodable(pl, vh)
    ensures EncodePayload(pl, vh).value + rest ==
      EncodeString(pl.clientId).value
      + (EncodeOptional(pl.willTopic, vh.WillFlag()).value
      + (EncodeOptional(pl.willMessage, vh.WillFlag()).value
      + (EncodeOptional(pl.username, vh.UsernameFlag()).value
      + (EncodeOptional(pl.password, vh.PasswordFlag()).value + rest))))
  {
    var c := EncodeString(pl.clientId).value;
    var wt := EncodeOptional(pl.willTopic, vh.WillFlag()).value;
    var wm := EncodeOptional(pl.willMessage, vh.WillFlag()).value;
    var u := EncodeOptional(pl.username, vh.UsernameFlag()).value;
    var pw := EncodeOptional(pl.password, vh.PasswordFlag()).value;
    assert EncodePayload(pl, vh).value == c + (wt + (wm + (u + pw)));
    Regroup(c, wt, wm, u, pw, rest);
  }

  lemma Regroup(a: seq<Byte>, b: seq<Byte>, c: seq<Byte>, d: seq<Byte>, e: seq<Byte>, f: seq<Byte>)
    ensures (a + (b + (c + (d + e)))) + f == a + (b + (c + (d + (e + f))))
  {
    assert (d + e) + f == d + (e + f);
    assert (c + (d + e)) + f == c + (d + (e + f));
    assert (b + (c + (d + e))) + f == b + (c + (d + (e + f)));
  }

  /** The payload reads back from its encoding, whatever follows it. */
  lemma PayloadRoundTrip(pl: ConnectPayload, vh: ConnectVariableHeader, rest: seq<Byte>)
    requires FieldsMatchFlags(vh, pl) && PayloadEncodable(pl, vh)
    ensures DecodePayload(EncodePayload(pl, vh).value + rest, vh) == Success(pl)
  {
    var c := EncodeString(pl.clientId).value;
    var wt := EncodeOptional(pl.willTopic, vh.WillFlag()).value;
    var wm := EncodeOptional(pl.willMessage, vh.WillFlag()).value;
    var u := EncodeOptional(pl.username, vh.UsernameFlag()).value;
    var pw := EncodeOptional(pl.password, vh.PasswordFlag()).value;
    var s4 := pw + rest;
    var s3 := u + s4;
    var s2 := wm + s3;
    var s1 := wt + s2;
    PayloadBytes(pl, vh, rest);
    StringRoundTrip(pl.clientId, s1);
    ReadOptionalRoundTrip(pl.willTopic, vh.WillFlag(), s2, MissingWillTopic);
    ReadOptionalRoundTrip(pl.willMessage, vh.WillFlag(), s3, MissingWillMessage);
    ReadOptionalRoundTrip(pl.username, vh.UsernameFlag(), s4, MissingUsername);
    ReadOptionalRoundTrip(pl.password, vh.PasswordFlag(), rest, MissingPassword);
  }

  /**
   * For an encodable packet with a CONNECT first byte, decoding the encoding
   * (followed by anything) comes down to decoding its body, under the header
   * with the recomputed Remaining Length.
   */
  lemma DecodeOfEncoding(p: ConnectPacket, rest: seq<Byte>)
    requires Encodable(p) && IsConnectHeader(p.fixedHeader)
    ensures DecodeConnect(EncodeConnect(p).value + rest) ==
      DecodeConnectBody(WithBodySize(p).fixedHeader,
        EncodeVariableHeader(p.variableHeader).value + EncodePayload(p.payload, p.variableHeader).value)
  {
    var body := EncodeVariableHeader(p.variableHeader).value + EncodePayload(p.payload, p.variableHeader).value;
    var h := WithBodySize(p).fixedHeader;
    BodySizeFits(p);
    var hdr := EncodeFixedHeader(h).value;
    var bytes := EncodeConnect(p).value + rest;
    assert bytes == hdr + (body + rest);
    FixedHeaderRoundTrip(h, body + rest);
    assert bytes[|hdr| .. |hdr| + h.remainingLength] == body;
  }

  /**
   * Round trip: a valid packet decodes from its encoding, followed by any
   * bytes, to itself with the Remaining Length recomputed.
   */
  lemma RoundTrip(p: ConnectPacket, rest: seq<Byte>)
    requires Valid(p)
    ensures EncodeConnect(p).Success?
    ensures DecodeConnect(EncodeConnect(p).value + rest) == Success(WithBodySize(p))
  {
    var pl := EncodePayload(p.payload, p.variableHeader).value;
    DecodeOfEncoding(p, rest);
    VariableHeaderRoundTrip(p.variableHeader, pl);
    PayloadRoundTrip(p.payload, p.variableHeader, []);
    assert pl + [] == pl;
  }

  /** When its header already declares the body's size, a valid packet reads back unchanged. */
  lemma RoundTripExact(p: ConnectPacket)
    requires Valid(p) && p.fixedHeader.remainingLength == BodySize(p)
    ensures DecodeConnect(EncodeConnect(p).value) == Success(p)
  {
    RoundTrip(p, []);
    assert EncodeConnect(p).value + [] == EncodeConnect(p).value;
  }

  /** The first string of a body is the variable header's protocol name. */
  lemma NameFirst(v: ConnectVariableHeader, pl: seq<Byte>)
    requires |v.protoName| <= MAX_STRING_LENGTH
    ensures ReadString(EncodeVariableHeader(v).value + pl).Some?
    ensures ReadString(EncodeVariableHeader(v).value + pl).value.0 == v.protoName
  {
    var tail := [v.protoLevel, v.connectFlags] + EncodeU16(v.keepAlive);
    assert EncodeVariableHeader(v).value + pl == EncodeString(v.protoName).value + (tail + pl);
    StringRoundTrip(v.protoName, tail + pl);
  }

  /** Any protocol name but "MQTT" is rejected, whatever the rest of the packet holds. */
  lemma ProtocolNameGate(p: ConnectPacket)
    requires Encodable(p) && IsConnectHeader(p.fixedHeader)
    requires p.variableHeader.protoName != PROTOCOL_NAME
    ensures DecodeConnect(EncodeConnect(p).value) == Failure(MalformedPacket(BadProtocolName))
  {
    DecodeOfEncoding(p, []);
    assert EncodeConnect(p).value + [] == EncodeConnect(p).value;
    NameFirst(p.variableHeader, EncodePayload(p.payload, p.variableHeader).value);
  }

  /** The bytes of the variable header "MQTT" at the front of a body. */
  lemma MqttBodyBytes(v: ConnectVariableHeader, pl: seq<Byte>)
    requires v.protoName == PROTOCOL_NAME
    ensures var body := EncodeVariableHeader(v).value + pl;
      && 8 <= |body| && body[..6] == [0, 4] + PROTOCOL_NAME && body[7] == v.connectFlags
  {
    var body := EncodeVariableHeader(v).value + pl;
    assert body[..6] == EncodeVariableHeader(v).value[..6];
  }

  /** A set reserved bit is rejected, whatever the rest of the packet holds. */
  lemma ReservedFlagGate(p: ConnectPacket)
    requires Encodable(p) && IsConnectHeader(p.fixedHeader)
    requires p.variableHeader.protoName == PROTOCOL_NAME && p.variableHeader.ReservedFlag()
    ensures DecodeConnect(EncodeConnect(p).value) == Failure(MalformedPacket(ReservedFlagSet))
  {
    var v := p.variableHeader;
    var body := EncodeVariableHeader(v).value + EncodePayload(p.payload, v).value;
    DecodeOfEncoding(p, []);
    assert EncodeConnect(p).value + [] == EncodeConnect(p).value;
    MqttBodyBytes(v, EncodePayload(p.payload, v).value);
  }

  /**
   * Cut anywhere before its end, bytes that start with a CONNECT header
   * declaring a body of `n` bytes, followed by that body, are rejected.
   */
  lemma PrefixFails(bytes: seq<Byte>, n: nat, k: nat)
    requires n <= MAX_REMAINING_LENGTH
    requires |bytes| == 1 + |EncodeVarint(n)| + n
    requires bytes[0] / 0x10 == CONNECT && bytes[0] % 0x10 == 0
    requires bytes[1 .. 1 + |EncodeVarint(n)|] == EncodeVarint(n)
    requires k < |bytes|
    ensures DecodeConnect(bytes[..k]) == Failure(MalformedPacket(Truncated))
         || DecodeConnect(bytes[..k]) == Failure(MalformedPacket(IncompleteBody))
  {
    var len := EncodeVarint(n);
    if k == 0 {
    } else if k < 1 + |len| {
      HeaderCut(bytes, n, k);
    } else {
      BodyCut(bytes, n, k);
    }
  }

  /** Cut inside the Remaining Length, the header is truncated. */
  lemma HeaderCut(bytes: seq<Byte>, n: nat, k: nat)
    requires n <= MAX_REMAINING_LENGTH
    requires 1 + |EncodeVarint(n)| <= |bytes|
    requires bytes[1 .. 1 + |EncodeVarint(n)|] == EncodeVarint(n)
    requires 0 < k < 1 + |EncodeVarint(n)|
    ensures DecodeFixedHeader(bytes[..k]) == Failure(MalformedPacket(Truncated))
         || DecodeFixedHeader(bytes[..k]) == Failure(MalformedPacket(BadPacketType))
  {
    var t := bytes[..k];
    assert t[1..] == EncodeVarint(n)[..k - 1];
    VarintPrefixTruncated(n, k - 1);
  }

  /** Cut after the fixed header, fewer bytes than declared are left. */
  lemma BodyCut(bytes: seq<Byte>, n: nat, k: nat)
    requires n <= MAX_REMAINING_LENGTH
    requires |bytes| == 1 + |EncodeVarint(n)| + n
    requires bytes[0] / 0x10 == CONNECT && bytes[0] % 0x10 == 0
    requires bytes[1 .. 1 + |EncodeVarint(n)|] == EncodeVarint(n)
    requires 1 + |EncodeVarint(n)| <= k < |bytes|
    ensures DecodeConnect(bytes[..k]) == Failure(MalformedPacket(IncompleteBody))
  {
    var t := bytes[..k];
    var len := EncodeVarint(n);
    assert DecodeFixedHeader(t) == Success((FixedHeader(CONNECT, 0, n), 1 + |len|)) by {
      assert t[1..] == len + bytes[1 + |len| .. k];
      VarintRoundTrip(n, bytes[1 + |len| .. k]);
      assert t[0] == bytes[0];
    }
  }

  /**
   * Truncation: every proper prefix of a valid packet's encoding is
   * rejected; the stream ends inside the fixed header or inside the body.
   */
  lemma TruncationFails(p: ConnectPacket, k: nat)
    requires Valid(p)
    requires k < |EncodeConnect(p).value|
    ensures DecodeConnect(EncodeConnect(p).value[..k]) == Failure(MalformedPacket(Truncated))
         || DecodeConnect(EncodeConnect(p).value[..k]) == Failure(MalformedPacket(IncompleteBody))
  {
    BodySizeFits(p);
    PrefixFails(EncodeConnect(p).value, BodySize(p), k);
  }

  /** Whatever the decoder accepts is a valid packet: the decoder's checks are exactly Valid's. */
  lemma DecodedIsValid(bytes: seq<Byte>)
    requires DecodeConnect(bytes).Success?
    ensures Valid(DecodeConnect(bytes).value)
  {
    var (h, n) := DecodeFixedHeader(bytes).value;
    DecodeConnectFrom(bytes, h, n);
  }

  /** Decoding reads nothing past the packet: appending bytes changes no success. */
  lemma DecodeIgnoresTrailing(bytes: seq<Byte>, rest: seq<Byte>)
    requires DecodeConnect(bytes).Success?
    ensures DecodeConnect(bytes + rest) == DecodeConnect(bytes)
  {
    var (h, n) := DecodeFixedHeader(bytes).value;
    var body := bytes[n .. n + h.remainingLength];
    assert DecodeFixedHeader(bytes + rest) == Success((h, n)) by {
      DecodeFixedHeaderPrefix(bytes, rest);
    }
    assert (bytes + rest)[n .. n + h.remainingLength] == body;
    DecodeConnectFrom(bytes, h, n);
    DecodeConnectFrom(bytes + rest, h, n);
  }

  /** Past a CONNECT fixed header, decoding is decoding the declared body. */
  lemma DecodeConnectFrom(bytes: seq<Byte>, h: FixedHeader, n: nat)
    requires DecodeFixedHeader(bytes) == Success((h, n))
    requires IsConnectHeader(h) && n + h.remainingLength <= |bytes|
    ensures DecodeConnect(bytes) == DecodeConnectBody(h, bytes[n .. n + h.remainingLength])
  {
    var header := DecodeFixedHeader(bytes);
    assert !header.IsFailure() && header.Extract() == (h, n);
  }

  /** An optional field read from the front of `s` re-encodes to exactly the bytes it took. */
  lemma ReadOptionalEncodes(s: seq<Byte>, flag: bool, missing: Reason)
    requires ReadOptional(s, flag, missing).Success?
    ensures var (field, rest) := ReadOptional(s, flag, missing).value;
      EncodeOptional(field, flag).Success? && EncodeOptional(field, flag).value + rest == s
  {
    if flag {
      ReadStringEncodes(s);
    } else {
      assert [] + s == s;
    }
  }

  /**
   * Decode then encode: a payload read from the front of `s` re-encodes to
   * exactly the bytes it was read from, a prefix of `s`.
   */
  lemma DecodePayloadEncodes(s: seq<Byte>, vh: ConnectVariableHeader)
    requires DecodePayload(s, vh).Success?
    ensures var pl := DecodePayload(s, vh).value;
      && EncodePayload(pl, vh).Success?
      && |EncodePayload(pl, vh).value| <= |s|
      && s[..|EncodePayload(pl, vh).value|] == EncodePayload(pl, vh).value
  {
    var pl := DecodePayload(s, vh).value;
    var c := ReadField(s, MissingClientId).value;
    var wt := ReadOptional(c.1, vh.WillFlag(), MissingWillTopic).value;
    var wm := ReadOptional(wt.1, vh.WillFlag(), MissingWillMessage).value;
    var u := ReadOptional(wm.1, vh.UsernameFlag(), MissingUsername).value;
    var pw := ReadOptional(u.1, vh.PasswordFlag(), MissingPassword).value;
    assert pl == ConnectPayload(c.0, wt.0, wm.0, u.0, pw.0);
    ReadStringEncodes(s);
    ReadOptionalEncodes(c.1, vh.WillFlag(), MissingWillTopic);
    ReadOptionalEncodes(wt.1, vh.WillFlag(), MissingWillMessage);
    ReadOptionalEncodes(wm.1, vh.UsernameFlag(), MissingUsername);
    ReadOptionalEncodes(u.1, vh.PasswordFlag(), MissingPassword);
    PayloadBytes(pl, vh, pw.1);
    var enc := EncodePayload(pl, vh).value;
    assert s == enc + pw.1;
    assert s[..|enc|] == enc;
  }
}
