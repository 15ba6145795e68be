# MQTT 3.1.1 CONNECT packet codec, modelled and verified in Dafny

This project models the CONNECT packet codec of hbmqtt, an MQTT 3.1.1
client and broker library. The codec turns a `ConnectPacket` into bytes,
which is `to_bytes`. It reads one back from a stream, which is
`ConnectPacket.from_stream`. A packet holds three parts:

- the fixed header (`MQTTFixedHeader`): packet type, flags, Remaining Length;
- the variable header (`ConnectVariableHeader`): protocol name, protocol
  level, connect flags, keep-alive;
- the payload (`ConnectPayload`): client identifier, will topic, will
  message, user name, password.

The model is of that codec, but it is built without the text of its own
file, `hbmqtt/mqtt/connect.py`. Its behaviour comes from two places. The
unit tests in `tests/mqtt/test_connect.py` pin it to exact bytes. The MQTT
3.1.1 standard supplies the wire format that those bytes follow.

Modules:

- `Wire` (`wire.dfy`): bytes, 16-bit big-endian integers (section 1.5.2 of
  MQTT 3.1.1), length-prefixed strings (section 1.5.3) and the
  variable-length integer that carries the Remaining Length (section 2.2.3).
  The section covers both encoding and decoding, with round trips and the
  exact conditions for each failure.
- `FixedHeaders` (`fixed_header.dfy`): the first byte, which holds the type
  and the flags nibble, and the Remaining Length.
- `Connect` (`connect.dfy`): the CONNECT variable header and payload, the
  packet encoder and the packet decoder.
  - The decoder reads the fixed header. It then cuts out exactly Remaining
    Length bytes of body and decodes the variable header and the payload
    from that body alone. A field missing at the body's end is therefore
    caught there.
  - The encoder serialises the body first and writes the body's size as the
    Remaining Length. The length carried by the header it is given is
    ignored.
  - The properties proved here are these:
    - the round trip;
    - rejection of any protocol name other than "MQTT" and of the reserved
      flag;
    - rejection of every truncation;
    - that whatever the decoder accepts is valid;
    - that bytes after the packet are never read.
- `Streams` (`stream.dfy`): a byte stream class with a buffer that is fed and
  consumed, plus readers for the Remaining Length, the fixed header and the
  whole packet. The readers consume the stream one read after another.
  Each one is proved to return what the pure decoder returns for the same
  bytes and to consume exactly the bytes that decoder accounts for.
- `ConnectFixtures` (`connect_fixtures.dfy`): every test fixture as bytes,
  together with the outcome its test expects, proved about the model.

The decoder applies these checks, in this order (the order is the model's
own; see "## Left out"):

1. The first byte must not be packet type 0. This is checked before the
   Remaining Length is read.
2. The Remaining Length must be complete. A fourth byte that still has its
   continuation bit set is rejected.
3. The packet type must be 1 (CONNECT) and the flags nibble must be 0
   (section 2.2.2). Both are checked only once the Remaining Length has
   been decoded.
4. The declared body must be present in full.
5. The protocol name must be complete and must be "MQTT". A body that ends
   inside the name's length or bytes is rejected as truncated.
6. The protocol level and the connect flags must be present, and bit 0 of
   the connect flags must be 0. The bit is checked before the keep-alive
   bytes are known to be present.
7. The two keep-alive bytes must be present; otherwise the body is rejected
   as truncated.
8. The client identifier must be present. Each of the will topic, will
   message, user name and password must be present when its flag is set,
   and is not read otherwise.

Every rejection is one error constructor, `MalformedPacket`. Its reason
field says which check failed. All of them stand for the single exception
type the tests expect, `MQTTException`.

## Model

| member | source | states |
|---|---|---|
| Wire.DecodeU16 | tests/mqtt/test_connect.py:16 | the number two bytes spell has the first byte as its high byte and the second as its low byte |
| Wire.EncodeU16 | tests/mqtt/test_connect.py:16 | two bytes, most significant first, that read back as the number (keep-alive `00 00`, string lengths `00 0a`) |
| Wire.EncodeString | tests/mqtt/test_connect.py:84-87 | a string is written as its 16-bit byte count and then its bytes; fails exactly when it is longer than 65535 bytes |
| Wire.ReadString | tests/mqtt/test_connect.py:16 | reading a length-prefixed string fails exactly when the input ends before the declared length; otherwise yields the declared bytes and exactly the bytes after them |
| Wire.ReadStringEncodes | tests/mqtt/test_connect.py:16-33 | a string read from the front of the input re-encodes to exactly the bytes it was read from |
| Wire.StringRoundTrip | tests/mqtt/test_connect.py:16-33 | an encoded string followed by anything reads back as itself, leaving what follows |
| Wire.DecodeVarint | tests/mqtt/test_connect.py:16 | a decoded Remaining Length ends at the first byte without continuation bit, within four bytes; failure is only truncation or a too-long integer |
| Wire.DecodeVarintValue | tests/mqtt/test_connect.py:16 | the decoded value is the base-128 number the bytes read spell, low digit first |
| Wire.DecodeVarintOutcome | tests/mqtt/test_connect.py:16 | truncation exactly when the input ends on continuation bytes before four; a too-long integer exactly when four continuation bytes are read |
| Wire.EncodeVarint | tests/mqtt/test_connect.py:82-87 | the Remaining Length's encoding starts with its lowest base-128 digit and is the single byte n exactly when n is below 128 (0x3e at line 87) |
| Wire.EncodeVarintDigits | tests/mqtt/test_connect.py:82-87 | the encoding of a length has continuation bits on every byte but the last and its digits spell the length |
| Wire.EncodeVarintFits | tests/mqtt/test_connect.py:82-87 | any length up to 268435455 encodes in at most four bytes |
| Wire.DecodeVarintBound | tests/mqtt/test_connect.py:16 | a decoded Remaining Length never exceeds 268435455 |
| Wire.DecodeVarintAt | tests/mqtt/test_connect.py:16 | the position of the first byte without continuation bit fixes the decoded value and length |
| Wire.VarintRoundTrip | tests/mqtt/test_connect.py:82-87 | a length decodes from its encoding, followed by anything, with the encoding's exact size |
| Wire.DecodeVarintPrefix | tests/mqtt/test_connect.py:16 | bytes after the integer do not change its decoding |
| Wire.VarintPrefixTruncated | tests/mqtt/test_connect.py:50-55 | every proper prefix of an encoding decodes as truncated |
| FixedHeaders.TypeAndFlags | tests/mqtt/test_connect.py:82 | the first byte carries the packet type in the high nibble and the flags in the low nibble |
| FixedHeaders.EncodeFixedHeader | tests/mqtt/test_connect.py:82-87 | the header is the type-and-flags byte then the encoded Remaining Length; fails exactly when the length exceeds 268435455 |
| FixedHeaders.DecodeFixedHeader | tests/mqtt/test_connect.py:16 | a decoded header has a non-zero type, the first byte's nibbles and the decoded Remaining Length, and its size; empty input is truncated, type 0 is rejected |
| FixedHeaders.FixedHeaderRoundTrip | tests/mqtt/test_connect.py:82-87 | a header reads back from its encoding, followed by anything, with its exact size |
| FixedHeaders.DecodeFixedHeaderPrefix | tests/mqtt/test_connect.py:16 | bytes after the header do not change its decoding |
| Connect.ConnectVariableHeader.UsernameFlag | tests/mqtt/test_connect.py:22 | the user name flag is bit 7: set exactly when the flags byte is at least 0x80 |
| Connect.ConnectVariableHeader.PasswordFlag | tests/mqtt/test_connect.py:23 | the password flag is bit 6: set exactly when the low seven bits are at least 0x40 |
| Connect.ConnectVariableHeader.WillRetainFlag | tests/mqtt/test_connect.py:24 | the will retain flag is bit 5: set exactly when the low six bits are at least 0x20 |
| Connect.ConnectVariableHeader.WillQos | tests/mqtt/test_connect.py:25 | the will QoS is the two-bit field of bits 4-3: below 4, and eight times it is the byte's bits 4-3 in place |
| Connect.ConnectVariableHeader.WillFlag | tests/mqtt/test_connect.py:26 | the will flag is bit 2: set exactly when the low three bits are at least 0x04 |
| Connect.ConnectVariableHeader.CleanSessionFlag | tests/mqtt/test_connect.py:27 | the clean session flag is bit 1: set exactly when the low two bits are at least 0x02 |
| Connect.ConnectVariableHeader.ReservedFlag | tests/mqtt/test_connect.py:28 | the reserved flag is bit 0: set exactly when the flags byte is at least 1 and one less than it is even |
| Connect.ComposeConnectFlags | tests/mqtt/test_connect.py:83 | the flags byte assembled from its sub-fields has bit 7 exactly for the user name flag and bit 0 exactly for the reserved flag (FlagsCompose reads back all of them) |
| Connect.FlagsCompose | tests/mqtt/test_connect.py:22-28 | each flag and the will QoS read back from the connect-flags byte they are assembled into |
| Connect.FlagsDecompose | tests/mqtt/test_connect.py:20-28 | a connect-flags byte is recovered from its flags and will QoS: the decomposition loses nothing |
| Connect.BodySizeFits | tests/mqtt/test_connect.py:85-87 | the body of any encodable CONNECT packet fits the Remaining Length limit |
| Connect.WithBodySize | tests/mqtt/test_connect.py:82-87 | the packet as it reads back: same headers and payload, Remaining Length replaced by the body size |
| Connect.EncodeVariableHeader | tests/mqtt/test_connect.py:83-87 | the variable header encodes exactly when the protocol name fits, into name field plus four bytes |
| Connect.EncodeOptional | tests/mqtt/test_connect.py:84-87 | an optional field is written exactly when its flag is set; fails exactly when flagged but absent or too long |
| Connect.EncodePayload | tests/mqtt/test_connect.py:84-87 | the payload encodes exactly when every field it must write is present and fits, to the size the flags determine |
| Connect.EncodeConnect | tests/mqtt/test_connect.py:81-87 | the packet encodes exactly when encodable; its first byte is the header's type and flags and its Remaining Length is the body's size, not the header's |
| Connect.DecodeVariableHeader | tests/mqtt/test_connect.py:35-47 | a decoded variable header is the body's first ten bytes with name "MQTT" and bit 0 clear; a missing name is truncation, another name is rejected, a set reserved bit is rejected |
| Connect.ReadField | tests/mqtt/test_connect.py:49-55 | a mandatory field fails exactly when no complete string is left, with the given reason |
| Connect.ReadOptional | tests/mqtt/test_connect.py:57-79 | an unflagged field is not read; a flagged one fails exactly when no complete string is left, with the given reason, and otherwise is the string read and the bytes after it |
| Connect.DecodePayload | tests/mqtt/test_connect.py:49-79 | a decoded payload holds each optional field exactly when its flag is set, fits the body and re-encodes; no client identifier is rejected |
| Connect.ReadOptionalEncodes | tests/mqtt/test_connect.py:29-33 | an optional field read from the front of the input re-encodes to exactly the bytes it took |
| Connect.DecodePayloadEncodes | tests/mqtt/test_connect.py:29-33 | decode then encode: a decoded payload re-encodes to exactly the prefix of the input it was read from |
| Connect.DecodeConnectBody | tests/mqtt/test_connect.py:15-79 | a decoded body gives a packet with name "MQTT", bit 0 clear, fields matching flags, encodable and no larger than the body |
| Connect.DecodeConnect | tests/mqtt/test_connect.py:15-79 | a decoded packet carries the decoded fixed header, its body lies within the input and is no larger than the declared length |
| Connect.VariableHeaderRoundTrip | tests/mqtt/test_connect.py:16-28 | a variable header named "MQTT" with bit 0 clear reads back from its encoding, leaving what follows |
| Connect.ReadOptionalRoundTrip | tests/mqtt/test_connect.py:30-33 | an optional field present exactly when flagged reads back from its encoding |
| Connect.PayloadRoundTrip | tests/mqtt/test_connect.py:29-33 | a payload whose fields match its flags reads back from its encoding, whatever follows |
| Connect.DecodeOfEncoding | tests/mqtt/test_connect.py:82-87 | decoding an encoded packet is decoding its encoded body under the header with the recomputed length |
| Connect.RoundTrip | tests/mqtt/test_connect.py:81-87 | a valid packet decodes from its encoding, followed by anything, to itself with the Remaining Length recomputed |
| Connect.RoundTripExact | tests/mqtt/test_connect.py:81-87 | a valid packet whose header already declares its body size reads back unchanged |
| Connect.ProtocolNameGate | tests/mqtt/test_connect.py:35-40 | any protocol name other than "MQTT" is rejected, whatever the rest of the packet holds |
| Connect.ReservedFlagGate | tests/mqtt/test_connect.py:42-47 | a set reserved flag is rejected, whatever the rest of the packet holds |
| Connect.TruncationFails | tests/mqtt/test_connect.py:49-79 | every proper prefix of a valid packet's encoding is rejected as truncated or as an incomplete body |
| Connect.DecodedIsValid | tests/mqtt/test_connect.py:15-33 | whatever the decoder accepts satisfies every check it applies: header, name, reserved bit, fields matching flags, encodable |
| Connect.DecodeIgnoresTrailing | tests/mqtt/test_connect.py:17-19 | a successful decode reads nothing past the packet: appending bytes does not change it |
| Connect.DecodeConnectFrom | tests/mqtt/test_connect.py:49-79 | past a CONNECT fixed header, decoding the packet is decoding exactly the declared body |
| ConnectFixtures.TestDecodeOk | tests/mqtt/test_connect.py:15-33 | the 64-byte fixture decodes with name "MQTT", level 4, the seven flags as asserted, keep-alive 0 and the five payload strings |
| ConnectFixtures.TestDecodeFailProtocolName | tests/mqtt/test_connect.py:35-40 | the fixture named "TTQM" is rejected for its protocol name |
| ConnectFixtures.TestDecodeFailReservedFlag | tests/mqtt/test_connect.py:42-47 | the fixture with connect flags 0xcf is rejected for its reserved bit |
| ConnectFixtures.TestDecodeFailMissClientId | tests/mqtt/test_connect.py:49-55 | the ten-byte body is rejected for its missing client identifier |
| ConnectFixtures.TestDecodeFailMissWillTopic | tests/mqtt/test_connect.py:57-63 | the body ending after the client identifier is rejected for its missing will topic |
| ConnectFixtures.TestDecodeFailMissUsername | tests/mqtt/test_connect.py:65-71 | the body ending after the will message is rejected for its missing user name |
| ConnectFixtures.TestDecodeFailMissPassword | tests/mqtt/test_connect.py:73-79 | the body ending after the user name is rejected for its missing password |
| ConnectFixtures.TestEncode | tests/mqtt/test_connect.py:81-87 | the packet built with Remaining Length 0 encodes to exactly the 64 fixture bytes, whose length byte is 0x3e |
| ConnectFixtures.TestEncodeDecodes | tests/mqtt/test_connect.py:81-87 | the encoding test's output decodes to its own variable header and payload under Remaining Length 0x3e |
| Streams.ByteStream.constructor | tests/mqtt/test_connect.py:17 | a new stream holds no bytes |
| Streams.ByteStream.FeedData | tests/mqtt/test_connect.py:18 | fed bytes are appended to the buffer |
| Streams.ByteStream.ReadExactly | tests/mqtt/test_connect.py:53-55 | a read of n bytes takes the buffer's first n bytes; at the end of the stream with fewer left it yields nothing and empties the buffer |
| Streams.ReadRemainingLength | tests/mqtt/test_connect.py:16-19 | reading the Remaining Length byte by byte gives what the pure decoder gives; it consumes exactly its bytes on success, everything when the stream ends first, and four bytes when the integer is too long |
| Streams.ReadFixedHeader | tests/mqtt/test_connect.py:16-19 | reading the fixed header from the stream gives what the pure decoder gives; it consumes the header on success, the first byte for type 0, five bytes for a too-long Remaining Length and everything when the stream ends first |
| Streams.FromStream | tests/mqtt/test_connect.py:15-19 | reading a packet from the stream gives what the pure decoder gives; it consumes header and body once both are there, only the header when type or flags are wrong, and everything when the body is incomplete |

## Left out

- The asyncio event loop. A read never suspends waiting for data: the
  buffered bytes are treated as all there is, as after `feed_eof`. This is
  a concurrency concern.
- The `MQTTException` hierarchy. Every decoding failure is the single
  constructor `MalformedPacket`, with a reason that tells the model's cases
  apart.
- The other MQTT packet types, the broker, sessions and keep-alive timing.
- Rejection of will QoS 3 (section 3.1.2.6 of MQTT 3.1.1) and of a password
  without a user name (section 3.1.2.9). The standard requires both
  rejections; the model accepts both, and the tests do not exercise either.
- Rejection of will QoS or will retain set while the will flag is clear.
  Sections 3.1.2.6 and 3.1.2.7 require it. The model accepts any flags byte
  with bit 0 clear; for example flags 0x28 decode with the will flag clear,
  will QoS 1 and will retain set.
- The protocol level is read but not checked.
- Rejection of a zero-byte client identifier while the clean session flag
  is clear (section 3.1.3.1). The model accepts it: the body `00 00` under
  connect flags 0x00 decodes to an empty client identifier and no other
  field.
- UTF-8 well-formedness of strings. Strings are byte sequences; every
  fixture string is ASCII.
- Rejection of bytes left in the body after the last field its flags call
  for. The decoder stops reading once the last such field is read.
- The text of `hbmqtt/mqtt/connect.py`, `hbmqtt/mqtt/packet.py` and
  `hbmqtt/errors.py`. The model is built from the tests and the standard
  without it. Where the tests leave the behaviour open, the
  model takes these from the MQTT 3.1.1 standard:
  - the flags nibble of 0 for CONNECT (section 2.2.2);
  - rejection of packet type 0, which the standard reserves (section 2.2.1);
  - the Remaining Length format, multi-byte encoding and decoding included,
    and its four-byte limit (section 2.2.3); every fixture length is one byte;
  - the 65535-byte limit on strings (section 1.5.3);
  - decoding the variable header and payload only from the Remaining Length
    bytes of body (section 2.2.3).
- The order of checks listed above is the model's own choice; the standard
  fixes the order of fields on the wire, not an order of validation, and
  the tests fix only that each failing fixture fails.
- The model applies none of the standard's CONNECT checks beyond those in
  the list of checks above; the lines above name the ones that bear on the
  fields of the tests.
