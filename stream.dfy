/**
 * Reading a CONNECT packet off a byte stream, one read after another, the
 * way the codec's `from_stream` readers consume their input. The stream is
 * one whose data has all been fed and whose end has been marked: a read
 * that asks for more than is buffered ends the stream instead of waiting.
 * Each reader is proved to do exactly what the pure decoder of the same
 * bytes says, and to consume exactly the bytes that decoder accounts for.
 */
module Streams {
  import opened Wire
  import opened FixedHeaders
  import opened Connect

  /** The buffered bytes of a stream, consumed from the front. */
  class ByteStream {
    var buffer: seq<Byte>

    constructor ()
      ensures buffer == []
    {
      buffer := [];
    }

    /** Appends bytes that have arrived. */
    method FeedData(data: seq<Byte>)
      modifies this
      ensures buffer == old(buffer) + data
    {
      buffer := buffer + data;
    }

    /**
     * Takes exactly `n` bytes off the front. At the end of the stream with
     * fewer bytes left, the partial read takes what is left and yields nothing.
     */
    method ReadExactly(n: nat) returns (r: Option<seq<Byte>>)
      modifies this
      ensures n <= |old(buffer)| ==> r == Some(old(buffer)[..n]) && buffer == old(buffer)[n..]
      ensures n > |old(buffer)| ==> r == None && buffer == []
    {
      if n <= |buffer| {
        r := Some(buffer[..n]);
        buffer := buffer[n..];
      } else {
        r := None;
        buffer := [];
      }
    }
  }

  /**
   * Reads the Remaining Length one byte at a time, adding each byte's low
   * seven bits at the next power of 128 and stopping at the first byte whose
   * continuation bit is clear; a fifth byte is never read.
   */
  method ReadRemainingLength(reader: ByteStream) returns (r: Result<(nat, nat), DecodeError>)
    modifies reader
    ensures r == DecodeVarint(old(reader.buffer), MAX_VARINT_BYTES)
    ensures r.Success? ==> reader.buffer == old(reader.buffer)[r.value.1..]
    ensures r == Failure(MalformedPacket(Truncated)) ==> reader.buffer == []
    ensures r == Failure(MalformedPacket(BadRemainingLength)) ==>
      MAX_VARINT_BYTES <= |old(reader.buffer)| && reader.buffer == old(reader.buffer)[MAX_VARINT_BYTES..]
  {
    ghost var input := reader.buffer;
    var value: nat := 0;
    var multiplier: nat := 1;
    var count: nat := 0;
    while count < MAX_VARINT_BYTES
      invariant count <= MAX_VARINT_BYTES && count <= |input|
      invariant reader.buffer == input[count..]
      invariant AllContinue(input, count)
      invariant value == DigitsValue(input[..count])
      invariant multiplier == Pow128(count)
      decreases MAX_VARINT_BYTES - count
    {
      var read := reader.ReadExactly(1);
      if read.None? {
        DecodeVarintOutcome(input, MAX_VARINT_BYTES);
        return Failure(MalformedPacket(Truncated));
      }
      var b := read.value[0];
      assert input[..count + 1] == input[..count] + [b];
      DigitsValueAppend(input[..count], b);
      value := value + (b % 0x80) * multiplier;
      count := count + 1;
      if b < 0x80 {
        DecodeVarintAt(input, count, MAX_VARINT_BYTES);
        return Success((value, count));
      }
      multiplier := multiplier * 0x80;
    }
    DecodeVarintOutcome(input, MAX_VARINT_BYTES);
    return Failure(MalformedPacket(BadRemainingLength));
  }

  /**
   * What reading a fixed header with outcome `r` leaves of `input`: the
   * header's bytes are gone on success; the first byte is gone when its type
   * is rejected, four more when the Remaining Length is too long; nothing is
   * left when the stream ends first.
   */
  predicate HeaderConsumed(r: Result<(FixedHeader, nat), DecodeError>, input: seq<Byte>, left: seq<Byte>) {
    match r
    case Success((_, n)) => n <= |input| && left == input[n..]
    case Failure(MalformedPacket(Truncated)) => left == []
    case Failure(MalformedPacket(BadPacketType)) => 1 <= |input| && left == input[1..]
    case Failure(MalformedPacket(BadRemainingLength)) =>
      1 + MAX_VARINT_BYTES <= |input| && left == input[1 + MAX_VARINT_BYTES..]
    case Failure(_) => false
  }

  /** Reads the fixed header: the type-and-flags byte, then the Remaining Length. */
  method ReadFixedHeader(reader: ByteStream) returns (r: Result<(FixedHeader, nat), DecodeError>)
    modifies reader
    ensures r == DecodeFixedHeader(old(reader.buffer))
    ensures HeaderConsumed(r, old(reader.buffer), reader.buffer)
  {
    ghost var input := reader.buffer;
    var first := reader.ReadExactly(1);
    if first.None? {
      return Failure(MalformedPacket(Truncated));
    }
    var b := first.value[0];
    if b / 0x10 == 0 {
      return Failure(MalformedPacket(BadPacketType));
    }
    var len := ReadRemainingLength(reader);
    if len.Failure? {
      return Failure(len.error);
    }
    DecodeVarintBound(input[1..]);
    r := Success((FixedHeader(b / 0x10, b % 0x10, len.value.0), 1 + len.value.1));
  }

  /**
   * Reads one CONNECT packet: the fixed header, then its declared body in
   * one read, then the variable header and payload from that body.
   */
  method FromStream(reader: ByteStream) returns (r: Result<ConnectPacket, DecodeError>)
    modifies reader
    ensures r == DecodeConnect(old(reader.buffer))
    ensures DecodeFixedHeader(old(reader.buffer)).Failure? ==>
      HeaderConsumed(DecodeFixedHeader(old(reader.buffer)), old(reader.buffer), reader.buffer)
    ensures DecodeFixedHeader(old(reader.buffer)).Success? ==>
      var (h, n) := DecodeFixedHeader(old(reader.buffer)).value;
      if !IsConnectHeader(h) then reader.buffer == old(reader.buffer)[n..]
      else if n + h.remainingLength > |old(reader.buffer)| then reader.buffer == []
      else reader.buffer == old(reader.buffer)[n + h.remainingLength..]
  {
    ghost var input := reader.buffer;
    var header := ReadFixedHeader(reader);
    if header.Failure? {
      return Failure(header.error);
    }
    var (h, n) := header.value;
    if h.packetType != CONNECT {
      return Failure(MalformedPacket(BadPacketType));
    }
    if h.flags != 0 {
      return Failure(MalformedPacket(BadHeaderFlags));
    }
    var body := reader.ReadExactly(h.remainingLength);
    if body.None? {
      return Failure(MalformedPacket(IncompleteBody));
    }
    assert body.value == input[n .. n + h.remainingLength];
    DecodeConnectFrom(input, h, n);
    r := DecodeConnectBody(h, body.value);
  }
}
