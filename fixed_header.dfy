/**
 * The fixed header every MQTT 3.1.1 Control Packet starts with (section 2.2):
 * one byte holding the packet type (high nibble) and its flags (low nibble),
 * then the Remaining Length as a variable-length integer.
 */
module FixedHeaders {
  import opened Wire

  type Nibble = x: int | 0 <= x < 0x10

  /** Packet type 1, the client's connection request. */
  const CONNECT: Nibble := 1

  datatype FixedHeader = FixedHeader(packetType: Nibble, flags: Nibble, remainingLength: nat)

  /** Type and flags share the first byte, type in the high nibble. */
  function TypeAndFlags(h: FixedHeader): (b: Byte)
    ensures b / 0x10 == h.packetType && b % 0x10 == h.flags
  {
    h.packetType * 0x10 + h.flags
  }

  /** The header's bytes; fails when the Remaining Length needs more than four bytes. */
  function EncodeFixedHeader(h: FixedHeader): (r: Result<seq<Byte>, EncodeError>)
    ensures r.Success? <==> h.remainingLength <= MAX_REMAINING_LENGTH
    ensures r.Success? ==>
      && 2 <= |r.value| <= 1 + MAX_VARINT_BYTES
      && r.value[0] / 0x10 == h.packetType && r.value[0] % 0x10 == h.flags
      && r.value[1..] == EncodeVarint(h.remainingLength)
    ensures r.Failure? ==> r.error == RemainingLengthTooLarge
  {
    if h.remainingLength <= MAX_REMAINING_LENGTH then
      EncodeVarintFits(h.remainingLength);
      Success([TypeAndFlags(h)] + EncodeVarint(h.remainingLength))
    else
      Failure(RemainingLengthTooLarge)
  }

  /**
   * Reads the fixed header from the front of `s`; yields it with its size in
   * bytes. The reserved packet type 0 is rejected before the Remaining Length
   * is read.
   */
  function DecodeFixedHeader(s: seq<Byte>): (r: Result<(FixedHeader, nat), DecodeError>)
    ensures r.Success? ==>
      var (h, n) := r.value;
      && 2 <= n <= 1 + MAX_VARINT_BYTES && n <= |s|
      && h.packetType != 0
      && s[0] / 0x10 == h.packetType && s[0] % 0x10 == h.flags
      && DecodeVarint(s[1..], MAX_VARINT_BYTES) == Success((h.remainingLength, n - 1))
      && h.remainingLength <= MAX_REMAINING_LENGTH
    ensures |s| == 0 ==> r == Failure(MalformedPacket(Truncated))
    ensures |s| > 0 && s[0] / 0x10 == 0 ==> r == Failure(MalformedPacket(BadPacketType))
  {
    if |s| == 0 then Failure(MalformedPacket(Truncated))
    else if s[0] / 0x10 == 0 then Failure(MalformedPacket(BadPacketType))
    else
      var len :- DecodeVarint(s[1..], MAX_VARINT_BYTES);
      DecodeVarintBound(s[1..]);
      Success((FixedHeader(s[0] / 0x10, s[0] % 0x10, len.0), 1 + len.1))
  }

  /** What the header decoder yields once the first byte and the Remaining Length are known. */
  lemma DecodeFixedHeaderOf(s: seq<Byte>, h: FixedHeader, n: nat)
    requires |s| > 0 && s[0] == TypeAndFlags(h) && h.packetType != 0
    requires DecodeVarint(s[1..], MAX_VARINT_BYTES) == Success((h.remainingLength, n))
    ensures DecodeFixedHeader(s) == Success((h, 1 + n))
  {
  }

  /** Round trip: a header of a real packet type reads back with its exact size. */
  lemma FixedHeaderRoundTrip(h: FixedHeader, rest: seq<Byte>)
    requires h.packetType != 0 && h.remainingLength <= MAX_REMAINING_LENGTH
    ensures var enc := EncodeFixedHeader(h).value;
      DecodeFixedHeader(enc + rest) == Success((h, |enc|))
  {
    HeaderPieces(h, rest);
    DecodePieces(h, rest, EncodeFixedHeader(h).value + rest);
  }

  /** An encoded header followed by `rest`, as first byte and the rest. */
  lemma HeaderPieces(h: FixedHeader, rest: seq<Byte>)
    requires h.remainingLength <= MAX_REMAINING_LENGTH
    ensures EncodeFixedHeader(h).value + rest == [TypeAndFlags(h)] + (EncodeVarint(h.remainingLength) + rest)
  {
  }

  /** The header reads back from its first byte and its Remaining Length bytes. */
  lemma DecodePieces(h: FixedHeader, rest: seq<Byte>, s: seq<Byte>)
    requires h.packetType != 0 && h.remainingLength <= MAX_REMAINING_LENGTH
    requires s == [TypeAndFlags(h)] + (EncodeVarint(h.remainingLength) + rest)
    ensures DecodeFixedHeader(s) == Success((h, 1 + |EncodeVarint(h.remainingLength)|))
  {
    var len := EncodeVarint(h.remainingLength);
    assert s[0] == TypeAndFlags(h) && s[1..] == len + rest;
    VarintRoundTrip(h.remainingLength, rest);
    DecodeFixedHeaderOf(s, h, |len|);
  }

  /** The header decoder never looks past the header's own bytes. */
  lemma DecodeFixedHeaderPrefix(s: seq<Byte>, rest: seq<Byte>)
    requires DecodeFixedHeader(s).Success?
    ensures DecodeFixedHeader(s + rest) == DecodeFixedHeader(s)
  {
    assert (s + rest)[1..] == s[1..] + rest;
    DecodeVarintPrefix(s[1..], rest, MAX_VARINT_BYTES);
  }
}
