/**
 * Wire primitives of MQTT 3.1.1: bytes, 16-bit big-endian integers
 * (section 1.5.2), length-prefixed strings (section 1.5.3) and the
 * variable-length integer that carries the Remaining Length (section 2.2.3).
 *
 * Decoders work on a finite byte sequence; reading past its end is the
 * end-of-stream condition.
 */
module Wire {

  type Byte = x: int | 0 <= x < 0x100
  type U16 = x: int | 0 <= x < 0x1_0000

  /** Largest byte count a length-prefixed string can declare. */
  const MAX_STRING_LENGTH: nat := 0xFFFF
  /** Largest value four bytes of variable-length integer can carry. */
  const MAX_REMAINING_LENGTH: nat := 268_435_455
  /** A variable-length integer occupies at most this many bytes. */
  const MAX_VARINT_BYTES: nat := 4

  datatype Option<+T> = None | Some(value: T)

  datatype Result<+T, +E> = Success(value: T) | Failure(error: E) {
    predicate IsFailure() { Failure? }
    function PropagateFailure<U>(): Result<U, E>
      requires Failure?
    {
      Failure(error)
    }
    function Extract(): T
      requires Success?
    {
      value
    }
  }

  /** Why a decode attempt was rejected; every rejection is a malformed packet. */
  datatype Reason =
    | Truncated            // the stream ended inside the fixed or the variable header
    | BadPacketType        // reserved packet type 0, or not the type being decoded
    | BadHeaderFlags       // fixed-header flags that the packet type forbids
    | BadRemainingLength   // a fourth Remaining Length byte still had its continuation bit
    | IncompleteBody       // fewer bytes than the declared Remaining Length
    | BadProtocolName      // CONNECT protocol name other than "MQTT"
    | ReservedFlagSet      // CONNECT connect-flags bit 0 set
    | MissingClientId
    | MissingWillTopic
    | MissingWillMessage
    | MissingUsername
    | MissingPassword

  /** The single error kind of the decoder. */
  datatype DecodeError = MalformedPacket(reason: Reason)

  /** Errors of the encoder: a packet built wrongly, not bytes received wrongly. */
  datatype EncodeError =
    | StringTooLong            // a string longer than MAX_STRING_LENGTH bytes
    | MissingField             // a flag announces a payload field the packet does not hold
    | RemainingLengthTooLarge  // a body longer than MAX_REMAINING_LENGTH bytes

  // ---------------------------------------------------------------- 16-bit integers

  /** Two bytes, most significant first. */
  function EncodeU16(n: U16): (r: seq<Byte>)
    ensures |r| == 2 && DecodeU16(r[0], r[1]) == n
  {
    [n / 0x100, n % 0x100]
  }

  /** The number two bytes spell, most significant first: its high and low bytes are the two. */
  function DecodeU16(msb: Byte, lsb: Byte): (r: U16)
    ensures r / 0x100 == msb && r % 0x100 == lsb
  {
    msb * 0x100 + lsb
  }

  // ---------------------------------------------------------------- strings

  /** A string as it appears on the wire: its byte count in two bytes, then its bytes. */
  function EncodeString(s: seq<Byte>): (r: Result<seq<Byte>, EncodeError>)
    ensures r.Success? <==> |s| <= MAX_STRING_LENGTH
    ensures r.Success? ==>
      |r.value| == 2 + |s| && DecodeU16(r.value[0], r.value[1]) == |s| && r.value[2..] == s
    ensures r.Failure? ==> r.error == StringTooLong
  {
    if |s| <= MAX_STRING_LENGTH then Success(EncodeU16(|s|) + s) else Failure(StringTooLong)
  }

  /**
   * Reads a length-prefixed string from the front of `s`; yields the string
   * and the bytes after it, or None when `s` ends first.
   */
  function ReadString(s: seq<Byte>): (r: Option<(seq<Byte>, seq<Byte>)>)
    ensures r.None? <==> |s| < 2 || |s| < 2 + DecodeU16(s[0], s[1])
    ensures r.Some? ==>
      var end := 2 + DecodeU16(s[0], s[1]);
      && end <= |s| && r.value.0 == s[2..end] && r.value.1 == s[end..]
      && |r.value.0| + 2 + |r.value.1| == |s|
  {
    if |s| < 2 then None
    else
      var end := 2 + DecodeU16(s[0], s[1]);
      if end > |s| then None else Some((s[2..end], s[end..]))
  }

  /** Whatever follows it, an encoded string reads back as itself. */
  lemma StringRoundTrip(text: seq<Byte>, rest: seq<Byte>)
    requires |text| <= MAX_STRING_LENGTH
    ensures ReadString(EncodeString(text).value + rest) == Some((text, rest))
  {
    var enc := EncodeString(text).value;
    var s := enc + rest;
    assert s[0] == enc[0] && s[1] == enc[1];
    assert s[2 .. 2 + |text|] == enc[2..];
    assert s[2 + |text| ..] == rest;
  }

  /** A string read from the front of `s` re-encodes to exactly the bytes it was read from. */
  lemma ReadStringEncodes(s: seq<Byte>)
    requires ReadString(s).Some?
    ensures var (text, rest) := ReadString(s).value;
      EncodeString(text).Success? && EncodeString(text).value + rest == s
  {
    var (text, rest) := ReadString(s).value;
    var end := 2 + DecodeU16(s[0], s[1]);
    assert EncodeU16(|text|) == [s[0], s[1]];
    assert s == [s[0], s[1]] + s[2..end] + s[end..];
  }

  // ---------------------------------------------------------------- variable-length integer

  function Pow128(k: nat): (r: nat)
    ensures r >= 1
  {
    if k == 0 then 1 else 0x80 * Pow128(k - 1)
  }

  /** The number whose base-128 digits, least significant first, are the low 7 bits of `s`. */
  function DigitsValue(s: seq<Byte>): nat {
    if s == [] then 0 else s[0] % 0x80 + 0x80 * DigitsValue(s[1..])
  }

  /** Appending a byte adds its digit at the next power of 128. */
  lemma {:induction false} DigitsValueAppend(s: seq<Byte>, b: Byte)
    ensures DigitsValue(s + [b]) == DigitsValue(s) + (b % 0x80) * Pow128(|s|)
  {
    if s == [] {
      assert [] + [b] == [b];
    } else {
      assert (s + [b])[1..] == s[1..] + [b];
      DigitsValueAppend(s[1..], b);
      calc {
        DigitsValue(s + [b]);
        s[0] % 0x80 + 0x80 * DigitsValue(s[1..] + [b]);
        s[0] % 0x80 + 0x80 * (DigitsValue(s[1..]) + (b % 0x80) * Pow128(|s| - 1));
        s[0] % 0x80 + 0x80 * DigitsValue(s[1..]) + (b % 0x80) * (0x80 * Pow128(|s| - 1));
        DigitsValue(s) + (b % 0x80) * Pow128(|s|);
      }
    }
  }

  /** k digits of base 128 stay below 128^k. */
  lemma {:induction false} DigitsValueBound(s: seq<Byte>)
    ensures DigitsValue(s) < Pow128(|s|)
  {
    if s != [] {
      DigitsValueBound(s[1..]);
      assert DigitsValue(s[1..]) + 1 <= Pow128(|s| - 1);
      assert 0x80 * (DigitsValue(s[1..]) + 1) <= 0x80 * Pow128(|s| - 1);
    }
  }

  /** True when every byte of s[..n] has its continuation bit set. */
  predicate AllContinue(s: seq<Byte>, n: nat)
    requires n <= |s|
  {
    forall j :: 0 <= j < n ==> s[j] >= 0x80
  }

  /**
   * Decodes a variable-length integer from the front of `s`, reading at most
   * `budget` bytes. On success yields the value and the number of bytes it
   * occupied. Its contract characterises every outcome: success at the first
   * byte without continuation bit within the budget; the two ways to fail are
   * told apart by DecodeVarintOutcome.
   */
  function DecodeVarint(s: seq<Byte>, budget: nat): (r: Result<(nat, nat), DecodeError>)
    decreases budget
    ensures r.Success? ==>
      var (v, n) := r.value;
      && 1 <= n <= budget && n <= |s|
      && AllContinue(s, n - 1) && s[n - 1] < 0x80
    ensures r.Failure? ==>
      r.error.reason == Truncated || r.error.reason == BadRemainingLength
  {
    if budget == 0 then Failure(MalformedPacket(BadRemainingLength))
    else if |s| == 0 then Failure(MalformedPacket(Truncated))
    else if s[0] < 0x80 then Success((s[0], 1))
    else
      match DecodeVarint(s[1..], budget - 1)
      case Failure(e) => Failure(e)
      case Success((v, n)) => Success((s[0] % 0x80 + 0x80 * v, n + 1))
  }

  /** A decoded value is the number the bytes read spell in base 128. */
  lemma {:induction false} DecodeVarintValue(s: seq<Byte>, budget: nat)
    requires DecodeVarint(s, budget).Success?
    decreases budget
    ensures var (v, n) := DecodeVarint(s, budget).value;
      v == DigitsValue(s[..n])
  {
    if s[0] >= 0x80 {
      var n := DecodeVarint(s[1..], budget - 1).value.1;
      DecodeVarintValue(s[1..], budget - 1);
      assert s[..n + 1][1..] == s[1..][..n];
    }
  }

  /** After a continuation byte, the run of continuation bytes goes on in the tail. */
  lemma AllContinueTail(s: seq<Byte>, n: nat)
    requires 1 <= n <= |s| && s[0] >= 0x80
    ensures AllContinue(s, n) <==> AllContinue(s[1..], n - 1)
  {
    if AllContinue(s[1..], n - 1) {
      forall j | 0 <= j < n ensures s[j] >= 0x80 {
        if j > 0 { assert s[j] == s[1..][j - 1]; }
      }
    }
  }

  /**
   * The two failures: Truncated exactly when `s` ends before the budget with
   * every byte a continuation byte; BadRemainingLength exactly when the
   * budget is spent on continuation bytes.
   */
  lemma {:induction false} DecodeVarintOutcome(s: seq<Byte>, budget: nat)
    decreases budget
    ensures DecodeVarint(s, budget) == Failure(MalformedPacket(Truncated)) <==>
      |s| < budget && AllContinue(s, |s|)
    ensures DecodeVarint(s, budget) == Failure(MalformedPacket(BadRemainingLength)) <==>
      budget <= |s| && AllContinue(s, budget)
  {
    if budget == 0 || |s| == 0 {
    } else if s[0] < 0x80 {
      assert !AllContinue(s, |s|) && !AllContinue(s, 1);
    } else {
      DecodeVarintOutcome(s[1..], budget - 1);
      AllContinueTail(s, |s|);
      if budget <= |s| {
        AllContinueTail(s, budget);
      }
    }
  }

  /** The shortest variable-length encoding of n: 7 bits per byte, low digits first. */
  function EncodeVarint(n: nat): (r: seq<Byte>)
    ensures |r| >= 1 && r[0] % 0x80 == n % 0x80
    ensures n < 0x80 <==> r == [n]
  {
    if n < 0x80 then [n]
    else
      var low: Byte := n % 0x80 + 0x80;
      [low] + EncodeVarint(n / 0x80)
  }

  /**
   * The encoding is well formed and denotes n: continuation bits on every
   * byte but the last, and its digits spell n.
   */
  lemma {:induction false} EncodeVarintDigits(n: nat)
    ensures var r := EncodeVarint(n);
      AllContinue(r, |r| - 1) && r[|r| - 1] < 0x80 && DigitsValue(r) == n
  {
    if n >= 0x80 {
      var rest := EncodeVarint(n / 0x80);
      EncodeVarintDigits(n / 0x80);
      var r := EncodeVarint(n);
      assert r[1..] == rest;
      assert AllContinue(r, |r| - 1) by {
        forall j | 0 <= j < |r| - 1 ensures r[j] >= 0x80 {
          if j > 0 { assert r[j] == rest[j - 1]; }
        }
      }
      assert r[|r| - 1] == rest[|rest| - 1];
    }
  }

  /** Below 128^k the encoding needs at most k bytes. */
  lemma {:induction false} EncodeVarintLength(n: nat, k: nat)
    requires 1 <= k && n < Pow128(k)
    ensures |EncodeVarint(n)| <= k
  {
    if n >= 0x80 {
      EncodeVarintLength(n / 0x80, k - 1);
    }
  }

  /** Every Remaining Length an encoder may emit fits the four-byte limit. */
  lemma EncodeVarintFits(n: nat)
    requires n <= MAX_REMAINING_LENGTH
    ensures |EncodeVarint(n)| <= MAX_VARINT_BYTES
  {
    assert Pow128(4) == MAX_REMAINING_LENGTH + 1;
    EncodeVarintLength(n, 4);
  }

  /** A successfully decoded Remaining Length never exceeds the maximum. */
  lemma DecodeVarintBound(s: seq<Byte>)
    requires DecodeVarint(s, MAX_VARINT_BYTES).Success?
    ensures DecodeVarint(s, MAX_VARINT_BYTES).value.0 <= MAX_REMAINING_LENGTH
  {
    var (v, n) := DecodeVarint(s, MAX_VARINT_BYTES).value;
    DecodeVarintValue(s, MAX_VARINT_BYTES);
    DigitsValueBound(s[..n]);
    assert Pow128(n) <= Pow128(4) by {
      if n < 4 { assert Pow128(3) == 0x20_0000; }
    }
    assert Pow128(4) == MAX_REMAINING_LENGTH + 1;
  }

  /**
   * The outcome is fixed by where the first byte without continuation bit
   * sits: at index m - 1 within the budget, the decoder reads exactly m bytes.
   */
  lemma DecodeVarintAt(s: seq<Byte>, m: nat, budget: nat)
    requires 1 <= m <= budget && m <= |s|
    requires AllContinue(s, m - 1) && s[m - 1] < 0x80
    ensures DecodeVarint(s, budget) == Success((DigitsValue(s[..m]), m))
  {
    DecodeVarintOutcome(s, budget);
    assert !AllContinue(s, |s|) && (budget <= |s| ==> !AllContinue(s, budget)) by {
      assert s[m - 1] < 0x80;
    }
    var n := DecodeVarint(s, budget).value.1;
    assert s[n - 1] < 0x80;
    DecodeVarintValue(s, budget);
  }

  /** Round trip: decoding an encoding yields the value and its exact length. */
  lemma VarintRoundTrip(n: nat, rest: seq<Byte>)
    requires n <= MAX_REMAINING_LENGTH
    ensures DecodeVarint(EncodeVarint(n) + rest, MAX_VARINT_BYTES)
         == Success((n, |EncodeVarint(n)|))
  {
    var enc := EncodeVarint(n);
    var s := enc + rest;
    EncodeVarintFits(n);
    EncodeVarintDigits(n);
    assert s[..|enc|] == enc;
    assert AllContinue(s, |enc| - 1) by {
      forall j | 0 <= j < |enc| - 1 ensures s[j] >= 0x80 { assert s[j] == enc[j]; }
    }
    DecodeVarintAt(s, |enc|, MAX_VARINT_BYTES);
  }

  /** Decoding depends only on the bytes the integer occupies. */
  lemma DecodeVarintPrefix(s: seq<Byte>, rest: seq<Byte>, budget: nat)
    requires DecodeVarint(s, budget).Success?
    ensures DecodeVarint(s + rest, budget) == DecodeVarint(s, budget)
  {
    var (v, n) := DecodeVarint(s, budget).value;
    DecodeVarintValue(s, budget);
    var t := s + rest;
    assert t[..n] == s[..n];
    assert AllContinue(t, n - 1) by {
      forall j | 0 <= j < n - 1 ensures t[j] >= 0x80 { assert t[j] == s[j]; }
    }
    DecodeVarintAt(t, n, budget);
  }

  /** A proper prefix of an encoding ends on a continuation byte: it is truncated. */
  lemma VarintPrefixTruncated(n: nat, j: nat)
    requires n <= MAX_REMAINING_LENGTH && j < |EncodeVarint(n)|
    ensures DecodeVarint(EncodeVarint(n)[..j], MAX_VARINT_BYTES)
         == Failure(MalformedPacket(Truncated))
  {
    var enc := EncodeVarint(n);
    EncodeVarintFits(n);
    EncodeVarintDigits(n);
    var t := enc[..j];
    DecodeVarintOutcome(t, MAX_VARINT_BYTES);
    assert AllContinue(t, |t|) by {
      forall i | 0 <= i < |t| ensures t[i] >= 0x80 { assert t[i] == enc[i]; }
    }
  }
}
