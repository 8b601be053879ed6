/** Variable-length integers in the formats of pw_varint/varint.cc. */
module Varint {

  type Byte = n: nat | n < 256

  type Bytes = seq<Byte>

  const TWO_TO_THE_32 := 0x1_0000_0000
  const TWO_TO_THE_64 := 0x1_0000_0000_0000_0000

  type Uint32 = n: nat | n < TWO_TO_THE_32
  type Uint64 = n: nat | n < TWO_TO_THE_64

  const MAX_VARINT32_SIZE := 5
  const MAX_VARINT64_SIZE := 10

  /** Which bit of a byte tells whether it is the last, and which value of that bit does. */
  datatype Format = Format(leastSignificant: bool, oneTerminated: bool)

  /** Little-endian base 128, as in ring buffer entries and protobuf. */
  const LEB128 := Format(false, false)

  function Digit(f: Format, bits: nat, last: bool): Byte
    requires bits < 128
  {
    var flag := if last == f.oneTerminated then 1 else 0;
    if f.leastSignificant then 2 * bits + flag else bits + 128 * flag
  }

  function Bits(f: Format, b: Byte): (bits: nat)
    ensures bits < 128
  {
    if f.leastSignificant then b / 2 else b % 128
  }

  predicate IsLast(f: Format, b: Byte) {
    ((if f.leastSignificant then b % 2 else b / 128) == 1) == f.oneTerminated
  }

  function Encode(f: Format, value: nat): (bytes: Bytes)
    ensures bytes != []
  {
    if value < 128 then [Digit(f, value, true)] else [Digit(f, value % 128, false)] + Encode(f, value / 128)
  }

  /** The value and the number of bytes it took; no bytes when the input ends too early. */
  function DecodeAny(f: Format, bytes: Bytes): (result: (nat, nat))
    ensures result.1 <= |bytes|
  {
    if bytes == [] then (0, 0)
    else if IsLast(f, bytes[0]) then (Bits(f, bytes[0]), 1)
    else
      var (value, size) := DecodeAny(f, bytes[1..]);
      if size == 0 then (0, 0) else (Bits(f, bytes[0]) + 128 * value, size + 1)
  }

  /** Reads ten bytes at most, into 64 bits. */
  function Decode(f: Format, bytes: Bytes): (result: (Uint64, nat))
    ensures result.1 <= |bytes| && result.1 <= MAX_VARINT64_SIZE
  {
    var input := if |bytes| < MAX_VARINT64_SIZE then bytes else bytes[..MAX_VARINT64_SIZE];
    var (value, size) := DecodeAny(f, input);
    (value % TWO_TO_THE_64, size)
  }

  lemma DigitRoundTrip(f: Format, bits: nat, last: bool)
    requires bits < 128
    ensures Bits(f, Digit(f, bits, last)) == bits && (IsLast(f, Digit(f, bits, last)) <==> last)
  {
  }

  /** The group of seven bits at a place, counted from the least significant one. */
  function Group(value: nat, i: nat): nat {
    if i == 0 then value % 128 else Group(value / 128, i - 1)
  }

  /**
   What an encoding looks like: every byte carries its group of seven bits, and of the bit left over it can be told
   which byte is the last. In LEB128 that is the top bit, set in all bytes but the last.
   */
  lemma {:induction false} EncodedBytes(f: Format, value: nat, i: nat)
    requires i < |Encode(f, value)|
    ensures var b, last := Encode(f, value)[i], i == |Encode(f, value)| - 1;
      && (f.leastSignificant ==> b / 2 == Group(value, i) && (b % 2 == 1 <==> last == f.oneTerminated))
      && (!f.leastSignificant ==> b % 128 == Group(value, i) && (128 <= b <==> last == f.oneTerminated))
  {
    if 0 < i {
      EncodedBytes(f, value / 128, i - 1);
    }
  }

  /** Decoding reads back the value and stops behind it, whatever follows. */
  lemma {:induction false} DecodeAnyEncoded(f: Format, value: nat, rest: Bytes)
    ensures DecodeAny(f, Encode(f, value) + rest) == (value, |Encode(f, value)|)
  {
    if value < 128 {
      DigitRoundTrip(f, value, true);
    } else {
      DigitRoundTrip(f, value % 128, false);
      DecodeAnyEncoded(f, value / 128, rest);
      assert (Encode(f, value) + rest)[1..] == Encode(f, value / 128) + rest;
    }
  }

  function Power128(n: nat): nat {
    if n == 0 then 1 else 128 * Power128(n - 1)
  }

  lemma {:induction false} EncodedSizeWithin(f: Format, value: nat, n: nat)
    requires 0 < n && value < Power128(n)
    ensures |Encode(f, value)| <= n
  {
    if 128 <= value {
      assert n != 1 by {
        assert Power128(1) == 128 * Power128(0);
      }
      EncodedSizeWithin(f, value / 128, n - 1);
    }
  }

  lemma EncodedSize(f: Format, value: nat)
    ensures value < TWO_TO_THE_32 ==> |Encode(f, value)| <= MAX_VARINT32_SIZE
    ensures value < TWO_TO_THE_64 ==> |Encode(f, value)| <= MAX_VARINT64_SIZE
  {
    assert Power128(5) == 0x8_0000_0000 && Power128(10) == 0x40_0000_0000_0000_0000 by {
      assert Power128(2) == 128 * Power128(1) == 0x4000;
      assert Power128(4) == 128 * Power128(3) == 0x1000_0000;
      assert Power128(6) == 128 * Power128(5) == 0x400_0000_0000;
      assert Power128(8) == 128 * Power128(7) == 0x100_0000_0000_0000;
    }
    if value < TWO_TO_THE_32 {
      EncodedSizeWithin(f, value, 5);
    }
    if value < TWO_TO_THE_64 {
      EncodedSizeWithin(f, value, 10);
    }
  }

  lemma FitsIn64(value: Uint64)
    ensures value % TWO_TO_THE_64 == value
  {
  }

  /** A varint is read back from any bytes it is a prefix of. */
  lemma DecodeEncoded(f: Format, value: Uint64, bytes: Bytes)
    requires Encode(f, value) <= bytes
    ensures Decode(f, bytes) == (value, |Encode(f, value)|)
  {
    hide Encode, DecodeAny;
    EncodedSize(f, value);
    FitsIn64(value);
    var input := if |bytes| < MAX_VARINT64_SIZE then bytes else bytes[..MAX_VARINT64_SIZE];
    var n := |Encode(f, value)|;
    assert input == Encode(f, value) + input[n..];
    DecodeAnyEncoded(f, value, input[n..]);
  }
}
