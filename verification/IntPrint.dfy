/** Printing integers, pw_string/type_to_string.cc. */
module IntPrint {

  const TWO_TO_THE_32 := 0x1_0000_0000
  const TWO_TO_THE_64 := 0x1_0000_0000_0000_0000

  type Uint64 = n: nat | n < TWO_TO_THE_64

  datatype Status = Ok | ResourceExhausted

  // ---------------------------------------------------------------- numerals

  datatype Base = Decimal | Hexadecimal {
    function Size(): nat {
      match this case Decimal => 10 case Hexadecimal => 16
    }

    function Rest(value: nat): nat {
      match this case Decimal => value / 10 case Hexadecimal => value / 16
    }

    function Digit(value: nat): (d: nat)
      ensures d < Size() && value == Size() * Rest(value) + d
    {
      match this case Decimal => value % 10 case Hexadecimal => value % 16
    }
  }

  function DigitChar(d: nat): char
    requires d < 16
  {
    if d < 10 then ('0' as int + d) as char else ('a' as int + d - 10) as char
  }

  /** The lowest n digits, leading zeros and all. */
  function Padded(base: Base, value: nat, n: nat): (s: string)
    ensures |s| == n
  {
    if n == 0 then [] else Padded(base, base.Rest(value), n - 1) + [DigitChar(base.Digit(value))]
  }

  /** The numeral of a number: its digits, none of them a leading zero, except for zero itself. */
  function Numeral(base: Base, value: nat): (s: string)
    ensures s != []
    ensures value != 0 ==> s[0] != '0'
  {
    if value < base.Size() then [DigitChar(value)]
    else Numeral(base, base.Rest(value)) + [DigitChar(base.Digit(value))]
  }

  /** What a character stands for in a numeral: the digits, and the letters a to f for ten to fifteen. */
  function ReadDigit(c: char): (d: int)
  {
    if '0' <= c <= '9' then c as int - '0' as int
    else if 'a' <= c <= 'f' then c as int - 'a' as int + 10
    else -1
  }

  /** The number a numeral stands for, if all its characters are digits of the base. */
  function Read(base: Base, s: string): (value: int)
  {
    if s == [] then 0
    else
      var upper, d := Read(base, s[..|s| - 1]), ReadDigit(s[|s| - 1]);
      if upper < 0 || !(0 <= d < base.Size()) then -1 else base.Size() * upper + d
  }

  lemma ReadOneMore(base: Base, upper: string, d: nat)
    requires d < base.Size() && 0 <= Read(base, upper)
    ensures Read(base, upper + [DigitChar(d)]) == base.Size() * Read(base, upper) + d
  {
    assert (upper + [DigitChar(d)])[..|upper|] == upper;
  }

  /** A numeral reads as its number. */
  lemma {:induction false} NumeralReadsBack(base: Base, value: nat)
    ensures Read(base, Numeral(base, value)) == value
  {
    hide DigitChar, Read;
    NothingReads(base);
    if value < base.Size() {
      ReadOneMore(base, [], value);
      assert [] + [DigitChar(value)] == [DigitChar(value)];
    } else {
      NumeralReadsBack(base, base.Rest(value));
      ReadOneMore(base, Numeral(base, base.Rest(value)), base.Digit(value));
    }
  }

  lemma NothingReads(base: Base)
    ensures Read(base, []) == 0
  {
  }

  /** And so does one with zeros in front. */
  lemma {:induction false} PaddedReadsBack(base: Base, value: nat, n: nat)
    requires |Numeral(base, value)| <= n
    ensures Read(base, Padded(base, value, n)) == value
  {
    hide DigitChar, Read;
    if n == |Numeral(base, value)| {
      NumeralIsPadded(base, value);
      NumeralReadsBack(base, value);
    } else {
      RestIsShorter(base, value, n);
      PaddedReadsBack(base, base.Rest(value), n - 1);
      ReadOneMore(base, Padded(base, base.Rest(value), n - 1), base.Digit(value));
    }
  }

  lemma RestIsShorter(base: Base, value: nat, n: nat)
    requires |Numeral(base, value)| < n
    ensures |Numeral(base, base.Rest(value))| < n
  {
    if value < base.Size() {
      assert base.Rest(value) == 0;
    }
  }

  lemma {:induction false} NumeralIsPadded(base: Base, value: nat)
    ensures Numeral(base, value) == Padded(base, value, |Numeral(base, value)|)
  {
    if value < base.Size() {
      assert base.Digit(value) == value;
      assert Padded(base, value, 1) == Padded(base, base.Rest(value), 0) + [DigitChar(base.Digit(value))];
    } else {
      NumeralIsPadded(base, base.Rest(value));
    }
  }

  function Pow10(n: nat): nat {
    if n == 0 then 1 else 10 * Pow10(n - 1)
  }

  function Pow2(n: nat): nat {
    if n == 0 then 1 else 2 * Pow2(n - 1)
  }

  /** The length of a decimal numeral is fixed by the powers of ten the number lies between. */
  lemma {:induction false} NumeralLength(value: nat, n: nat)
    requires 0 < n && value < Pow10(n) && (1 < n ==> Pow10(n - 1) <= value)
    ensures |Numeral(Decimal, value)| == n
  {
    if 1 < n {
      assert Pow10(n - 1) == 10 * Pow10(n - 2);
      Pow10Positive(n - 2);
      NumeralLength(value / 10, n - 1);
    } else {
      assert Pow10(1) == 10 * Pow10(0);
    }
  }

  lemma {:induction false} Pow10Positive(n: nat)
    ensures 0 < Pow10(n)
  {
    if n != 0 {
      Pow10Positive(n - 1);
    }
  }

  lemma {:induction false} Pow2Monotone(m: nat, n: nat)
    requires m <= n
    ensures Pow2(m) <= Pow2(n)
  {
    if m < n {
      Pow2Monotone(m, n - 1);
    }
  }

  // ---------------------------------------------------------------- counting digits

  /** 64 less the leading zeros: the place of the highest bit. */
  function BitLength(n: nat): (bits: nat)
    requires 0 < n
    ensures 0 < bits
  {
    if n == 1 then 1 else 1 + BitLength(n / 2)
  }

  lemma {:induction false} BitLengthBounds(n: nat)
    requires 0 < n
    ensures Pow2(BitLength(n) - 1) <= n < Pow2(BitLength(n))
  {
    if n != 1 {
      BitLengthBounds(n / 2);
    } else {
      assert Pow2(1) == 2 * Pow2(0);
    }
  }

  lemma BitLengthWithin(n: nat, bits: nat)
    requires 0 < n < Pow2(bits)
    ensures BitLength(n) <= bits
  {
    BitLengthBounds(n);
    if bits < BitLength(n) {
      Pow2Monotone(bits, BitLength(n) - 1);
    }
  }

  const POWERS_OF_10: seq<nat> := [
    0, 10, 100, 1000, 10000, 100000, 1000000, 10000000, 100000000, 1000000000, 10000000000,
    100000000000, 1000000000000, 10000000000000, 100000000000000, 1000000000000000,
    10000000000000000, 100000000000000000, 1000000000000000000, 10000000000000000000
  ]

  /** The binary logarithm times 1233 / 4096 is the decimal one, or one less. */
  function Log10Estimate(bits: nat): nat {
    bits * 1233 / 4096
  }

  function DecimalDigitCount(integer: Uint64): nat {
    var odd := if integer % 2 == 0 then integer + 1 else integer;
    var log10 := Log10Estimate(BitLength(odd));
    IsInTable(odd);
    log10 + if integer < POWERS_OF_10[log10] then 0 else 1
  }

  lemma IsInTable(odd: nat)
    requires 0 < odd < TWO_TO_THE_64
    ensures Log10Estimate(BitLength(odd)) < |POWERS_OF_10|
  {
    PowersOf2();
    BitLengthWithin(odd, 64);
  }

  /** All numbers of these many bits have t or t + 1 decimal digits. */
  ghost predicate Estimates(bits: nat, t: nat)
    requires 0 < bits
  {
    (0 < t ==> Pow10(t - 1) <= Pow2(bits - 1)) && Pow2(bits) <= Pow10(t + 1)
  }

  lemma BitsEstimate(t: nat, low: nat, high: nat, bits: nat)
    requires 0 < low <= bits <= high
    requires 0 < t ==> Pow10(t - 1) <= Pow2(low - 1)
    requires Pow2(high) <= Pow10(t + 1)
    ensures Estimates(bits, t)
  {
    Pow2Monotone(low - 1, bits - 1);
    Pow2Monotone(bits, high);
  }

  lemma PowersOf2()
    ensures Pow2(0) == 1 && Pow2(3) == 8 && Pow2(6) == 64
    ensures Pow2(9) == 512 && Pow2(13) == 8192 && Pow2(16) == 65536
    ensures Pow2(19) == 524288 && Pow2(23) == 8388608 && Pow2(26) == 67108864
    ensures Pow2(29) == 536870912 && Pow2(33) == 8589934592 && Pow2(36) == 68719476736
    ensures Pow2(39) == 549755813888 && Pow2(43) == 8796093022208 && Pow2(46) == 70368744177664
    ensures Pow2(49) == 562949953421312 && Pow2(53) == 9007199254740992 && Pow2(56) == 72057594037927936
    ensures Pow2(59) == 576460752303423488 && Pow2(63) == 9223372036854775808 && Pow2(64) == 18446744073709551616
  {
    assert Pow2(2) == 4;
    assert Pow2(4) == 16;
    assert Pow2(6) == 64;
    assert Pow2(8) == 256;
    assert Pow2(10) == 1024;
    assert Pow2(12) == 4096;
    assert Pow2(14) == 16384;
    assert Pow2(16) == 65536;
    assert Pow2(18) == 262144;
    assert Pow2(20) == 1048576;
    assert Pow2(22) == 4194304;
    assert Pow2(24) == 16777216;
    assert Pow2(26) == 67108864;
    assert Pow2(28) == 268435456;
    assert Pow2(30) == 1073741824;
    assert Pow2(32) == 4294967296;
    assert Pow2(34) == 17179869184;
    assert Pow2(36) == 68719476736;
    assert Pow2(38) == 274877906944;
    assert Pow2(40) == 1099511627776;
    assert Pow2(42) == 4398046511104;
    assert Pow2(44) == 17592186044416;
    assert Pow2(46) == 70368744177664;
    assert Pow2(48) == 281474976710656;
    assert Pow2(50) == 1125899906842624;
    assert Pow2(52) == 4503599627370496;
    assert Pow2(54) == 18014398509481984;
    assert Pow2(56) == 72057594037927936;
    assert Pow2(58) == 288230376151711744;
    assert Pow2(60) == 1152921504606846976;
    assert Pow2(62) == 4611686018427387904;
    assert Pow2(64) == 18446744073709551616;
  }

  lemma PowersOf10()
    ensures Pow10(0) == 1 && Pow10(1) == 10 && Pow10(2) == 100
    ensures Pow10(3) == 1000 && Pow10(4) == 10000 && Pow10(5) == 100000
    ensures Pow10(6) == 1000000 && Pow10(7) == 10000000 && Pow10(8) == 100000000
    ensures Pow10(9) == 1000000000 && Pow10(10) == 10000000000 && Pow10(11) == 100000000000
    ensures Pow10(12) == 1000000000000 && Pow10(13) == 10000000000000 && Pow10(14) == 100000000000000
    ensures Pow10(15) == 1000000000000000 && Pow10(16) == 10000000000000000 && Pow10(17) == 100000000000000000
    ensures Pow10(18) == 1000000000000000000 && Pow10(19) == 10000000000000000000 && Pow10(20) == 100000000000000000000
  {
    assert Pow10(2) == 100;
    assert Pow10(4) == 10000;
    assert Pow10(6) == 1000000;
    assert Pow10(8) == 100000000;
    assert Pow10(10) == 10000000000;
    assert Pow10(12) == 1000000000000;
    assert Pow10(14) == 100000000000000;
    assert Pow10(16) == 10000000000000000;
    assert Pow10(18) == 1000000000000000000;
    assert Pow10(20) == 100000000000000000000;
  }

  /** The estimate is right for each number of bits there can be. */
  lemma EstimateIsRight(bits: nat)
    requires 0 < bits <= 64
    ensures Estimates(bits, Log10Estimate(bits))
  {
    if bits <= 33 {
      EstimateLow(bits);
    } else {
      EstimateHigh(bits);
    }
  }

  lemma EstimateLow(bits: nat)
    requires 0 < bits <= 33
    ensures Estimates(bits, Log10Estimate(bits))
  {
    PowersOf2();
    PowersOf10();
    hide Estimates, Pow2, Pow10;
    if bits <= 3 {
      BitsEstimate(0, 1, 3, bits);
    } else if bits <= 6 {
      BitsEstimate(1, 4, 6, bits);
    } else if bits <= 9 {
      BitsEstimate(2, 7, 9, bits);
    } else if bits <= 13 {
      BitsEstimate(3, 10, 13, bits);
    } else if bits <= 16 {
      BitsEstimate(4, 14, 16, bits);
    } else if bits <= 19 {
      BitsEstimate(5, 17, 19, bits);
    } else if bits <= 23 {
      BitsEstimate(6, 20, 23, bits);
    } else if bits <= 26 {
      BitsEstimate(7, 24, 26, bits);
    } else if bits <= 29 {
      BitsEstimate(8, 27, 29, bits);
    } else {
      BitsEstimate(9, 30, 33, bits);
    }
  }

  lemma EstimateHigh(bits: nat)
    requires 33 < bits <= 64
    ensures Estimates(bits, Log10Estimate(bits))
  {
    PowersOf2();
    PowersOf10();
    hide Estimates, Pow2, Pow10;
    if bits <= 36 {
      BitsEstimate(10, 34, 36, bits);
    } else if bits <= 39 {
      BitsEstimate(11, 37, 39, bits);
    } else if bits <= 43 {
      BitsEstimate(12, 40, 43, bits);
    } else if bits <= 46 {
      BitsEstimate(13, 44, 46, bits);
    } else if bits <= 49 {
      BitsEstimate(14, 47, 49, bits);
    } else if bits <= 53 {
      BitsEstimate(15, 50, 53, bits);
    } else if bits <= 56 {
      BitsEstimate(16, 54, 56, bits);
    } else if bits <= 59 {
      BitsEstimate(17, 57, 59, bits);
    } else if bits <= 63 {
      BitsEstimate(18, 60, 63, bits);
    } else {
      BitsEstimate(19, 64, 64, bits);
    }
  }

  lemma TableIsPowers(i: nat)
    requires 0 < i < |POWERS_OF_10|
    ensures POWERS_OF_10[i] == Pow10(i)
  {
    PowersOf10();
    hide Pow10;
  }

  /** Making a number odd does not change where its highest bit is. */
  lemma OddHasSameBits(n: nat)
    ensures BitLength(if n % 2 == 0 then n + 1 else n) == if n == 0 then 1 else BitLength(n)
  {
    if n % 2 == 0 && n != 0 {
      assert (n + 1) / 2 == n / 2;
    }
  }

  lemma SmallestNumeral()
    ensures BitLength(1) == 1 && |Numeral(Decimal, 0)| == 1
  {
  }

  /** The estimate, put right by one comparison, is the exact number of decimal digits of any 64-bit number. */
  lemma DigitCountIsExact(integer: Uint64)
    ensures DecimalDigitCount(integer) == |Numeral(Decimal, integer)|
  {
    hide BitLength, Numeral, Pow2;
    SmallestNumeral();
    OddHasSameBits(integer);
    if integer != 0 {
      var bits := BitLength(integer);
      var t := Log10Estimate(bits);
      BitLengthBounds(integer);
      PowersOf2();
      BitLengthWithin(integer, 64);
      EstimateIsRight(bits);
      if 0 < t {
        TableIsPowers(t);
        NumeralLength(integer, if integer < Pow10(t) then t else t + 1);
      } else {
        assert Pow10(1) == 10 * Pow10(0);
        NumeralLength(integer, 1);
      }
    }
  }

  // ---------------------------------------------------------------- printing

  /** All but the lowest n digits. */
  function Above(base: Base, value: nat, n: nat): nat {
    if n == 0 then value else Above(base, base.Rest(value), n - 1)
  }

  /** A padded number is its upper digits and its lower digits. */
  lemma {:induction false} PaddedParts(base: Base, value: nat, m: nat, n: nat)
    ensures Padded(base, value, m + n) == Padded(base, Above(base, value, n), m) + Padded(base, value, n)
  {
    if n != 0 {
      PaddedParts(base, base.Rest(value), m, n - 1);
    }
  }

  /** Nine digits at once: the lower ones are those of the remainder, the upper ones those of the quotient. */
  lemma NineDigits(value: nat)
    ensures Above(Decimal, value, 9) == value / 1_000_000_000
    ensures Padded(Decimal, value, 9) == Padded(Decimal, value % 1_000_000_000, 9)
  {
    AboveSteps(value);
    ScaledByBillion(value / 1_000_000_000);
    SameLowDigits(value, value % 1_000_000_000, value / 1_000_000_000, 9);
  }

  lemma AboveSteps(value: nat)
    ensures Above(Decimal, value, 9) == value / 1_000_000_000
  {
    assert Above(Decimal, value, 9) == Above(Decimal, value / 10 / 10, 7);
    assert Above(Decimal, value / 100, 7) == Above(Decimal, value / 100 / 10 / 10, 5);
    assert Above(Decimal, value / 10000, 5) == Above(Decimal, value / 10000 / 10 / 10, 3);
    assert Above(Decimal, value / 1000000, 3) == Above(Decimal, value / 1000000 / 10 / 10, 1);
    assert Above(Decimal, value / 100000000, 1) == value / 100000000 / 10;
  }

  /** Numbers that differ by a multiple of 10^n have the same n lowest digits. */
  lemma {:induction false} SameLowDigits(value: nat, low: nat, multiple: nat, n: nat)
    requires value == low + Scaled(multiple, n)
    ensures Padded(Decimal, value, n) == Padded(Decimal, low, n)
  {
    if n != 0 {
      SameLowDigits(value / 10, low / 10, multiple, n - 1);
    }
  }

  /** A multiple of 10^n. */
  function Scaled(multiple: nat, n: nat): nat {
    if n == 0 then multiple else 10 * Scaled(multiple, n - 1)
  }

  lemma ScaledByBillion(multiple: nat)
    ensures Scaled(multiple, 9) == 1_000_000_000 * multiple
  {
    assert Scaled(multiple, 1) == 10 * Scaled(multiple, 0);
    assert Scaled(multiple, 2) == 100 * multiple;
    assert Scaled(multiple, 4) == 10000 * multiple;
    assert Scaled(multiple, 6) == 1000000 * multiple;
    assert Scaled(multiple, 8) == 100000000 * multiple;
  }

  /** A buffer that is too small gets an empty string, if it can hold that. */
  ghost predicate Exhausted(before: string, after: string, begin: nat) {
    && |before| == |after| && begin <= |after|
    && (begin < |after| ==> after[begin] == '\0')
    && forall k :: 0 <= k < |after| && k != begin ==> after[k] == before[k]
  }

  method HandleExhaustedBuffer(buffer: array<char>, begin: nat)
    requires begin <= buffer.Length
    modifies buffer
    ensures Exhausted(old(buffer[..]), buffer[..], begin)
  {
    if begin < buffer.Length {
      buffer[begin] := '\0';
    }
  }

  /** Writes count digits that end before `end`. */
  method WriteDigits(buffer: array<char>, end: nat, value: nat, count: nat)
    requires count <= end <= buffer.Length
    modifies buffer
    ensures buffer[end - count..end] == Padded(Decimal, value, count)
    ensures forall k :: 0 <= k < buffer.Length && !(end - count <= k < end) ==> buffer[k] == old(buffer[k])
  {
    var lowerDigits := value;
    PaddedParts(Decimal, value, count, 0);
    for i := 0 to count
      invariant lowerDigits == Above(Decimal, value, i)
      invariant buffer[end - i..end] == Padded(Decimal, value, i)
      invariant forall k :: 0 <= k < buffer.Length && !(end - i <= k < end) ==> buffer[k] == old(buffer[k])
    {
      ghost var written := buffer[end - i..end];
      PaddedParts(Decimal, value, 1, i);
      assert Padded(Decimal, lowerDigits, 1) == Padded(Decimal, lowerDigits / 10, 0) + [DigitChar(lowerDigits % 10)];
      AboveNext(value, i);
      buffer[end - i - 1] := ('0' as int + lowerDigits % 10) as char;
      assert buffer[end - i - 1..end] == [buffer[end - i - 1]] + buffer[end - i..end];
      assert buffer[end - i..end] == written;
      lowerDigits := lowerDigits / 10;
    }
  }

  lemma {:induction false} AboveNext(value: nat, n: nat)
    ensures Above(Decimal, value, n + 1) == Above(Decimal, value, n) / 10
  {
    if n != 0 {
      AboveNext(value / 10, n - 1);
    }
  }

  /** Cutting digits off the end of a numeral leaves the numeral of what is above them. */
  lemma {:induction false} NumeralParts(value: nat, n: nat)
    requires 0 < Above(Decimal, value, n)
    ensures Numeral(Decimal, value) == Numeral(Decimal, Above(Decimal, value, n)) + Padded(Decimal, value, n)
  {
    if n != 0 {
      AboveOfZero(n - 1);
      assert 10 <= value;
      NumeralParts(value / 10, n - 1);
    }
  }

  lemma {:induction false} AboveOfZero(n: nat)
    ensures Above(Decimal, 0, n) == 0
  {
    if n != 0 {
      AboveOfZero(n - 1);
    }
  }

  /** Of a numeral that goes to the buffer at `begin`, all but the first `remaining` characters are there. */
  ghost predicate Printed(before: string, b: string, begin: nat, numeral: string, remaining: nat) {
    && |b| == |before| && begin + |numeral| < |b| && remaining <= |numeral|
    && b[begin + remaining..begin + |numeral|] == numeral[remaining..]
    && b[begin + |numeral|] == '\0'
    && forall k :: 0 <= k < |b| && !(begin <= k <= begin + |numeral|) ==> b[k] == before[k]
  }

  lemma PrintedMore(before: string, b: string, b': string, begin: nat, numeral: string, remaining: nat, count: nat)
    requires Printed(before, b, begin, numeral, remaining) && count <= remaining && |b'| == |b|
    requires b'[begin + remaining - count..begin + remaining] == numeral[remaining - count..remaining]
    requires forall k :: 0 <= k < |b| && !(begin + remaining - count <= k < begin + remaining) ==> b'[k] == b[k]
    ensures Printed(before, b', begin, numeral, remaining - count)
  {
    var end := begin + |numeral|;
    assert b'[begin + remaining..end] == b[begin + remaining..end];
    assert b'[begin + remaining - count..end] == b'[begin + remaining - count..begin + remaining] + b'[begin + remaining..end];
    assert numeral[remaining - count..] == numeral[remaining - count..remaining] + numeral[remaining..];
  }

  /** What a chunk of nine digits is of the numeral so far. */
  lemma NextChunk(rest: nat, prefix: string)
    requires TWO_TO_THE_32 <= rest && prefix == Numeral(Decimal, rest)
    ensures 9 < |prefix|
    ensures prefix[|prefix| - 9..] == Padded(Decimal, rest % 1_000_000_000, 9)
    ensures prefix[..|prefix| - 9] == Numeral(Decimal, rest / 1_000_000_000)
  {
    NineDigits(rest);
    NumeralParts(rest, 9);
  }

  /**
   Writes a number as its decimal numeral and a terminator, in chunks of nine digits while it takes more than
   32 bits. If it does not fit whole, only a terminator is written.
   */
  method IntToString(value: Uint64, buffer: array<char>, begin: nat) returns (status: Status, size: nat)
    requires begin <= buffer.Length
    modifies buffer
    ensures status == if |Numeral(Decimal, value)| < buffer.Length - begin then Ok else ResourceExhausted
    ensures status == Ok ==>
      size == |Numeral(Decimal, value)| && Printed(old(buffer[..]), buffer[..], begin, Numeral(Decimal, value), 0)
    ensures status != Ok ==> size == 0 && Exhausted(old(buffer[..]), buffer[..], begin)
  {
    hide Numeral, Padded, Printed, Exhausted;
    DigitCountIsExact(value);
    ghost var before, numeral := buffer[..], Numeral(Decimal, value);
    var totalDigits := DecimalDigitCount(value);
    if totalDigits >= buffer.Length - begin {
      HandleExhaustedBuffer(buffer, begin);
      return ResourceExhausted, 0;
    }
    buffer[begin + totalDigits] := '\0';
    var remaining: nat, rest: nat := totalDigits, value;
    PrintingBegins(before, buffer[..], begin, numeral);
    while remaining > 0
      invariant remaining <= totalDigits == |numeral|
      invariant 0 < remaining ==> numeral[..remaining] == Numeral(Decimal, rest)
      invariant Printed(before, buffer[..], begin, numeral, remaining)
    {
      ghost var b := buffer[..];
      NumeralIsPadded(Decimal, rest);
      var lowerDigits, digitCount := rest, remaining;
      if rest >= TWO_TO_THE_32 {
        NextChunk(rest, numeral[..remaining]);
        lowerDigits, digitCount := rest % 1_000_000_000, 9;
        assert numeral[..remaining][remaining - 9..] == numeral[remaining - 9..remaining];
        assert numeral[..remaining][..remaining - 9] == numeral[..remaining - 9];
        rest := rest / 1_000_000_000;
      }
      WriteDigits(buffer, begin + remaining, lowerDigits, digitCount);
      PrintedMore(before, b, buffer[..], begin, numeral, remaining, digitCount);
      remaining := remaining - digitCount;
    }
    return Ok, totalDigits;
  }

  lemma PrintingBegins(before: string, b: string, begin: nat, numeral: string)
    requires begin + |numeral| < |before| && b == before[begin + |numeral| := '\0']
    ensures Printed(before, b, begin, numeral, |numeral|)
  {
  }

  /** Signed numbers, except the least one, whose negation is undefined: a minus sign in front if need be. */
  method SignedToString(value: int, buffer: array<char>) returns (status: Status, size: nat)
    requires -0x8000_0000_0000_0000 < value < 0x8000_0000_0000_0000
    modifies buffer
    ensures var text := SignedNumeral(value);
      && status == (if |text| < buffer.Length then Ok else ResourceExhausted)
      && (status == Ok ==> size == |text| && buffer[..size] == text && buffer[size] == '\0')
      && (status != Ok ==> size == 0 && (0 < buffer.Length ==> buffer[0] == '\0'))
  {
    hide Numeral;
    if value >= 0 {
      status, size := IntToString(value, buffer, 0);
      return;
    }
    status, size := IntToString(-value, buffer, if buffer.Length == 0 then 0 else 1);
    if status == Ok {
      ghost var digits := buffer[1..1 + size];
      buffer[0] := '-';
      assert buffer[1..1 + size] == digits;
      assert buffer[..size + 1] == ['-'] + buffer[1..1 + size];
      return Ok, size + 1;
    }
    HandleExhaustedBuffer(buffer, 0);
  }

  function SignedNumeral(value: int): string {
    if value < 0 then "-" + Numeral(Decimal, -value) else Numeral(Decimal, value)
  }

  // ---------------------------------------------------------------- hexadecimal

  function HexDigitCount(integer: Uint64): nat {
    (BitLength(if integer % 2 == 0 then integer + 1 else integer) + 3) / 4
  }

  lemma {:induction false} HexDigitsByBits(value: nat)
    requires 0 < value
    ensures |Numeral(Hexadecimal, value)| == (BitLength(value) + 3) / 4
  {
    if value < 16 {
      assert Pow2(2) == 2 * Pow2(1) == 4;
      assert Pow2(4) == 2 * Pow2(3) == 16;
      BitLengthWithin(value, 4);
    } else {
      assert BitLength(value) == 1 + BitLength(value / 2) == 2 + BitLength(value / 2 / 2);
      assert BitLength(value / 4) == 1 + BitLength(value / 4 / 2) == 2 + BitLength(value / 4 / 2 / 2);
      assert value / 4 / 2 / 2 == value / 16;
      HexDigitsByBits(value / 16);
    }
  }

  lemma HexDigitCountIsExact(integer: Uint64)
    ensures HexDigitCount(integer) == |Numeral(Hexadecimal, integer)|
  {
    OddHasSameBits(integer);
    if integer != 0 {
      HexDigitsByBits(integer);
    }
  }

  lemma NothingPadded(rest: nat)
    ensures Padded(Hexadecimal, rest, 0) == []
  {
  }

  /** One more digit taken off what is left to print goes in front of what is printed. */
  lemma HexDigitMoved(target: string, rest: nat, i: nat, done: string, done': string)
    requires 0 < i && target == Padded(Hexadecimal, rest, i) + done && done' == [DigitChar(rest % 16)] + done
    ensures target == Padded(Hexadecimal, rest / 16, i - 1) + done'
  {
  }

  /** Writes a number in hexadecimal with at least `minWidth` digits, in front of which zeros are put. */
  method IntToHexString(value: Uint64, buffer: array<char>, minWidth: nat) returns (status: Status, size: nat)
    modifies buffer
    ensures var n := |Numeral(Hexadecimal, value)|;
      var digits := if n < minWidth then minWidth else n;
      && status == (if digits < buffer.Length then Ok else ResourceExhausted)
      && (status == Ok ==>
            size == digits && buffer[..size] == Padded(Hexadecimal, value, digits) && buffer[size] == '\0'
            && forall k :: size < k < buffer.Length ==> buffer[k] == old(buffer[k]))
    ensures status == Ok ==> Read(Hexadecimal, buffer[..size]) == value
    ensures status == Ok && minWidth <= size == |Numeral(Hexadecimal, value)| ==> buffer[..size] == Numeral(Hexadecimal, value)
    ensures status != Ok ==> size == 0 && Exhausted(old(buffer[..]), buffer[..], 0)
  {
    hide Numeral, Exhausted, BitLength, Padded, Read;
    HexDigitCountIsExact(value);
    NumeralIsPadded(Hexadecimal, value);
    var count := HexDigitCount(value);
    var digits := if count < minWidth then minWidth else count;
    if digits >= buffer.Length {
      HandleExhaustedBuffer(buffer, 0);
      return ResourceExhausted, 0;
    }
    var rest: nat, i: nat := value, digits;
    ghost var text := Padded(Hexadecimal, value, digits);
    while i > 0
      invariant i <= digits
      invariant text == Padded(Hexadecimal, rest, i) + buffer[i..digits]
      invariant forall k :: digits <= k < buffer.Length ==> buffer[k] == old(buffer[k])
    {
      ghost var done := buffer[i..digits];
      i := i - 1;
      buffer[i] := DigitChar(rest % 16);
      assert buffer[i + 1..digits] == done;
      assert buffer[i..digits] == [buffer[i]] + buffer[i + 1..digits];
      HexDigitMoved(text, rest, i + 1, done, buffer[i..digits]);
      rest := rest / 16;
    }
    NothingPadded(rest);
    PaddedReadsBack(Hexadecimal, value, digits);
    assert buffer[..digits] == buffer[0..digits] == text;
    buffer[digits] := '\0';
    assert buffer[..digits] == text;
    return Ok, digits;
  }
}
