/** The running 32-bit checksum of pw_checksum/crc32.cc. */
module Crc32 {
  import opened Varint

  const INITIAL_STATE: bv32 := 0xFFFF_FFFF

  /** One step of division by the reversed polynomial. */
  function Halve(x: bv32): bv32 {
    if x & 1 == 1 then (x >> 1) ^ 0xEDB8_8320 else x >> 1
  }

  function Halved(x: bv32, n: nat): bv32 {
    if n == 0 then x else Halve(Halved(x, n - 1))
  }

  /** Entry i of the constant table: i divided bit by bit. */
  function Table(i: bv32): bv32 {
    Halved(i, 8)
  }

  function Widened(b: Byte): bv32 {
    (b as bv8) as bv32
  }

  function Xor(x: bv32, y: bv32): bv32 {
    x ^ y
  }

  function Index(state: bv32, b: Byte): bv32 {
    (state ^ Widened(b)) & 0xFF
  }

  function Shifted(state: bv32): bv32 {
    state >> 8
  }

  /** The state after one byte more. */
  function Step(state: bv32, b: Byte): bv32 {
    Xor(Table(Index(state, b)), Shifted(state))
  }

  /** The state after some bytes. */
  function Fold(state: bv32, data: Bytes): bv32 {
    if data == [] then state else Step(Fold(state, data[..|data| - 1]), data[|data| - 1])
  }

  function Number(x: bv32): Uint32 {
    x as int
  }

  /** The checksum a state stands for: its bits inverted. */
  function Final(state: bv32): Uint32 {
    Number(!state)
  }

  /** The checksum of some bytes. */
  function Value(data: Bytes): Uint32 {
    Final(Fold(INITIAL_STATE, data))
  }

  /** A checksum can be taken in pieces. */
  lemma {:induction false} FoldConcat(state: bv32, first: Bytes, second: Bytes)
    ensures Fold(state, first + second) == Fold(Fold(state, first), second)
  {
    hide Step;
    if second == [] {
      assert first + second == first;
    } else {
      var n := |second| - 1;
      FoldConcat(state, first, second[..n]);
      assert (first + second)[..|first + second| - 1] == first + second[..n];
    }
  }

  lemma FoldOneMore(state: bv32, data: Bytes, b: Byte)
    ensures Fold(state, data + [b]) == Step(Fold(state, data), b)
  {
    hide Step;
    assert (data + [b])[..|data + [b]| - 1] == data;
  }

  // ---------------------------------------------------------------- what a checksum tells apart

  lemma HalveInjective(x: bv32, y: bv32)
    requires Halve(x) == Halve(y)
    ensures x == y
  {
  }

  lemma {:induction false} HalvedInjective(x: bv32, y: bv32, n: nat)
    requires Halved(x, n) == Halved(y, n)
    ensures x == y
  {
    hide Halve;
    if n != 0 {
      HalveInjective(Halved(x, n - 1), Halved(y, n - 1));
      HalvedInjective(x, y, n - 1);
    }
  }

  /** Division is linear: the bits that fall out are those of both. */
  lemma HalveAdds(x: bv32, y: bv32)
    ensures Halve(Xor(x, y)) == Xor(Halve(x), Halve(y))
  {
    hide Halve;
    OddOrEven(x);
    OddOrEven(y);
    if x & 1 == 1 && y & 1 == 1 {
      HalveAddsOdd(x, y);
    } else if x & 1 == 1 {
      HalveAddsMixed(x, y);
    } else if y & 1 == 1 {
      HalveAddsMixed(y, x);
      assert y ^ x == x ^ y && Halve(x) ^ Halve(y) == Halve(y) ^ Halve(x);
    } else {
      HalveAddsEven(x, y);
    }
  }

  lemma OddOrEven(x: bv32)
    ensures x & 1 == 0 || x & 1 == 1
  {
  }

  lemma HalveAddsOdd(x: bv32, y: bv32)
    requires x & 1 == 1 && y & 1 == 1
    ensures Halve(x ^ y) == Halve(x) ^ Halve(y)
  {
  }

  lemma HalveAddsMixed(x: bv32, y: bv32)
    requires x & 1 == 1 && y & 1 == 0
    ensures Halve(x ^ y) == Halve(x) ^ Halve(y)
  {
  }

  lemma HalveAddsEven(x: bv32, y: bv32)
    requires x & 1 == 0 && y & 1 == 0
    ensures Halve(x ^ y) == Halve(x) ^ Halve(y)
  {
  }

  lemma {:induction false} HalvedAdds(x: bv32, y: bv32, n: nat)
    ensures Halved(Xor(x, y), n) == Xor(Halved(x, n), Halved(y, n))
  {
    hide Halve, Xor;
    if n != 0 {
      HalvedAdds(x, y, n - 1);
      HalveAdds(Halved(x, n - 1), Halved(y, n - 1));
    }
  }

  lemma HighBitsShift(x: bv32)
    requires x & 0xFF == 0
    ensures Halve(x) == x >> 1 && Halve(x >> 1) == x >> 2 && Halve(x >> 2) == x >> 3 && Halve(x >> 3) == x >> 4
    ensures Halve(x >> 4) == x >> 5 && Halve(x >> 5) == x >> 6 && Halve(x >> 6) == x >> 7 && Halve(x >> 7) == x >> 8
  {
  }

  lemma HalvedHigh(x: bv32)
    requires x & 0xFF == 0
    ensures Halved(x, 8) == x >> 8
  {
    HighBitsShift(x);
    hide Halve;
    assert Halved(x, 1) == x >> 1;
    assert Halved(x, 2) == x >> 2;
    assert Halved(x, 3) == x >> 3;
    assert Halved(x, 4) == x >> 4;
    assert Halved(x, 5) == x >> 5;
    assert Halved(x, 6) == x >> 6;
    assert Halved(x, 7) == x >> 7;
  }

  function Upper(state: bv32): bv32 {
    state & 0xFFFF_FF00
  }

  lemma UpperShifts(state: bv32)
    ensures Halved(Upper(state), 8) == Shifted(state)
  {
    hide Halved;
    UpperBits(state);
    HalvedHigh(Upper(state));
  }

  lemma UpperBits(state: bv32)
    ensures Upper(state) & 0xFF == 0 && Upper(state) >> 8 == Shifted(state)
  {
  }

  lemma IndexAndUpper(state: bv32, b: Byte)
    ensures Xor(state, Widened(b)) == Xor(Index(state, b), Upper(state))
  {
    WidenedIsLow(b);
    hide Widened;
    LowAndHigh(state, Widened(b));
  }

  lemma LowAndHigh(state: bv32, b: bv32)
    requires b & 0xFF == b
    ensures state ^ b == ((state ^ b) & 0xFF) ^ (state & 0xFFFF_FF00)
  {
  }

  lemma WidenedIsLow(b: Byte)
    ensures Widened(b) & 0xFF == Widened(b)
  {
  }

  lemma WidenedApart(b: Byte, c: Byte)
    requires Widened(b) == Widened(c)
    ensures b == c
  {
    NarrowReadsBack(b);
    NarrowReadsBack(c);
    NarrowApart(b as bv8, c as bv8);
  }

  lemma NarrowReadsBack(b: Byte)
    ensures (b as bv8) as int == b
  {
    var x := AsBits(b);
    BitsReadBack(x);
  }

  /** Every byte is the number of some eight bits, counting up to it. */
  lemma {:induction false} AsBits(b: Byte) returns (x: bv8)
    ensures x as int == b
  {
    if b == 0 {
      x := 0;
    } else {
      x := AsBits(b - 1);
      NotTheLast(x);
      OneMore(x);
      x := x + 1;
    }
  }

  lemma OneMore(x: bv8)
    requires x != 255
    ensures (x + 1) as int == x as int + 1
  {
  }

  lemma NotTheLast(x: bv8)
    requires x as int < 255
    ensures x != 255
  {
  }

  lemma BitsReadBack(x: bv8)
    ensures (x as int) as bv8 == x
  {
  }

  lemma NarrowApart(x: bv8, y: bv8)
    requires x as bv32 == y as bv32
    ensures x == y
  {
  }

  /** The step by table is the division of the sum of state and byte, bit by bit. */
  lemma StepIsDivision(state: bv32, b: Byte)
    ensures Step(state, b) == Halved(Xor(state, Widened(b)), 8)
  {
    hide Halved, Widened, Table, Xor, Index, Upper, Shifted;
    UpperShifts(state);
    IndexAndUpper(state, b);
    HalvedAdds(Index(state, b), Upper(state), 8);
    TableIs(Index(state, b));
  }

  lemma TableIs(i: bv32)
    ensures Table(i) == Halved(i, 8)
  {
  }

  /** Different states stay different, whatever byte comes. */
  lemma StepKeepsStatesApart(x: bv32, y: bv32, b: Byte)
    requires Step(x, b) == Step(y, b)
    ensures x == y
  {
    StepIsDivision(x, b);
    StepIsDivision(y, b);
    hide Step, Halved, Widened, Xor;
    HalvedInjective(Xor(x, Widened(b)), Xor(y, Widened(b)), 8);
    XorApart(x, y, Widened(b));
  }

  /** Different bytes make different states of one. */
  lemma StepTellsBytesApart(state: bv32, b: Byte, c: Byte)
    requires Step(state, b) == Step(state, c)
    ensures b == c
  {
    StepIsDivision(state, b);
    StepIsDivision(state, c);
    hide Step, Halved, Widened, Xor;
    HalvedInjective(Xor(state, Widened(b)), Xor(state, Widened(c)), 8);
    XorApart(Widened(b), Widened(c), state);
    WidenedApart(b, c);
  }

  lemma XorApart(x: bv32, y: bv32, z: bv32)
    ensures Xor(x, z) == Xor(y, z) ==> x == y
    ensures Xor(z, x) == Xor(z, y) ==> x == y
  {
  }

  lemma {:induction false} FoldKeepsStatesApart(x: bv32, y: bv32, data: Bytes)
    requires Fold(x, data) == Fold(y, data)
    ensures x == y
  {
    hide Step;
    if data != [] {
      var n := |data| - 1;
      StepKeepsStatesApart(Fold(x, data[..n]), Fold(y, data[..n]), data[n]);
      FoldKeepsStatesApart(x, y, data[..n]);
    }
  }

  lemma NumberApart(x: bv32, y: bv32)
    requires Number(x) == Number(y)
    ensures x == y
  {
    assert (x as int) as bv32 == x;
    assert (y as int) as bv32 == y;
  }

  lemma FinalApart(x: bv32, y: bv32)
    requires Final(x) == Final(y)
    ensures x == y
  {
    NumberApart(!x, !y);
    NotApart(x, y);
  }

  lemma NotApart(x: bv32, y: bv32)
    requires !x == !y
    ensures x == y
  {
  }

  /** A checksum is never that of the same bytes with one of them changed. */
  lemma OneByteChangesValue(data: Bytes, i: nat, b: Byte)
    requires i < |data| && b != data[i]
    ensures Value(data[i := b]) != Value(data)
  {
    hide Step, Final;
    var front, back := data[..i], data[i + 1..];
    FoldAround(front, data[i], back, data);
    FoldAround(front, b, back, data[i := b]);
    if Value(data[i := b]) == Value(data) {
      FinalApart(Fold(INITIAL_STATE, data[i := b]), Fold(INITIAL_STATE, data));
      FoldKeepsStatesApart(Step(Fold(INITIAL_STATE, front), data[i]), Step(Fold(INITIAL_STATE, front), b), back);
      StepTellsBytesApart(Fold(INITIAL_STATE, front), data[i], b);
    }
  }

  lemma FoldAround(front: Bytes, b: Byte, back: Bytes, data: Bytes)
    requires data == front + [b] + back
    ensures Fold(INITIAL_STATE, data) == Fold(Step(Fold(INITIAL_STATE, front), b), back)
  {
    hide Step;
    FoldConcat(INITIAL_STATE, front + [b], back);
    FoldOneMore(INITIAL_STATE, front, b);
  }

  method InternalCrc32(data: Bytes, initial: bv32) returns (state: bv32)
    ensures state == Fold(initial, data)
  {
    hide Step;
    state := initial;
    for i := 0 to |data|
      invariant state == Fold(initial, data[..i])
    {
      assert data[..i + 1] == data[..i] + [data[i]];
      FoldOneMore(initial, data[..i], data[i]);
      state := Step(state, data[i]);
    }
    assert data[..|data|] == data;
  }
}
