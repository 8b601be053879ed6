/**
 The encoder that writes to memory, pw_protobuf/encoder.cc. A nested message is built in the same buffer, some
 way behind what its parent has written, and moved down when it is closed.
 */
module ProtobufEncoder {
  import opened Varint
  import opened Stream
  import opened ProtobufWire

  const MAX_VARINT_SIZE := 4                // bytes kept free for the length of a nested message
  const MAX_NESTED_SIZE := 0xFFF_FFFF       // the largest length they can hold

  function StatusOf(status: WriteStatus): Status {
    match status
    case Written => Ok
    case WriteOutOfRange => OutOfRange
    case WriteResourceExhausted => ResourceExhausted
  }

  class MemoryEncoder {
    const writer: MemoryWriter
    const parent: MemoryEncoder?
    var status: Status
    // The field number of the nested message that is open, or 0.
    var nestedFieldNumber: nat

    ghost predicate Valid()
      reads this, writer
    {
      writer.Valid()
    }

    ghost function Output(): Bytes
      requires Valid()
      reads this, writer, writer.buffer
    {
      writer.WrittenData()
    }

    function Limit(): nat
      requires Valid()
      reads this, writer
    {
      writer.ConservativeWriteLimit()
    }

    constructor (writer: MemoryWriter, parent: MemoryEncoder?, status: Status)
      requires writer.Valid()
      ensures Valid() && this.writer == writer && this.parent == parent && this.status == status
      ensures nestedFieldNumber == 0
    {
      this.writer := writer;
      this.parent := parent;
      this.status := status;
      nestedFieldNumber := 0;
    }

    /** Writes bytes unless something failed before. */
    method Put(data: Bytes)
      requires Valid()
      modifies this`status, writer`position, writer.buffer
      ensures old(writer.position) <= writer.position
      ensures Valid()
      ensures status == if old(status) != Ok then old(status) else StatusOf(StatusOfWrite(old(Limit()), |data|))
      ensures status == Ok ==> Output() == old(Output()) + data && Limit() == old(Limit()) - |data|
      ensures status != Ok ==> Output() == old(Output()) && writer.buffer[..] == old(writer.buffer[..])
      ensures SameOutside(old(writer.buffer[..]), writer.buffer[..], writer.begin + old(writer.position), writer.end)
      ensures status == Ok ==> SameOutside(old(writer.buffer[..]), writer.buffer[..],
                                           writer.begin + old(writer.position), writer.begin + writer.position)
    {
      if status != Ok {
        return;
      }
      ghost var b, at := writer.buffer[..], writer.begin + writer.position;
      if |data| <= Limit() {
        SplicedOutside(b, at, data, at, writer.end);
        SplicedOutside(b, at, data, at, at + |data|);
      }
      var result := writer.Write(data);
      status := StatusOf(result);
    }

    /** Refuses a field with a bad number, or one that does not fit, before any of it is written. */
    method UpdateStatusForWrite(number: nat, wireType: nat, dataSize: nat)
      requires Valid() && nestedFieldNumber == 0 && dataSize < TWO_TO_THE_32
      modifies this`status
      ensures status ==
        if old(status) != Ok then old(status)
        else if !ValidFieldNumber(number) then InvalidArgument
        else if Limit() < SizeOfField(number, wireType, dataSize) then ResourceExhausted
        else Ok
    {
      if status != Ok {
        return;
      }
      if !ValidFieldNumber(number) {
        status := InvalidArgument;
        return;
      }
      if SizeOfField(number, wireType, dataSize) > Limit() {
        status := ResourceExhausted;
      }
    }

    method WriteVarintField(number: nat, value: Uint64)
      requires Valid() && nestedFieldNumber == 0
      modifies this`status, writer`position, writer.buffer
      ensures old(writer.position) <= writer.position
      ensures Valid() && WroteField(VarintField(number, value), old(status), status, old(Limit()), Limit(), old(Output()), Output())
      ensures SameOutside(old(writer.buffer[..]), writer.buffer[..], writer.begin + old(writer.position), writer.end)
    {
      hide Encode, Spliced, SameOutside, MemoryWriter.WrittenData;
      FieldParts(VarintField(number, value));
      EncodedSize(LEB128, value);
      OutsideStart(writer.buffer[..], writer.begin + writer.position, writer.end);
      UpdateStatusForWrite(number, VARINT, |Encode(LEB128, value)|);
      if status != Ok {
        return;
      }
      PutTwo(Encode(LEB128, Key(number, VARINT)), Encode(LEB128, value));
    }

    method WriteFixed(number: nat, data: Bytes)
      requires Valid() && nestedFieldNumber == 0 && (|data| == 4 || |data| == 8)
      modifies this`status, writer`position, writer.buffer
      ensures old(writer.position) <= writer.position
      ensures Valid() && WroteField(FixedField(number, data), old(status), status, old(Limit()), Limit(), old(Output()), Output())
      ensures SameOutside(old(writer.buffer[..]), writer.buffer[..], writer.begin + old(writer.position), writer.end)
    {
      hide Encode, Spliced, SameOutside, MemoryWriter.WrittenData;
      FieldParts(FixedField(number, data));
      OutsideStart(writer.buffer[..], writer.begin + writer.position, writer.end);
      var wireType := if |data| == 4 then FIXED32 else FIXED64;
      UpdateStatusForWrite(number, wireType, |data|);
      if status != Ok {
        return;
      }
      PutTwo(Encode(LEB128, Key(number, wireType)), data);
    }

    method WriteBytes(number: nat, data: Bytes)
      requires Valid() && nestedFieldNumber == 0 && |data| < TWO_TO_THE_32
      modifies this`status, writer`position, writer.buffer
      ensures old(writer.position) <= writer.position
      ensures Valid() && WroteField(BytesField(number, data), old(status), status, old(Limit()), Limit(), old(Output()), Output())
      ensures SameOutside(old(writer.buffer[..]), writer.buffer[..], writer.begin + old(writer.position), writer.end)
    {
      hide Encode, Spliced, SameOutside, MemoryWriter.WrittenData;
      FieldParts(BytesField(number, data));
      ghost var before, lo := writer.buffer[..], writer.begin + writer.position;
      OutsideStart(before, lo, writer.end);
      UpdateStatusForWrite(number, DELIMITED, |data|);
      if status != Ok {
        return;
      }
      PutTwo(Encode(LEB128, Key(number, DELIMITED)), Encode(LEB128, |data|));
      ghost var middle, lo' := writer.buffer[..], writer.begin + writer.position;
      Put(data);
      OutsideSmaller(middle, writer.buffer[..], lo', writer.end, lo, writer.end);
      OutsideTransitive(before, middle, writer.buffer[..], lo, writer.end);
    }

    /** Writes two pieces for which there is room. */
    method PutTwo(first: Bytes, second: Bytes)
      requires Valid() && status == Ok && first != [] && second != [] && |first| + |second| <= Limit()
      modifies this`status, writer`position, writer.buffer
      ensures old(writer.position) <= writer.position
      ensures Valid() && status == Ok
      ensures Output() == old(Output()) + (first + second) && Limit() == old(Limit()) - |first| - |second|
      ensures SameOutside(old(writer.buffer[..]), writer.buffer[..],
                          writer.begin + old(writer.position), writer.begin + writer.position)
      ensures SameOutside(old(writer.buffer[..]), writer.buffer[..], writer.begin + old(writer.position), writer.end)
    {
      hide Spliced, SameOutside, MemoryWriter.WrittenData;
      ghost var b0, p0 := writer.buffer[..], writer.begin + writer.position;
      Put(first);
      ghost var b1, p1 := writer.buffer[..], writer.begin + writer.position;
      Put(second);
      ghost var b2, p2 := writer.buffer[..], writer.begin + writer.position;
      OutsideSmaller(b0, b1, p0, p1, p0, p2);
      OutsideSmaller(b1, b2, p1, p2, p0, p2);
      OutsideTransitive(b0, b1, b2, p0, p2);
      OutsideSmaller(b0, b2, p0, p2, p0, writer.end);
    }

    // ---------------------------------------------------------------- nested messages

    /** Bytes between the end of what is written and the start of a nested message: key and length at their longest. */
    function Reserved(number: nat): nat {
      |Encode(LEB128, Key(number, DELIMITED))| + MAX_VARINT_SIZE
    }

    /** How much a nested message may hold: what is left behind the reserve, up to the largest length. */
    function NestedSize(number: nat): nat
      requires Valid()
      reads this, writer
    {
      var left := if Limit() > Reserved(number) then Limit() - Reserved(number) else 0;
      if left < MAX_NESTED_SIZE then left else MAX_NESTED_SIZE
    }

    /** This encoder is for a message nested in the field of that number, and its bytes lie behind the reserve. */
    ghost predicate Nests(child: MemoryEncoder, number: nat)
      requires Valid()
      reads this, writer, child, child.writer
    {
      && child != this && child.writer != writer && child.parent == this
      && child.Valid() && child.writer.buffer == writer.buffer && child.nestedFieldNumber == 0
      && (NestedSize(number) == 0 ==> child.status != Ok)
      && (NestedSize(number) != 0 ==>
            && child.writer.begin == writer.begin + writer.position + Reserved(number)
            && child.writer.end == child.writer.begin + NestedSize(number))
      && (NestedSize(number) == 0 ==> child.writer.begin == child.writer.end == 0)
    }

    /** Opens a nested message; until it is closed, nothing may be written to this one. */
    method GetNestedEncoder(number: nat) returns (child: MemoryEncoder)
      requires Valid() && nestedFieldNumber == 0 && ValidFieldNumber(number)
      modifies this`nestedFieldNumber
      ensures fresh(child) && fresh(child.writer)
      ensures Valid() && nestedFieldNumber == number && Nests(child, number)
      ensures child.Output() == [] && child.Limit() == NestedSize(number)
      ensures child.status == if NestedSize(number) == 0 then ResourceExhausted else Ok
    {
      nestedFieldNumber := number;
      var maxSize := NestedSize(number);
      var nestedWriter;
      if maxSize > 0 {
        var begin := writer.begin + writer.position + Reserved(number);
        nestedWriter := new MemoryWriter(writer.buffer, begin, begin + maxSize);
      } else {
        nestedWriter := new MemoryWriter(writer.buffer, 0, 0);
      }
      child := new MemoryEncoder(nestedWriter, this, if maxSize == 0 then ResourceExhausted else Ok);
    }

    /**
     Closes a nested message: key, length and its bytes are written behind what is there, as if it had been
     encoded on its own. The key and the length do not reach its bytes, and if it succeeded there is room.
     */
    method CloseNestedMessage(child: MemoryEncoder, number: nat)
      requires Valid() && nestedFieldNumber == number && ValidFieldNumber(number) && Nests(child, number)
      modifies this`status, this`nestedFieldNumber, writer`position, writer.buffer, child`nestedFieldNumber
      ensures old(writer.position) <= writer.position
      ensures Valid() && nestedFieldNumber == 0 && child.nestedFieldNumber == FIRST_RESERVED_NUMBER
      ensures status == if old(status) != Ok then old(status) else child.status
      ensures status == Ok ==>
        var data := old(child.Output());
        && Output() == old(Output()) + Encode(LEB128, Key(number, DELIMITED)) + Prefixed(data)
        && Limit() == old(Limit()) - |Encode(LEB128, Key(number, DELIMITED))| - |Prefixed(data)|
      ensures SameOutside(old(writer.buffer[..]), writer.buffer[..], writer.begin + old(writer.position), writer.end)
    {
      hide Encode, Spliced, SameOutside, MemoryWriter.WrittenData;
      ghost var before, lo := writer.buffer[..], writer.begin + writer.position;
      OutsideStart(before, lo, writer.end);
      child.nestedFieldNumber := FIRST_RESERVED_NUMBER;
      nestedFieldNumber := 0;
      if status == Ok {
        status := child.status;
      }
      if status != Ok {
        return;
      }
      var size := child.writer.position;
      // The check that the length fits its reserve cannot fail, as the nested buffer was cut to that size.
      NestedLengthFits(size);
      assert |Encode(LEB128, size)| <= MAX_VARINT_SIZE;
      KeySize(number, DELIMITED);
      UpdateStatusForWrite(number, DELIMITED, size);
      MoveNested(child.writer, number, size);
    }

    /** Writes key and length, then moves the nested bytes down behind them. */
    method MoveNested(nested: MemoryWriter, number: nat, size: nat)
      requires Valid() && status == Ok && nested.Valid() && nested.buffer == writer.buffer && size == nested.position
      requires writer.begin + writer.position + |Encode(LEB128, Key(number, DELIMITED))| + MAX_VARINT_SIZE <= nested.begin
      requires nested.begin < nested.end <= writer.end && |Encode(LEB128, size)| <= MAX_VARINT_SIZE
      modifies this`status, writer`position, writer.buffer
      ensures old(writer.position) <= writer.position
      ensures Valid() && status == Ok
      ensures var data := old(nested.WrittenData());
        && Output() == old(Output()) + Encode(LEB128, Key(number, DELIMITED)) + Prefixed(data)
        && Limit() == old(Limit()) - |Encode(LEB128, Key(number, DELIMITED))| - |Prefixed(data)|
      ensures SameOutside(old(writer.buffer[..]), writer.buffer[..], writer.begin + old(writer.position), writer.end)
    {
      hide Encode, Spliced, SameOutside, MemoryWriter.WrittenData;
      ghost var before, lo := writer.buffer[..], writer.begin + writer.position;
      ghost var output, data := Output(), nested.WrittenData();
      WrittenIsSlice(nested);
      var key, length := Encode(LEB128, Key(number, DELIMITED)), Encode(LEB128, size);
      PutTwo(key, length);
      ghost var middle, lo' := writer.buffer[..], writer.begin + writer.position;
      NestedUntouched(before, middle, lo, lo', nested.begin, size);
      var bytes := writer.buffer[nested.begin..nested.begin + size];
      assert bytes == middle[nested.begin..nested.begin + size] == data;
      Put(bytes);
      assert output + (key + length) + data == output + key + Prefixed(data);
      OutsideSmaller(middle, writer.buffer[..], lo', writer.end, lo, writer.end);
      OutsideTransitive(before, middle, writer.buffer[..], lo, writer.end);
    }
  }

  function SizeOfField(number: nat, wireType: nat, dataSize: nat): nat {
    |Encode(LEB128, Key(number, VARINT))| + (if wireType == DELIMITED then |Encode(LEB128, dataSize)| else 0) + dataSize
  }

  /**
   What a write of one field does. It is refused whole when its number is bad or it does not fit. A bytes
   field that is empty and fills the buffer to the last byte is written but reported as out of range, since a full
   writer refuses even an empty write.
   */
  ghost predicate WroteField(
    f: Field, before: Status, after: Status, room: nat, room': nat, output: Bytes, output': Bytes)
  {
    && after == (
        if before != Ok then before
        else if !ValidFieldNumber(f.number) then InvalidArgument
        else if room < |EncodeField(f)| then ResourceExhausted
        else if f.BytesField? && f.data == [] && |EncodeField(f)| == room then OutOfRange
        else Ok)
    && (after == Ok ==> output' == output + EncodeField(f) && room' == room - |EncodeField(f)|)
    && (after in {InvalidArgument, ResourceExhausted} ==> output' == output && room' == room)
  }

  /** A key has the same size for every wire type. */
  lemma KeySize(number: nat, wireType: nat)
    requires wireType < 8
    ensures |Encode(LEB128, Key(number, wireType))| == |Encode(LEB128, Key(number, VARINT))|
  {
    assert Key(number, wireType) / 128 == Key(number, VARINT) / 128;
  }

  lemma FieldParts(f: Field)
    requires !f.MessageField?
    ensures f.VarintField? ==>
      EncodeField(f) == Encode(LEB128, KeyOf(f)) + Encode(LEB128, f.value)
      && |EncodeField(f)| == SizeOfField(f.number, VARINT, |Encode(LEB128, f.value)|)
    ensures f.FixedField? ==>
      EncodeField(f) == Encode(LEB128, KeyOf(f)) + f.data && |EncodeField(f)| == SizeOfField(f.number, WireTypeOf(f), |f.data|)
    ensures f.BytesField? ==>
      EncodeField(f) == Encode(LEB128, KeyOf(f)) + Encode(LEB128, |f.data|) + f.data
      && |EncodeField(f)| == SizeOfField(f.number, DELIMITED, |f.data|)
  {
    hide Encode;
    KeySize(f.number, WireTypeOf(f));
  }

  lemma NestedLengthFits(size: nat)
    requires size <= MAX_NESTED_SIZE
    ensures |Encode(LEB128, size)| <= MAX_VARINT_SIZE
  {
    assert Power128(4) == 0x1000_0000 by {
      assert Power128(2) == 128 * Power128(1) == 0x4000;
    }
    EncodedSizeWithin(LEB128, size, 4);
  }

  /** A write that stops before the nested bytes leaves them alone. */
  lemma NestedUntouched(before: Bytes, after: Bytes, lo: nat, hi: nat, begin: nat, size: nat)
    requires SameOutside(before, after, lo, hi) && hi <= begin && begin + size <= |before|
    ensures after[begin..begin + size] == before[begin..begin + size]
  {
    forall i | begin <= i < begin + size
      ensures after[i] == before[i]
    {
      assert after[hi..][i - hi] == before[hi..][i - hi];
    }
  }

  lemma WrittenIsSlice(w: MemoryWriter)
    requires w.Valid()
    ensures |w.WrittenData()| == w.position
    ensures w.WrittenData() == w.buffer[..][w.begin..w.begin + w.position]
  {
  }

  // ---------------------------------------------------------------- whole messages

  predicate Writable(fields: seq<Field>)
    decreases fields
  {
    fields != [] ==> WritableField(fields[0]) && Writable(fields[1..])
  }

  predicate WritableField(f: Field)
    decreases f
  {
    Encodable(f) && (f.MessageField? ==> Writable(f.fields))
  }

  /** How deep messages are nested. */
  function Depth(fields: seq<Field>): nat
    decreases fields
  {
    if fields == [] then 0
    else
      var first := match fields[0] case MessageField(_, nested) => 1 + Depth(nested) case _ => 0;
      var rest := Depth(fields[1..]);
      if first < rest then rest else first
  }

  /** The number of fields, counting those of nested messages. */
  function Weight(fields: seq<Field>): nat
    decreases fields
  {
    if fields == [] then 0 else FieldWeight(fields[0]) + Weight(fields[1..])
  }

  function FieldWeight(f: Field): (n: nat)
    ensures 0 < n
    decreases f
  {
    match f case MessageField(_, nested) => 1 + Weight(nested) case _ => 1
  }

  /** Room for the message and, as is documented, the length reserve of every level, with a byte to spare. */
  ghost predicate Roomy(fields: seq<Field>, room: nat) {
    && |EncodeFields(fields)| + MAX_VARINT_SIZE * Depth(fields) < room
    && |EncodeFields(fields)| + MAX_VARINT_SIZE * Depth(fields) < MAX_NESTED_SIZE
  }

  lemma RoomyParts(fields: seq<Field>, room: nat)
    requires fields != [] && Roomy(fields, room)
    ensures |EncodeField(fields[0])| < room
    ensures Roomy(fields[1..], room - |EncodeField(fields[0])|)
    ensures fields[0].MessageField? ==>
      var key := |Encode(LEB128, KeyOf(fields[0]))|;
      key + MAX_VARINT_SIZE < room
      && forall left :: room - key - MAX_VARINT_SIZE <= left || left == MAX_NESTED_SIZE ==> Roomy(fields[0].fields, left)
  {
    hide Encode;
  }

  /** From one state of an encoder to another the bytes of these fields were appended, or it failed. */
  ghost predicate Appended(
    bytes: Bytes, before: Status, after: Status, room: nat, room': nat, output: Bytes, output': Bytes)
  {
    && (before != Ok ==> after != Ok)
    && (after == Ok ==> output' == output + bytes && room' == room - |bytes|)
  }

  /**
   Encodes a message of any depth through nested encoders. If that succeeds, the output is the encoding of the
   message with its nested messages encoded on their own; and it does succeed when there is room.
   */
  method EncodeMessage(e: MemoryEncoder, fields: seq<Field>)
    requires e.Valid() && e.nestedFieldNumber == 0 && Writable(fields)
    modifies e`status, e`nestedFieldNumber, e.writer`position, e.writer.buffer
    ensures e.Valid() && e.nestedFieldNumber == 0
    ensures Appended(EncodeFields(fields), old(e.status), e.status, old(e.Limit()), e.Limit(), old(e.Output()), e.Output())
    ensures old(e.status) == Ok && Roomy(fields, old(e.Limit())) ==> e.status == Ok
    ensures SameOutside(old(e.writer.buffer[..]), e.writer.buffer[..], e.writer.begin + old(e.writer.position), e.writer.end)
    decreases Weight(fields), 1
  {
    hide Encode, Spliced, SameOutside, MemoryWriter.WrittenData, Roomy, EncodeField;
    ghost var before, lo := e.writer.buffer[..], e.writer.begin + e.writer.position;
    OutsideStart(before, lo, e.writer.end);
    if fields == [] {
      return;
    }
    if Roomy(fields, e.Limit()) {
      RoomyParts(fields, e.Limit());
    }
    ghost var output := e.Output();
    EncodeOne(e, fields[0]);
    ghost var middle, lo' := e.writer.buffer[..], e.writer.begin + e.writer.position;
    EncodeMessage(e, fields[1..]);
    assert output + EncodeField(fields[0]) + EncodeFields(fields[1..]) == output + EncodeFields(fields);
    OutsideSmaller(middle, e.writer.buffer[..], lo', e.writer.end, lo, e.writer.end);
    OutsideTransitive(before, middle, e.writer.buffer[..], lo, e.writer.end);
  }

  lemma RoomyIsRoom(fields: seq<Field>, room: nat)
    ensures Roomy(fields, room) ==> 0 < room
  {
  }

  /** What a nested encoder writes is outside of what its parent has written, and inside its parent's buffer. */
  lemma NestedInside(before: Bytes, after: Bytes, lo: nat, hi: nat, begin: nat, written: nat, end: nat)
    requires SameOutside(before, after, lo, hi) && begin <= written <= end <= |before|
    requires lo == hi == 0 || (written <= lo && hi <= end)
    ensures SameOutside(before, after, written, end)
    ensures after[begin..written] == before[begin..written]
  {
    if lo == 0 && hi == 0 {
      assert before[0..] == before && after[0..] == after;
    } else {
      OutsideSmaller(before, after, lo, hi, written, end);
    }
    assert before[begin..written] == before[..written][begin..];
    assert after[begin..written] == after[..written][begin..];
  }

  method EncodeOne(e: MemoryEncoder, f: Field)
    requires e.Valid() && e.nestedFieldNumber == 0 && WritableField(f)
    modifies e`status, e`nestedFieldNumber, e.writer`position, e.writer.buffer
    ensures e.Valid() && e.nestedFieldNumber == 0 && old(e.writer.position) <= e.writer.position
    ensures Appended(EncodeField(f), old(e.status), e.status, old(e.Limit()), e.Limit(), old(e.Output()), e.Output())
    ensures old(e.status) == Ok && |EncodeField(f)| < old(e.Limit()) && !f.MessageField? ==> e.status == Ok
    ensures old(e.status) == Ok && f.MessageField? && Roomy(f.fields, old(e.NestedSize(f.number))) ==> e.status == Ok
    ensures SameOutside(old(e.writer.buffer[..]), e.writer.buffer[..], e.writer.begin + old(e.writer.position), e.writer.end)
    decreases FieldWeight(f), 0
  {
    hide Encode, Spliced, SameOutside, MemoryWriter.WrittenData, Roomy;
    match f
    case VarintField(number, value) =>
      e.WriteVarintField(number, value);
    case FixedField(number, data) =>
      e.WriteFixed(number, data);
    case BytesField(number, data) =>
      e.WriteBytes(number, data);
    case MessageField(number, nested) =>
      EncodeNested(e, number, nested);
      assert EncodeField(f) == Encode(LEB128, Key(number, DELIMITED)) + Prefixed(EncodeFields(nested));
  }

  /** Opens a nested message, encodes it where it is, and closes it. */
  method EncodeNested(e: MemoryEncoder, number: nat, nested: seq<Field>)
    requires e.Valid() && e.nestedFieldNumber == 0 && ValidFieldNumber(number) && Writable(nested)
    modifies e`status, e`nestedFieldNumber, e.writer`position, e.writer.buffer
    ensures e.Valid() && e.nestedFieldNumber == 0 && old(e.writer.position) <= e.writer.position
    ensures Appended(Encode(LEB128, Key(number, DELIMITED)) + Prefixed(EncodeFields(nested)),
                     old(e.status), e.status, old(e.Limit()), e.Limit(), old(e.Output()), e.Output())
    ensures old(e.status) == Ok && Roomy(nested, old(e.NestedSize(number))) ==> e.status == Ok
    ensures SameOutside(old(e.writer.buffer[..]), e.writer.buffer[..], e.writer.begin + old(e.writer.position), e.writer.end)
    decreases Weight(nested), 2
  {
    hide Encode, Spliced, SameOutside, MemoryWriter.WrittenData, Roomy, EncodeFields, Writable;
    ghost var before, lo := e.writer.buffer[..], e.writer.begin + e.writer.position;
    ghost var output := e.Output();
    WrittenIsSlice(e.writer);
    var child := e.GetNestedEncoder(number);
    RoomyIsRoom(nested, child.Limit());
    EncodeMessage(child, nested);
    ghost var middle := e.writer.buffer[..];
    NestedInside(before, middle, child.writer.begin, child.writer.end, e.writer.begin, lo, e.writer.end);
    WrittenIsSlice(e.writer);
    assert e.Output() == output;
    e.CloseNestedMessage(child, number);
    OutsideTransitive(before, middle, e.writer.buffer[..], lo, e.writer.end);
  }
}
