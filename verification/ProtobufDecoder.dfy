/** The pull decoder, pw_protobuf/decoder.cc: a span of bytes that shrinks from the front. */
module ProtobufDecoder {
  import opened Varint
  import opened ProtobufWire

  /** The size of the field at the front, key and all, or 0 if there is no whole field. Sizes wrap at 64 bits. */
  function FieldSize(proto: Bytes): (size: nat)
    ensures size <= |proto|
  {
    var (key, keySize) := Decode(LEB128, proto);
    if keySize == 0 || !IsValidKey(key) then 0 else
    var remainder := proto[keySize..];
    var (value, size) := Decode(LEB128, remainder);
    var expected :=
      if key % 8 == VARINT then size
      else if key % 8 == DELIMITED then (if size == 0 then 0 else (size + value) % TWO_TO_THE_64)
      else if key % 8 == FIXED32 then 4
      else 8;
    if (key % 8 == VARINT || key % 8 == DELIMITED) && size == 0 then 0
    else if |remainder| < expected then 0
    else keySize + expected
  }

  /** The bytes begin with this field. */
  ghost predicate Begins(proto: Bytes, f: Field, rest: Bytes) {
    proto == EncodeField(f) + rest && Encodable(f) && !f.MessageField?
  }

  lemma KeyInFront(proto: Bytes, f: Field, rest: Bytes)
    requires Begins(proto, f, rest)
    ensures Decode(LEB128, proto) == (KeyOf(f), |Encode(LEB128, KeyOf(f))|)
    ensures |Encode(LEB128, KeyOf(f))| <= |proto|
    ensures var payload := proto[|Encode(LEB128, KeyOf(f))|..];
      match f
      case VarintField(_, value) => payload == Encode(LEB128, value) + rest
      case FixedField(_, data) => payload == data + rest
      case BytesField(_, data) => payload == Encode(LEB128, |data|) + (data + rest)
      case MessageField(_, _) => true
  {
    hide Encode, Decode;
    KeyIsValid(f);
    DecodeEncoded(LEB128, KeyOf(f), proto);
  }

  /** The front field is measured right, whatever follows it. */
  lemma FieldSizeEncoded(proto: Bytes, f: Field, rest: Bytes)
    requires Begins(proto, f, rest)
    ensures FieldSize(proto) == |EncodeField(f)| && 0 < |EncodeField(f)|
    ensures proto[FieldSize(proto)..] == rest
  {
    hide Encode, Decode;
    KeyInFront(proto, f, rest);
    KeyIsValid(f);
    var payload := proto[|Encode(LEB128, KeyOf(f))|..];
    match f {
      case VarintField(_, value) =>
        DecodeEncoded(LEB128, value, payload);
      case FixedField(_, data) =>
      case BytesField(_, data) =>
        DecodeEncoded(LEB128, |data|, payload);
        EncodedSize(LEB128, |data|);
    }
  }

  class Decoder {
    var proto: Bytes
    var previousFieldConsumed: bool

    constructor (proto: Bytes)
      ensures this.proto == proto && previousFieldConsumed
    {
      this.proto := proto;
      previousFieldConsumed := true;
    }

    method SkipField() returns (status: Status)
      modifies this`proto
      ensures proto == old(proto)[FieldSize(old(proto))..]
      ensures status ==
        if old(proto) == [] then OutOfRange
        else if FieldSize(old(proto)) == 0 then DataLoss
        else if proto == [] then OutOfRange
        else Ok
    {
      if |proto| == 0 {
        return OutOfRange;
      }
      var bytesToSkip := FieldSize(proto);
      if bytesToSkip == 0 {
        return DataLoss;
      }
      proto := proto[bytesToSkip..];
      status := if |proto| == 0 then OutOfRange else Ok;
    }

    /** Goes to the next field: past the current one, if that was not read. */
    method Next() returns (status: Status)
      modifies this
      ensures old(previousFieldConsumed) ==> proto == old(proto)
      ensures !old(previousFieldConsumed) ==> proto == old(proto)[FieldSize(old(proto))..]
      ensures !old(previousFieldConsumed) && old(proto) != [] && FieldSize(old(proto)) == 0 ==> status == DataLoss
      ensures old(previousFieldConsumed) || FieldSize(old(proto)) != 0 || old(proto) == [] ==>
        status == if proto == [] then OutOfRange else if FieldSize(proto) == 0 then DataLoss else Ok
      ensures status == Ok ==> !previousFieldConsumed
    {
      if !previousFieldConsumed {
        status := SkipField();
        if status != Ok {
          return;
        }
      }
      if |proto| == 0 {
        return OutOfRange;
      }
      previousFieldConsumed := false;
      status := if FieldSize(proto) == 0 then DataLoss else Ok;
    }

    function WireType(): nat
      reads this
    {
      Decode(LEB128, proto).0 % 8
    }

    function FieldNumber(): nat
      reads this
    {
      var key := Decode(LEB128, proto).0;
      if IsValidKey(key) then key / 8 else 0
    }

    method ConsumeKey(expected: nat) returns (status: Status)
      modifies this`proto
      ensures status != Ok ==> proto == old(proto)
      ensures forall f, rest {:trigger Begins(old(proto), f, rest)} :: Begins(old(proto), f, rest) ==>
        && status == (if WireTypeOf(f) == expected then Ok else FailedPrecondition)
        && (status == Ok ==> proto == old(proto)[|Encode(LEB128, KeyOf(f))|..])
    {
      forall f, rest | Begins(proto, f, rest)
        ensures Decode(LEB128, proto) == (KeyOf(f), |Encode(LEB128, KeyOf(f))|)
        ensures IsValidKey(KeyOf(f)) && KeyOf(f) % 8 == WireTypeOf(f)
      {
        KeyInFront(proto, f, rest);
        KeyIsValid(f);
      }
      hide Encode, Decode;
      var (key, bytesRead) := Decode(LEB128, proto);
      if bytesRead == 0 {
        return FailedPrecondition;
      }
      if !IsValidKey(key) {
        return DataLoss;
      }
      if key % 8 != expected {
        return FailedPrecondition;
      }
      proto := proto[bytesRead..];
      return Ok;
    }

    method ReadVarint() returns (status: Status, value: Uint64)
      modifies this
      ensures status == Ok ==> previousFieldConsumed
      ensures forall f, rest {:trigger Begins(old(proto), f, rest)} :: Begins(old(proto), f, rest) ==>
        && status == (if f.VarintField? then Ok else FailedPrecondition)
        && (status == Ok ==> value == f.value && proto == rest)
        && (status != Ok ==> unchanged(this))
    {
      value := 0;
      ghost var before := proto;
      status := ConsumeKey(VARINT);
      if status != Ok {
        return;
      }
      forall f, rest | Begins(before, f, rest)
        ensures f.VarintField? && Decode(LEB128, proto) == (f.value, |Encode(LEB128, f.value)|)
        ensures |Encode(LEB128, f.value)| <= |proto| && proto[|Encode(LEB128, f.value)|..] == rest
      {
        KeyInFront(before, f, rest);
        DecodeEncoded(LEB128, f.value, proto);
      }
      hide Encode, Decode;
      var bytesRead;
      var result := Decode(LEB128, proto);
      value, bytesRead := result.0, result.1;
      if bytesRead == 0 {
        return DataLoss, value;
      }
      proto := proto[bytesRead..];
      previousFieldConsumed := true;
    }

    method ReadFixed(size: nat) returns (status: Status, data: Bytes)
      requires size == 4 || size == 8
      modifies this
      ensures status == Ok ==> previousFieldConsumed && |data| == size
      ensures forall f, rest {:trigger Begins(old(proto), f, rest)} :: Begins(old(proto), f, rest) ==>
        && status == (if f.FixedField? && |f.data| == size then Ok else FailedPrecondition)
        && (status == Ok ==> data == f.data && proto == rest)
        && (status != Ok ==> unchanged(this))
    {
      data := [];
      ghost var before := proto;
      status := ConsumeKey(if size == 4 then FIXED32 else FIXED64);
      if status != Ok {
        return;
      }
      forall f, rest | Begins(before, f, rest)
        ensures f.FixedField? && |f.data| == size && proto == f.data + rest
      {
        KeyInFront(before, f, rest);
      }
      hide Encode, Decode;
      if |proto| < size {
        return DataLoss, data;
      }
      data := proto[..size];
      proto := proto[size..];
      previousFieldConsumed := true;
    }

    method ReadDelimited() returns (status: Status, data: Bytes)
      modifies this
      ensures status == Ok ==> previousFieldConsumed
      ensures forall f, rest {:trigger Begins(old(proto), f, rest)} :: Begins(old(proto), f, rest) ==>
        && status == (if f.BytesField? then Ok else FailedPrecondition)
        && (status == Ok ==> data == f.data && proto == rest)
        && (status != Ok ==> unchanged(this))
    {
      data := [];
      ghost var before := proto;
      status := ConsumeKey(DELIMITED);
      if status != Ok {
        return;
      }
      forall f, rest | Begins(before, f, rest)
        ensures f.BytesField? && Decode(LEB128, proto) == (|f.data|, |Encode(LEB128, |f.data|)|)
        ensures |Encode(LEB128, |f.data|)| <= |proto| && proto[|Encode(LEB128, |f.data|)|..] == f.data + rest
      {
        KeyInFront(before, f, rest);
        DecodeEncoded(LEB128, |f.data|, proto);
      }
      hide Encode, Decode;
      var (length, bytesRead) := Decode(LEB128, proto);
      if bytesRead == 0 {
        return DataLoss, data;
      }
      proto := proto[bytesRead..];
      if |proto| < length {
        return DataLoss, data;
      }
      data := proto[..length];
      proto := proto[length..];
      previousFieldConsumed := true;
    }

    /** Reads the current field by its wire type. */
    method ReadField() returns (status: Status, field: Field)
      modifies this
      ensures forall f, rest {:trigger Begins(old(proto), f, rest)} :: Begins(old(proto), f, rest) ==>
        status == Ok && field == f && proto == rest && previousFieldConsumed
    {
      forall f, rest | Begins(proto, f, rest)
        ensures WireType() == WireTypeOf(f) && FieldNumber() == f.number
      {
        KeyInFront(proto, f, rest);
        KeyIsValid(f);
      }
      hide Encode, Decode, Begins;
      var number, wireType := FieldNumber(), WireType();
      if wireType == VARINT {
        var value;
        status, value := ReadVarint();
        field := VarintField(number, value);
      } else if wireType == DELIMITED {
        var data;
        status, data := ReadDelimited();
        field := BytesField(number, data);
      } else {
        var data;
        status, data := ReadFixed(if wireType == FIXED32 then 4 else 8);
        field := FixedField(number, data);
      }
    }
  }

  /** The fields that are asked for, as the decoder sees them. */
  ghost function Taken(fields: seq<Field>, take: seq<bool>): seq<Field>
    requires |fields| == |take|
  {
    if fields == [] then []
    else
      var n := |fields| - 1;
      Taken(fields[..n], take[..n]) + if take[n] then [Seen(fields[n])] else []
  }

  /** Where the loop stands: before field i, having read or not read the one before it. */
  ghost predicate Standing(proto: Bytes, consumed: bool, fields: seq<Field>, i: nat)
    requires i <= |fields|
  {
    if consumed then proto == EncodeFields(fields[i..])
    else 0 < i && proto == EncodeFields(fields[i - 1..])
  }

  lemma FieldsBegin(fields: seq<Field>, i: nat)
    requires i < |fields| && Encodable(Seen(fields[i]))
    ensures Begins(EncodeFields(fields[i..]), Seen(fields[i]), EncodeFields(fields[i + 1..]))
    ensures FieldSize(EncodeFields(fields[i..])) != 0
    ensures EncodeFields(fields[i..])[FieldSize(EncodeFields(fields[i..]))..] == EncodeFields(fields[i + 1..])
    ensures EncodeFields(fields[i..]) != []
  {
    SeenEncodesAlike(fields[i]);
    assert fields[i..][1..] == fields[i + 1..];
    FieldSizeEncoded(EncodeFields(fields[i..]), Seen(fields[i]), EncodeFields(fields[i + 1..]));
  }

  /**
   Round trip: the loop over Next yields the encoded fields one after another. Whatever subset of them is read,
   the others are skipped whole, and those that are read come out as they went in.
   */
  method ReadAll(proto: Bytes, take: seq<bool>, ghost fields: seq<Field>) returns (status: Status, read: seq<Field>)
    requires |take| == |fields| && proto == EncodeFields(fields)
    requires forall i :: 0 <= i < |fields| ==> Encodable(Seen(fields[i]))
    ensures status == OutOfRange && read == Taken(fields, take)
  {
    hide Encode, Decode, FieldSize, Begins, EncodeFields, Encodable, Seen;
    var decoder := new Decoder(proto);
    read := [];
    assert fields[0..] == fields;
    for i := 0 to |take|
      invariant fresh(decoder) && Standing(decoder.proto, decoder.previousFieldConsumed, fields, i)
      invariant read == Taken(fields[..i], take[..i])
    {
      FieldsBegin(fields, i);
      if i > 0 {
        FieldsBegin(fields, i - 1);
      }
      status := decoder.Next();
      if status != Ok {
        return;
      }
      if take[i] {
        var field;
        status, field := decoder.ReadField();
        read := read + [field];
      }
      assert fields[..i + 1][..i] == fields[..i] && take[..i + 1][..i] == take[..i];
    }
    NothingLeft(fields);
    if |take| > 0 {
      FieldsBegin(fields, |take| - 1);
    }
    assert fields[..|take|] == fields && take[..|take|] == take;
    status := decoder.Next();
  }

  lemma NothingLeft(fields: seq<Field>)
    ensures EncodeFields(fields[|fields|..]) == []
  {
  }
}
