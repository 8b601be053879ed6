/**
 The protobuf wire format as pw_protobuf writes it: pw_protobuf/encoder.cc and its headers. A message is a
 list of fields, and a field may hold a message.
 */
module ProtobufWire {
  import opened Varint

  const MAX_FIELD_NUMBER := 0x1FFF_FFFF
  const FIRST_RESERVED_NUMBER := 19000
  const LAST_RESERVED_NUMBER := 19999

  const VARINT := 0
  const FIXED64 := 1
  const DELIMITED := 2
  const FIXED32 := 5

  datatype Status = Ok | OutOfRange | DataLoss | FailedPrecondition | ResourceExhausted | InvalidArgument

  predicate ValidFieldNumber(n: nat) {
    0 < n <= MAX_FIELD_NUMBER && !(FIRST_RESERVED_NUMBER <= n <= LAST_RESERVED_NUMBER)
  }

  predicate IsValidKey(key: nat) {
    ValidFieldNumber(key / 8) && (key % 8 <= 2 || key % 8 == 5)
  }

  function Key(number: nat, wireType: nat): nat {
    8 * number + wireType
  }

  datatype Field =
    | VarintField(number: nat, value: Uint64)
    | FixedField(number: nat, data: Bytes)      // four or eight bytes
    | BytesField(number: nat, data: Bytes)
    | MessageField(number: nat, fields: seq<Field>)

  function WireTypeOf(f: Field): nat {
    match f
    case VarintField(_, _) => VARINT
    case FixedField(_, data) => if |data| == 4 then FIXED32 else FIXED64
    case BytesField(_, _) => DELIMITED
    case MessageField(_, _) => DELIMITED
  }

  function KeyOf(f: Field): nat {
    Key(f.number, WireTypeOf(f))
  }

  /** A length-delimited payload. */
  function Prefixed(data: Bytes): Bytes {
    Encode(LEB128, |data|) + data
  }

  /** Key and payload; a nested message is encoded on its own, and then is the payload. */
  function EncodeField(f: Field): Bytes
    decreases f
  {
    Encode(LEB128, KeyOf(f)) +
    match f
    case VarintField(_, value) => Encode(LEB128, value)
    case FixedField(_, data) => data
    case BytesField(_, data) => Prefixed(data)
    case MessageField(_, fields) => Prefixed(EncodeFields(fields))
  }

  function EncodeFields(fields: seq<Field>): Bytes
    decreases fields
  {
    if fields == [] then [] else EncodeField(fields[0]) + EncodeFields(fields[1..])
  }

  lemma {:induction false} EncodeFieldsAppend(fields: seq<Field>, f: Field)
    ensures EncodeFields(fields + [f]) == EncodeFields(fields) + EncodeField(f)
  {
    if fields == [] {
      assert fields + [f] == [f];
      assert EncodeFields([f]) == EncodeField(f) + EncodeFields([]);
    } else {
      assert (fields + [f])[1..] == fields[1..] + [f];
      EncodeFieldsAppend(fields[1..], f);
    }
  }

  /** What the decoder can tell of a field: a nested message is bytes to it. */
  function Seen(f: Field): Field {
    match f
    case MessageField(number, fields) => BytesField(number, EncodeFields(fields))
    case _ => f
  }

  lemma SeenEncodesAlike(f: Field)
    ensures EncodeField(Seen(f)) == EncodeField(f)
  {
  }

  /** The fields the encoder takes: valid numbers, and lengths in 32 bits. */
  predicate Encodable(f: Field) {
    && ValidFieldNumber(f.number)
    && (f.FixedField? ==> |f.data| == 4 || |f.data| == 8)
    && (f.BytesField? ==> |f.data| < TWO_TO_THE_32)
  }

  lemma KeyIsValid(f: Field)
    requires Encodable(f)
    ensures IsValidKey(KeyOf(f)) && KeyOf(f) < TWO_TO_THE_32
    ensures KeyOf(f) / 8 == f.number && KeyOf(f) % 8 == WireTypeOf(f)
  {
  }

  lemma FieldStarts(f: Field)
    ensures Encode(LEB128, KeyOf(f)) <= EncodeField(f)
  {
  }

  lemma FirstOfKey(key: nat)
    ensures Encode(LEB128, key)[0] % 8 == key % 8
    ensures key < 128 ==> Encode(LEB128, key)[0] == key
  {
  }

  /**
   The first byte of a field tells what kind it is, and so does the whole key, with the number above it: 0 for a varint,
   1 for eight bytes, 2 for a length and so many bytes, 5 for four bytes.
   */
  lemma FirstByte(f: Field)
    requires Encodable(f)
    ensures var kind := match f
        case VarintField(_, _) => 0
        case FixedField(_, data) => if |data| == 4 then 5 else 1
        case BytesField(_, _) => 2
        case MessageField(_, _) => 2;
      var bytes := EncodeField(f);
      && bytes[0] % 8 == kind
      && (f.number < 16 ==> bytes[0] == 8 * f.number + kind)
      && Decode(LEB128, bytes).0 == 8 * f.number + kind
  {
    KeyIsValid(f);
    FieldStarts(f);
    FirstOfKey(KeyOf(f));
    hide DecodeAny, EncodeField, Decode, Encode;
    DecodeEncoded(LEB128, KeyOf(f), EncodeField(f));
  }
}
