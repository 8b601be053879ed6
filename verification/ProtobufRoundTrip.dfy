/** From fields to bytes and back, through the encoder and the decoder. */
module ProtobufRoundTrip {
  import opened Varint
  import opened Stream
  import opened ProtobufWire
  import opened ProtobufEncoder
  import D = ProtobufDecoder

  lemma {:induction false} PartsFit(fields: seq<Field>, i: nat)
    requires i < |fields|
    ensures |EncodeField(fields[i])| <= |EncodeFields(fields)|
  {
    hide EncodeField;
    if i != 0 {
      PartsFit(fields[1..], i - 1);
    }
  }

  lemma {:induction false} WritableAt(fields: seq<Field>, i: nat)
    requires i < |fields| && Writable(fields)
    ensures WritableField(fields[i])
  {
    if i != 0 {
      WritableAt(fields[1..], i - 1);
    }
  }

  lemma SeenIsEncodable(fields: seq<Field>, i: nat)
    requires i < |fields| && Writable(fields) && |EncodeFields(fields)| < TWO_TO_THE_32
    ensures Encodable(Seen(fields[i]))
  {
    WritableAt(fields, i);
    PartsFit(fields, i);
  }

  /**
   Whatever message the encoder takes, the decoder reads any subset of its fields back as they went in, a nested
   message as the bytes of its own encoding. The encoder takes every message that leaves it enough room.
   */
  method EncodeThenRead(size: nat, fields: seq<Field>, take: seq<bool>) returns (status: Status, read: seq<Field>)
    requires Writable(fields) && |take| == |fields| && size < TWO_TO_THE_32
    ensures Roomy(fields, size) ==> status == Ok
    ensures status == Ok ==> read == D.Taken(fields, take)
  {
    hide EncodeFields, Roomy, Writable, Encodable, Seen;
    var buffer := new Byte[size];
    var writer := new MemoryWriter(buffer, 0, size);
    var encoder := new MemoryEncoder(writer, null, Ok);
    EncodeMessage(encoder, fields);
    status, read := encoder.status, [];
    if status == Ok {
      forall i | 0 <= i < |fields|
        ensures Encodable(Seen(fields[i]))
      {
        SeenIsEncodable(fields, i);
      }
      var proto := buffer[..writer.position];
      var last;
      last, read := D.ReadAll(proto, take, fields);
    }
  }
}
