/** The HDLC encoder and decoder that run byte by byte: pw_hdlc/encoder.cc and pw_hdlc/decoder.cc. */
module Hdlc {
  import opened ByteOrder
  import opened Varint
  import opened Stream
  import opened HdlcProtocol
  import Crc32

  /** Writes frames to memory, escaping as it goes. */
  class Encoder {
    const writer: MemoryWriter
    var fcs: bv32
    // The unescaped bytes of the frame so far.
    ghost var body: Bytes

    ghost predicate Valid()
      reads this, writer
    {
      writer.Valid() && fcs == Crc32.Fold(Crc32.INITIAL_STATE, body)
    }

    ghost function Output(): Bytes
      requires writer.Valid()
      reads this, writer, writer.buffer
    {
      writer.WrittenData()
    }

    ghost function Left(): nat
      requires writer.Valid()
      reads this, writer
    {
      writer.ConservativeWriteLimit()
    }

    constructor (writer: MemoryWriter)
      requires writer.Valid()
      ensures Valid() && this.writer == writer && body == []
    {
      this.writer := writer;
      fcs := Crc32.INITIAL_STATE;
      body := [];
    }

    method EscapeAndWrite(b: Byte) returns (status: WriteStatus)
      requires Valid()
      modifies writer`position, writer.buffer
      ensures Valid()
      ensures status == Written <==> |EscapedByte(b)| <= old(Left())
      ensures status == Written ==> Left() == old(Left()) - |EscapedByte(b)|
      ensures status == Written ==> Output() == old(Output()) + EscapedByte(b)
    {
      hide Spliced, MemoryWriter.WrittenData;
      if b == FLAG {
        status := writer.Write([ESCAPE, 0x5E]);
      } else if b == ESCAPE {
        status := writer.Write([ESCAPE, 0x5D]);
      } else {
        status := writer.Write([b]);
      }
    }

    method UpdateFcs(data: Bytes)
      requires Valid()
      modifies this
      ensures Valid() && body == old(body) + data
    {
      hide Crc32.Fold;
      fcs := Crc32.InternalCrc32(data, fcs);
      Crc32.FoldConcat(Crc32.INITIAL_STATE, body, data);
      body := body + data;
    }

    /**
     Writes data escaped, in runs of bytes that need no escape. It fails for lack of room, and also when the
     room is just enough but the last run is empty, since a full writer refuses even an empty write.
     */
    method WriteData(data: Bytes) returns (status: WriteStatus)
      requires Valid()
      modifies this, writer`position, writer.buffer
      ensures Valid()
      ensures status == Written ==> Output() == old(Output()) + Escaped(data) && body == old(body) + data
      ensures status == Written <==> Fits(data, old(Left()))
      ensures status == Written ==> Left() == old(Left()) - |Escaped(data)|
    {
      hide Escaped, EscapedByte, Crc32.Fold, NeedsEscaping, Spliced, MemoryWriter.WrittenData, Fits;
      var begin: nat := 0;
      NothingEscaped(data);
      while true
        invariant begin <= |data| && Valid() && body == old(body) && fcs == old(fcs)
        invariant Output() == old(Output()) + Escaped(data[..begin])
        invariant Left() + |Escaped(data[..begin])| == old(Left())
        invariant 0 < begin ==> NeedsEscaping(data[begin - 1])
        decreases |data| - begin
      {
        var end := FindEscape(data, begin);
        EscapedRun(data, begin, end);
        RunFits(data, begin, end, Left());
        status := writer.Write(data[begin..end]);
        if status != Written {
          return;
        }
        Associate(old(Output()), Escaped(data[..begin]), data[begin..end]);
        assert Output() == old(Output()) + Escaped(data[..end]);
        if end == |data| {
          UpdateFcs(data);
          return;
        }
        EscapedNext(data, end);
        EscapeFits(data, end, Left());
        status := EscapeAndWrite(data[end]);
        if status != Written {
          return;
        }
        Associate(old(Output()), Escaped(data[..end]), EscapedByte(data[end]));
        begin := end + 1;
      }
    }

    /** The opening flag, the address and the control byte. */
    method StartFrame(address: Uint64, control: Byte) returns (status: WriteStatus)
      requires Valid()
      modifies this, writer`position, writer.buffer
      ensures Valid()
      ensures status == Written <==>
        0 < old(Left()) && Fits(Encode(ADDRESS_FORMAT, address) + [control], old(Left()) - 1)
      ensures status == Written ==>
        var head := Encode(ADDRESS_FORMAT, address) + [control];
        && Output() == old(Output()) + [FLAG] + Escaped(head) && body == head
        && Left() == old(Left()) - 1 - |Escaped(head)|
    {
      hide Escaped, Fits, Spliced, MemoryWriter.WrittenData, Encode;
      fcs, body := Crc32.INITIAL_STATE, [];
      status := writer.Write([FLAG]);
      if status != Written {
        return;
      }
      assert [] + (Encode(ADDRESS_FORMAT, address) + [control]) == Encode(ADDRESS_FORMAT, address) + [control];
      status := WriteData(Encode(ADDRESS_FORMAT, address) + [control]);
    }

    /** The frame check sequence of everything written since the frame was started, and the closing flag. */
    method FinishFrame() returns (status: WriteStatus)
      requires Valid()
      modifies this, writer`position, writer.buffer
      ensures Valid()
      ensures status == Written <==> |Escaped(Fcs(old(body)))| < old(Left())
      ensures status == Written ==> Output() == old(Output()) + Escaped(Fcs(old(body))) + [FLAG]
    {
      hide Escaped, Spliced, MemoryWriter.WrittenData, LittleEndian, Crc32.Final, Crc32.Fold;
      var check := LittleEndian(Crc32.Final(fcs));
      assert check == Fcs(body);
      status := WriteData(check);
      if status != Written {
        return;
      }
      status := writer.Write([FLAG]);
    }

    method FindEscape(data: Bytes, begin: nat) returns (end: nat)
      requires begin <= |data|
      ensures begin <= end <= |data|
      ensures forall k :: begin <= k < end ==> !NeedsEscaping(data[k])
      ensures end < |data| ==> NeedsEscaping(data[end])
    {
      end := begin;
      while end < |data| && !NeedsEscaping(data[end])
        invariant begin <= end <= |data|
        invariant forall k :: begin <= k < end ==> !NeedsEscaping(data[k])
      {
        end := end + 1;
      }
    }
  }

  lemma Associate(a: Bytes, b: Bytes, c: Bytes)
    ensures a + b + c == a + (b + c)
  {
  }

  lemma NothingEscaped(data: Bytes)
    ensures Escaped(data[..0]) == []
  {
  }

  /** A run of bytes without escapes is written as it is. */
  lemma EscapedRun(data: Bytes, begin: nat, end: nat)
    requires begin <= end <= |data|
    requires forall k :: begin <= k < end ==> !NeedsEscaping(data[k])
    ensures Escaped(data[..end]) == Escaped(data[..begin]) + data[begin..end]
    ensures |Escaped(data[..end])| <= |Escaped(data)|
    ensures end == |data| ==> Escaped(data[..end]) == Escaped(data)
  {
    hide Escaped;
    EscapedConcat(data[..end], data[end..]);
    assert data[..end] + data[end..] == data;
    EscapedConcat(data[..begin], data[begin..end]);
    assert data[..begin] + data[begin..end] == data[..end];
    EscapesNothing(data[begin..end]);
    assert end == |data| ==> data[..end] == data;
  }

  /** Data and escapes fit, and the last, possibly empty run does not meet a full writer. */
  predicate Fits(data: Bytes, room: nat) {
    || |Escaped(data)| < room
    || (|Escaped(data)| == room && data != [] && !NeedsEscaping(data[|data| - 1]))
  }

  /** Whether the next run is refused, and whether it was the last, against the room there was at the start. */
  lemma RunFits(data: Bytes, begin: nat, end: nat, left: nat)
    requires begin <= end <= |data| && (0 < begin ==> NeedsEscaping(data[begin - 1]))
    requires forall k :: begin <= k < end ==> !NeedsEscaping(data[k])
    requires end < |data| ==> NeedsEscaping(data[end])
    ensures StatusOfWrite(left, end - begin) != Written ==> !Fits(data, |Escaped(data[..begin])| + left)
    ensures StatusOfWrite(left, end - begin) == Written && end == |data| ==> Fits(data, |Escaped(data[..begin])| + left)
  {
    hide Escaped, NeedsEscaping;
    EscapedRun(data, begin, end);
    if end < |data| {
      EscapedNext(data, end);
    }
  }

  lemma EscapeFits(data: Bytes, end: nat, left: nat)
    requires end < |data|
    ensures left < |EscapedByte(data[end])| ==> !Fits(data, |Escaped(data[..end])| + left)
  {
    EscapedNext(data, end);
  }

  lemma {:induction false} EscapesNothing(bytes: Bytes)
    requires forall k :: 0 <= k < |bytes| ==> !NeedsEscaping(bytes[k])
    ensures Escaped(bytes) == bytes
  {
    if bytes != [] {
      EscapesNothing(bytes[1..]);
    }
  }

  lemma EscapedNext(data: Bytes, end: nat)
    requires end < |data|
    ensures Escaped(data[..end + 1]) == Escaped(data[..end]) + EscapedByte(data[end])
    ensures |Escaped(data[..end + 1])| <= |Escaped(data)|
    ensures |Escaped(data[..end])| < |Escaped(data)|
  {
    EscapedConcat(data[..end], [data[end]]);
    assert data[..end + 1] == data[..end] + [data[end]];
    EscapedConcat(data[..end + 1], data[end + 1..]);
    assert data[..end + 1] + data[end + 1..] == data;
    EscapesOne(data[end]);
  }

  lemma EscapesOne(b: Byte)
    ensures Escaped([b]) == EscapedByte(b)
  {
    var bytes: Bytes := [b];
    assert bytes[1..] == [];
  }

  /**
   WriteUIFrame. It succeeds exactly when the bound leaves room and the two flags, which the bound does not
   count, fit as well; and then what was written is the frame.
   */
  method WriteUIFrame(address: Uint64, payload: Bytes, writer: MemoryWriter) returns (status: WriteStatus)
    requires writer.Valid()
    modifies writer`position, writer.buffer
    ensures writer.Valid()
    ensures var frame := Frame(address, UNNUMBERED_INFORMATION, payload);
      && (status == Written <==>
            MaxEncodedSize(address, payload) <= old(writer.ConservativeWriteLimit())
            && |frame| <= old(writer.ConservativeWriteLimit()))
      && (status == Written ==> writer.WrittenData() == old(writer.WrittenData()) + frame)
    ensures MaxEncodedSize(address, payload) + 2 <= old(writer.ConservativeWriteLimit()) ==> status == Written
  {
    hide Escaped, Fits, Spliced, MemoryWriter.WrittenData, Encode, MaxEncodedSize, Fcs, Frame, Crc32.Fold;
    ghost var room := writer.ConservativeWriteLimit();
    FrameAtMost(address, UNNUMBERED_INFORMATION, payload);
    FrameParts(address, UNNUMBERED_INFORMATION, payload, room);
    if MaxEncodedSize(address, payload) > writer.ConservativeWriteLimit() {
      return WriteResourceExhausted;
    }
    var encoder := new Encoder(writer);
    status := encoder.StartFrame(address, UNNUMBERED_INFORMATION);
    if status != Written {
      return;
    }
    status := encoder.WriteData(payload);
    if status != Written {
      return;
    }
    status := encoder.FinishFrame();
  }

  /** The pieces of a frame, and why each of them fits if the whole does. */
  lemma FrameParts(address: Uint64, control: Byte, payload: Bytes, room: nat)
    ensures var head := Encode(ADDRESS_FORMAT, address) + [control];
      var check := Fcs(head + payload);
      && Frame(address, control, payload) == [FLAG] + Escaped(head) + Escaped(payload) + Escaped(check) + [FLAG]
      && check != [] && |check| <= |Escaped(check)|
      && (|Frame(address, control, payload)| <= room ==>
            && 0 < room && Fits(head, room - 1)
            && |Escaped(head)| <= room - 1 && Fits(payload, room - 1 - |Escaped(head)|))
  {
    hide Escaped, Encode;
    var head := Encode(ADDRESS_FORMAT, address) + [control];
    var check := Fcs(head + payload);
    EscapedConcat(head + payload, check);
    EscapedConcat(head, payload);
    EscapedSize(check);
    assert Body(address, control, payload) == head + payload;
    assert Content(address, control, payload) == head + payload + check;
  }
}
