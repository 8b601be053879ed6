/** From the encoder through a line with noise on it to the decoder. */
module HdlcRoundTrip {
  import opened Varint
  import opened Stream
  import opened HdlcProtocol
  import opened Hdlc
  import opened HdlcSegments
  import D = HdlcDecoder

  predicate Unnumbered(messages: seq<Message>) {
    forall i :: 0 <= i < |messages| ==> messages[i].control == UNNUMBERED_INFORMATION
  }

  /** Room enough to send all messages: the encoder's bound, and two flags for each. */
  function RoomFor(messages: seq<Message>): nat {
    if messages == [] then 0
    else MaxEncodedSize(messages[0].address, messages[0].payload) + 2 + RoomFor(messages[1..])
  }

  /** Writes frames one after another. */
  method Send(writer: MemoryWriter, messages: seq<Message>) returns (sent: bool)
    requires writer.Valid() && Unnumbered(messages)
    modifies writer`position, writer.buffer
    ensures writer.Valid()
    ensures sent ==> writer.WrittenData() == old(writer.WrittenData()) + HdlcProtocol.Stream(messages)
    ensures RoomFor(messages) <= old(writer.ConservativeWriteLimit()) ==> sent
    decreases |messages|
  {
    hide Frame, MaxEncodedSize, MemoryWriter.WrittenData;
    if messages == [] {
      return true;
    }
    var m := messages[0];
    ghost var room := writer.ConservativeWriteLimit();
    if RoomFor(messages) <= room {
      FrameAtMost(m.address, UNNUMBERED_INFORMATION, m.payload);
    }
    ghost var before := writer.WrittenData();
    WrittenSize(writer);
    var status := WriteUIFrame(m.address, m.payload, writer);
    if status != Written {
      return false;
    }
    WrittenSize(writer);
    var frame := Frame(m.address, m.control, m.payload);
    sent := Send(writer, messages[1..]);
    assert before + frame + HdlcProtocol.Stream(messages[1..]) == before + (frame + HdlcProtocol.Stream(messages[1..]));
  }

  lemma WrittenSize(writer: MemoryWriter)
    requires writer.Valid()
    ensures |writer.WrittenData()| + writer.ConservativeWriteLimit() == writer.end - writer.begin
  {
  }

  /**
   Whatever state the decoder is in and whatever noise comes first, it reports every message that was sent,
   in order and as it was, or that it is too large for its buffer; and nothing besides but what the noise, ended
   by a flag, comes to by itself.
   */
  method SendThenReceive(writer: MemoryWriter, decoder: D.Decoder, noise: Bytes, messages: seq<Message>)
    returns (sent: bool, reports: seq<Outcome>)
    requires writer.Valid() && writer.position == 0 && decoder.Valid() && Unnumbered(messages) && messages != []
    requires writer.buffer != decoder.buffer && writer.buffer != decoder.lastReadBytes
    modifies writer`position, writer.buffer, decoder, decoder.buffer, decoder.lastReadBytes
    ensures RoomFor(messages) <= writer.end - writer.begin ==> sent
    ensures sent ==> decoder.Valid() && decoder.Abstract() == InFrame([])
    ensures sent ==>
      reports == Reports(decoder.buffer.Length, old(decoder.Abstract()), noise + [FLAG])
              + ExpectedAll(decoder.buffer.Length, messages)
  {
    hide HdlcProtocol.Stream, ExpectedAll, After, Reports, Next;
    reports := [];
    sent := Send(writer, messages);
    if !sent {
      return;
    }
    var line := writer.buffer[writer.begin..writer.begin + writer.position];
    assert line == HdlcProtocol.Stream(messages);
    NoiseThenStream(decoder.buffer.Length, decoder.Abstract(), noise, messages);
    FeedConcat(decoder.buffer.Length, decoder.Abstract(), noise, line);
    StreamRoundTrip(decoder.buffer.Length, After(decoder.buffer.Length, decoder.Abstract(), noise), messages);
    reports := decoder.ProcessAll(noise + line);
  }

  /** Whatever state the decoder is in, a frame with one byte of its content damaged is reported lost, and nothing else is. */
  method ReceiveDamaged(decoder: D.Decoder, m: Message, i: nat, b: Byte) returns (reports: seq<Outcome>)
    requires decoder.Valid()
    requires i < |Content(m.address, m.control, m.payload)| && b != Content(m.address, m.control, m.payload)[i]
    modifies decoder, decoder.buffer, decoder.lastReadBytes
    ensures decoder.Valid() && decoder.Abstract() == InFrame([])
    ensures reports == Reports(decoder.buffer.Length, old(decoder.Abstract()), [FLAG]) + [DataLoss]
  {
    hide After, Reports, Next, Content, DamagedFrame;
    DamagedFrameIsLost(decoder.buffer.Length, decoder.Abstract(), m, i, b);
    reports := decoder.ProcessAll(DamagedFrame(m, i, b));
  }
}
