/**
 HDLC framing as a relation between bytes and frames: what pw_hdlc/encoder.cc writes, and the automaton
 pw_hdlc/decoder.cc runs. The framing is that of sections 4.1 and 4.2 of RFC 1662.
 */
module HdlcProtocol {
  import opened ByteOrder
  import opened Varint
  import Crc32

  const FLAG: Byte := 0x7E
  const ESCAPE: Byte := 0x7D
  const ADDRESS_FORMAT := Format(true, true)
  const UNNUMBERED_INFORMATION: Byte := 0x03
  const FCS_SIZE := 4
  const MIN_FRAME_SIZE := 6

  /** Exclusive or with 0x20. */
  function Escape(b: Byte): Byte {
    if b / 32 % 2 == 1 then b - 32 else b + 32
  }

  predicate NeedsEscaping(b: Byte) {
    b == FLAG || b == ESCAPE
  }

  function EscapedByte(b: Byte): Bytes {
    if NeedsEscaping(b) then [ESCAPE, Escape(b)] else [b]
  }

  function Escaped(bytes: Bytes): Bytes {
    if bytes == [] then [] else EscapedByte(bytes[0]) + Escaped(bytes[1..])
  }

  function Fcs(body: Bytes): Bytes {
    LittleEndian(Crc32.Value(body))
  }

  function Body(address: Uint64, control: Byte, payload: Bytes): Bytes {
    Encode(ADDRESS_FORMAT, address) + [control] + payload
  }

  /** What lies between the flags of a frame, before it is escaped. */
  function Content(address: Uint64, control: Byte, payload: Bytes): Bytes {
    Body(address, control, payload) + Fcs(Body(address, control, payload))
  }

  function Frame(address: Uint64, control: Byte, payload: Bytes): Bytes {
    [FLAG] + Escaped(Content(address, control, payload)) + [FLAG]
  }

  // ---------------------------------------------------------------- the decoder's automaton

  datatype State =
    | InterFrame(skipped: nat)         // bytes seen since the last frame was given up
    | InFrame(content: Bytes)
    | FrameEscape(content: Bytes)

  datatype Outcome =
    | Unavailable
    | DataLoss
    | ResourceExhausted
    | Received(address: Uint64, control: Byte, payload: Bytes)

  function Parse(content: Bytes): Outcome {
    var (address, size) := Decode(ADDRESS_FORMAT, content);
    if size == 0 || |content| < size + 1 + FCS_SIZE then DataLoss
    else Received(address, content[size], content[size + 1..|content| - FCS_SIZE])
  }

  predicate FcsMatches(content: Bytes)
    requires FCS_SIZE <= |content|
  {
    var n := |content| - FCS_SIZE;
    FromLittleEndian(content[n..]) == Crc32.Value(content[..n])
  }

  /** What a flag after this content amounts to. */
  function Checked(maxSize: nat, content: Bytes): Outcome {
    if content == [] then Unavailable
    else if |content| < MIN_FRAME_SIZE then DataLoss
    else if !FcsMatches(content) then DataLoss
    else if maxSize < |content| then ResourceExhausted
    else Parse(content)
  }

  function Next(maxSize: nat, s: State, b: Byte): (State, Outcome) {
    match s
    case InterFrame(skipped) =>
      if b == FLAG then (InFrame([]), if skipped != 0 then DataLoss else Unavailable)
      else (InterFrame(skipped + 1), Unavailable)
    case InFrame(content) =>
      if b == FLAG then (InFrame([]), Checked(maxSize, content))
      else if b == ESCAPE then (FrameEscape(content), Unavailable)
      else (InFrame(content + [b]), Unavailable)
    case FrameEscape(content) =>
      if b == FLAG then (InFrame([]), DataLoss)
      else if b == ESCAPE then (InterFrame(|content| + 1), Unavailable)
      else (InFrame(content + [Escape(b)]), Unavailable)
  }

  /** The state after some bytes. */
  function After(maxSize: nat, s: State, bytes: Bytes): State
    decreases bytes
  {
    if bytes == [] then s else After(maxSize, Next(maxSize, s, bytes[0]).0, bytes[1..])
  }

  function Report(outcome: Outcome): seq<Outcome> {
    if outcome == Unavailable then [] else [outcome]
  }

  /** What the decoder reports while it is fed: its outcomes other than that nothing is available yet. */
  function Reports(maxSize: nat, s: State, bytes: Bytes): seq<Outcome>
    decreases bytes
  {
    if bytes == [] then []
    else
      var (s', outcome) := Next(maxSize, s, bytes[0]);
      Report(outcome) + Reports(maxSize, s', bytes[1..])
  }

  lemma FeedOne(maxSize: nat, s: State, b: Byte)
    ensures After(maxSize, s, [b]) == Next(maxSize, s, b).0
    ensures Reports(maxSize, s, [b]) == Report(Next(maxSize, s, b).1)
  {
    hide Next, Report;
    var bytes: Bytes := [b];
    assert bytes[1..] == [];
  }

  lemma {:induction false} FeedConcat(maxSize: nat, s: State, first: Bytes, second: Bytes)
    ensures After(maxSize, s, first + second) == After(maxSize, After(maxSize, s, first), second)
    ensures Reports(maxSize, s, first + second)
         == Reports(maxSize, s, first) + Reports(maxSize, After(maxSize, s, first), second)
    decreases first
  {
    hide Next, Report;
    if first == [] {
      assert first + second == second;
    } else {
      var (s', outcome) := Next(maxSize, s, first[0]);
      assert (first + second)[0] == first[0] && (first + second)[1..] == first[1..] + second;
      FeedConcat(maxSize, s', first[1..], second);
      assert Reports(maxSize, s, first + second)
          == Report(outcome) + (Reports(maxSize, s', first[1..]) + Reports(maxSize, After(maxSize, s, first), second));
    }
  }

  // ---------------------------------------------------------------- round trip

  /** Escaping flips bit 5 and nothing else, so that the two special bytes go out as section 4.2 of RFC 1662 has them. */
  lemma EscapeFlipsBit5(b: Byte)
    ensures Escape(b) / 32 % 2 != b / 32 % 2 && Escape(b) % 32 == b % 32 && Escape(b) / 64 == b / 64
    ensures EscapedByte(0x7E) == [0x7D, 0x5E] && EscapedByte(0x7D) == [0x7D, 0x5D]
  {
    assert Escape(0x7E) == 0x5E && Escape(0x7D) == 0x5D;
  }

  lemma EscapeRoundTrip(b: Byte)
    ensures Escape(Escape(b)) == b
    ensures NeedsEscaping(b) ==> !NeedsEscaping(Escape(b))
  {
  }

  /** One byte, escaped if need be, adds just itself to the content. */
  lemma FeedByte(maxSize: nat, content: Bytes, b: Byte)
    ensures After(maxSize, InFrame(content), EscapedByte(b)) == InFrame(content + [b])
    ensures Reports(maxSize, InFrame(content), EscapedByte(b)) == []
  {
    EscapeRoundTrip(b);
    var bytes := EscapedByte(b);
    if NeedsEscaping(b) {
      assert bytes[1..] == [Escape(b)];
      assert After(maxSize, FrameEscape(content), [Escape(b)]) == InFrame(content + [b]);
      assert Reports(maxSize, FrameEscape(content), [Escape(b)]) == [];
    } else {
      assert bytes[1..] == [];
    }
  }

  lemma EscapedUnfolds(bytes: Bytes)
    ensures Escaped(bytes) == if bytes == [] then [] else EscapedByte(bytes[0]) + Escaped(bytes[1..])
  {
    hide EscapedByte;
  }

  lemma {:induction false} FeedEscaped(maxSize: nat, content: Bytes, bytes: Bytes)
    ensures After(maxSize, InFrame(content), Escaped(bytes)) == InFrame(content + bytes)
    ensures Reports(maxSize, InFrame(content), Escaped(bytes)) == []
    decreases bytes
  {
    hide Next, EscapedByte, After, Reports, Escaped;
    EscapedUnfolds(bytes);
    if bytes == [] {
      FeedNothing(maxSize, InFrame(content));
      assert content + bytes == content;
    } else {
      FeedByte(maxSize, content, bytes[0]);
      FeedEscaped(maxSize, content + [bytes[0]], bytes[1..]);
      FeedConcat(maxSize, InFrame(content), EscapedByte(bytes[0]), Escaped(bytes[1..]));
      assert content + [bytes[0]] + bytes[1..] == content + bytes;
    }
  }

  /** A flag puts the decoder inside a new frame, wherever it was. */
  lemma FlagSynchronises(maxSize: nat, s: State)
    ensures Next(maxSize, s, FLAG).0 == InFrame([])
  {
  }

  /** The content of an encoded frame is accepted, and read back. */
  lemma ContentAccepted(maxSize: nat, address: Uint64, control: Byte, payload: Bytes)
    ensures Checked(maxSize, Content(address, control, payload)) ==
      if maxSize < |Content(address, control, payload)| then ResourceExhausted
      else Received(address, control, payload)
  {
    hide Crc32.Value, LittleEndian, Encode, Decode;
    var body, content := Body(address, control, payload), Content(address, control, payload);
    var size := |Encode(ADDRESS_FORMAT, address)|;
    assert content[..|content| - FCS_SIZE] == body && content[|content| - FCS_SIZE..] == Fcs(body);
    LittleEndianRoundTrip(Crc32.Value(body));
    assert content == Encode(ADDRESS_FORMAT, address) + ([control] + payload + Fcs(body));
    DecodeEncoded(ADDRESS_FORMAT, address, content);
    assert content[size + 1..|content| - FCS_SIZE] == payload;
  }

  /** What a decoder reports for a frame. */
  function Expected(maxSize: nat, address: Uint64, control: Byte, payload: Bytes): Outcome {
    if maxSize < |Content(address, control, payload)| then ResourceExhausted else Received(address, control, payload)
  }

  /**
   Self-synchronisation and round trip: from any state, whatever bytes came before, feeding a frame ends with
   the report of exactly that frame, or that it is too large; only its first flag may report something else.
   */
  lemma FrameRoundTrip(maxSize: nat, s: State, address: Uint64, control: Byte, payload: Bytes)
    ensures After(maxSize, s, Frame(address, control, payload)) == InFrame([])
    ensures Reports(maxSize, s, Frame(address, control, payload))
         == Reports(maxSize, s, [FLAG]) + [Expected(maxSize, address, control, payload)]
  {
    hide Content, Checked, Escaped, After, Reports, Next;
    FeedOne(maxSize, s, FLAG);
    var content := Content(address, control, payload);
    var s' := After(maxSize, s, [FLAG]);
    FlagSynchronises(maxSize, s);
    assert s' == InFrame([]);
    FeedEscaped(maxSize, [], content);
    assert [] + content == content;
    FeedConcat(maxSize, s', Escaped(content), [FLAG]);
    FeedConcat(maxSize, s, [FLAG], Escaped(content) + [FLAG]);
    assert Frame(address, control, payload) == [FLAG] + (Escaped(content) + [FLAG]);
    ContentAccepted(maxSize, address, control, payload);
    FeedFlag(maxSize, content);
  }

  lemma FeedFlag(maxSize: nat, content: Bytes)
    requires Checked(maxSize, content) != Unavailable
    ensures After(maxSize, InFrame(content), [FLAG]) == InFrame([])
    ensures Reports(maxSize, InFrame(content), [FLAG]) == [Checked(maxSize, content)]
  {
    hide Checked;
    FeedOne(maxSize, InFrame(content), FLAG);
  }

  datatype Message = Message(address: Uint64, control: Byte, payload: Bytes)

  function Stream(messages: seq<Message>): Bytes {
    if messages == [] then []
    else Frame(messages[0].address, messages[0].control, messages[0].payload) + Stream(messages[1..])
  }

  function ExpectedAll(maxSize: nat, messages: seq<Message>): seq<Outcome> {
    seq(|messages|, i requires 0 <= i < |messages| =>
      Expected(maxSize, messages[i].address, messages[i].control, messages[i].payload))
  }

  lemma FlagInFrame(maxSize: nat)
    ensures Reports(maxSize, InFrame([]), [FLAG]) == []
  {
    FeedOne(maxSize, InFrame([]), FLAG);
  }

  lemma FeedNothing(maxSize: nat, s: State)
    ensures After(maxSize, s, []) == s && Reports(maxSize, s, []) == []
  {
  }

  /** Frames sent one after another are reported in order, none lost and nothing in between. */
  lemma {:induction false} StreamRoundTrip(maxSize: nat, s: State, messages: seq<Message>)
    requires messages != []
    ensures After(maxSize, s, Stream(messages)) == InFrame([])
    ensures Reports(maxSize, s, Stream(messages)) == Reports(maxSize, s, [FLAG]) + ExpectedAll(maxSize, messages)
    decreases messages
  {
    hide Frame, Expected, After, Next, Report;
    var m := messages[0];
    var frame := Frame(m.address, m.control, m.payload);
    FrameRoundTrip(maxSize, s, m.address, m.control, m.payload);
    FeedConcat(maxSize, s, frame, Stream(messages[1..]));
    FlagInFrame(maxSize);
    FeedNothing(maxSize, InFrame([]));
    if messages[1..] != [] {
      StreamRoundTrip(maxSize, InFrame([]), messages[1..]);
    }
    assert ExpectedAll(maxSize, messages)
        == [Expected(maxSize, m.address, m.control, m.payload)] + ExpectedAll(maxSize, messages[1..]);
  }

  /** Any noise in front costs at most what the noise itself reports. */
  lemma NoiseThenStream(maxSize: nat, s: State, noise: Bytes, messages: seq<Message>)
    requires messages != []
    ensures Reports(maxSize, s, noise + Stream(messages))
         == Reports(maxSize, s, noise + [FLAG]) + ExpectedAll(maxSize, messages)
  {
    hide Next, Stream, ExpectedAll, After, Reports;
    FeedConcat(maxSize, s, noise, Stream(messages));
    FeedConcat(maxSize, s, noise, [FLAG]);
    StreamRoundTrip(maxSize, After(maxSize, s, noise), messages);
  }

  // ---------------------------------------------------------------- size

  function Escapes(bytes: Bytes): nat {
    if bytes == [] then 0 else (if NeedsEscaping(bytes[0]) then 1 else 0) + Escapes(bytes[1..])
  }

  lemma {:induction false} EscapedSize(bytes: Bytes)
    ensures |Escaped(bytes)| == |bytes| + Escapes(bytes) && Escapes(bytes) <= |bytes|
  {
    if bytes != [] {
      EscapedSize(bytes[1..]);
    }
  }

  lemma {:induction false} EscapesConcat(first: Bytes, second: Bytes)
    ensures Escapes(first + second) == Escapes(first) + Escapes(second)
  {
    if first == [] {
      assert first + second == second;
    } else {
      assert (first + second)[1..] == first[1..] + second;
      EscapesConcat(first[1..], second);
    }
  }

  lemma {:induction false} EscapedConcat(first: Bytes, second: Bytes)
    ensures Escaped(first + second) == Escaped(first) + Escaped(second)
  {
    if first == [] {
      assert first + second == second;
    } else {
      assert (first + second)[1..] == first[1..] + second;
      EscapedConcat(first[1..], second);
    }
  }

  /** Encoder::MaxEncodedSize. */
  function MaxEncodedSize(address: Uint64, payload: Bytes): nat {
    2 * |Encode(ADDRESS_FORMAT, address)| + 1 + (|payload| + Escapes(payload)) + 8
  }

  /**
   It leaves out the two flags, and counts every byte of address and checksum as escaped, but not the control byte. So a
   frame is longer exactly if too few of the bytes it counts twice spare it that.
   */
  lemma FrameSize(address: Uint64, control: Byte, payload: Bytes)
    ensures var head, fcs := Encode(ADDRESS_FORMAT, address), Fcs(Body(address, control, payload));
      && |Frame(address, control, payload)| ==
          2 + |head| + Escapes(head) + 1 + Escapes([control]) + |payload| + Escapes(payload) + FCS_SIZE + Escapes(fcs)
      && (MaxEncodedSize(address, payload) < |Frame(address, control, payload)|
          <==> |head| + 2 < Escapes(head) + Escapes([control]) + Escapes(fcs))
  {
    hide Crc32.Value, LittleEndian, Encode;
    var head := Encode(ADDRESS_FORMAT, address);
    var body := Body(address, control, payload);
    EscapedSize(Content(address, control, payload));
    EscapesConcat(body, Fcs(body));
    EscapesConcat(head + [control], payload);
    EscapesConcat(head, [control]);
    EscapedSize(head);
    EscapedSize(Fcs(body));
  }

  lemma FrameAtMost(address: Uint64, control: Byte, payload: Bytes)
    requires !NeedsEscaping(control)
    ensures |Frame(address, control, payload)| <= MaxEncodedSize(address, payload) + 2
  {
    hide Crc32.Value, LittleEndian, Encode;
    FrameSize(address, control, payload);
    EscapedSize(Encode(ADDRESS_FORMAT, address));
    EscapedSize(Fcs(Body(address, control, payload)));
    assert Escapes([control]) == 0;
  }

  /** The checksum of address 62, control 3 and three bytes, table entry by table entry. */
  lemma ChecksumOfThree()
    ensures Crc32.Value([0x7D, 0x03, 0x0A, 0x17, 0x62]) == 0x7E7D_7DB9
  {
    hide Crc32.Step, Crc32.Final;
    FirstStep();
    SecondStep();
    ThirdStep();
    FourthStep();
    FifthStep();
    Inverted();
    var data: Bytes := [0x7D, 0x03, 0x0A, 0x17, 0x62];
    FoldStep([], 0x7D, [0x7D]);
    FoldStep([0x7D], 0x03, [0x7D, 0x03]);
    FoldStep([0x7D, 0x03], 0x0A, [0x7D, 0x03, 0x0A]);
    FoldStep([0x7D, 0x03, 0x0A], 0x17, [0x7D, 0x03, 0x0A, 0x17]);
    FoldStep([0x7D, 0x03, 0x0A, 0x17], 0x62, data);
  }

  lemma FoldStep(data: Bytes, b: Byte, more: Bytes)
    requires more == data + [b]
    ensures Crc32.Fold(Crc32.INITIAL_STATE, more) == Crc32.Step(Crc32.Fold(Crc32.INITIAL_STATE, data), b)
  {
    hide Crc32.Step;
    Crc32.FoldOneMore(Crc32.INITIAL_STATE, data, b);
  }

  lemma Inverted()
    ensures Crc32.Final(0x8182_8246) == 0x7E7D_7DB9
  {
    assert !(0x8182_8246 as bv32) == 0x7E7D_7DB9;
  }

  lemma FirstStep()
    ensures Crc32.Step(0xFFFF_FFFF, 0x7D) == 0x0349_1DF3
  {
    TableEntries();
    hide Crc32.Table;
    assert Crc32.Index(0xFFFF_FFFF, 0x7D) == 0x82;
  }

  lemma SecondStep()
    ensures Crc32.Step(0x0349_1DF3, 0x03) == 0xBDBE_BB01
  {
    TableEntries();
    hide Crc32.Table;
    assert Crc32.Index(0x0349_1DF3, 0x03) == 0xF0;
  }

  lemma ThirdStep()
    ensures Crc32.Step(0xBDBE_BB01, 0x0A) == 0x976F_6733
  {
    TableEntries();
    hide Crc32.Table;
    assert Crc32.Index(0xBDBE_BB01, 0x0A) == 0x0B;
  }

  lemma FourthStep()
    ensures Crc32.Step(0x976F_6733, 0x17) == 0x3C94_8BB6
  {
    TableEntries();
    hide Crc32.Table;
    assert Crc32.Index(0x976F_6733, 0x17) == 0x24;
  }

  lemma FifthStep()
    ensures Crc32.Step(0x3C94_8BB6, 0x62) == 0x8182_8246
  {
    TableEntries();
    hide Crc32.Table;
    assert Crc32.Index(0x3C94_8BB6, 0x62) == 0xD4;
  }

  lemma TableEntries()
    ensures Crc32.Table(0x82) == 0x03B6_E20C && Crc32.Table(0xF0) == 0xBDBD_F21C && Crc32.Table(0x0B) == 0x97D2_D988
    ensures Crc32.Table(0x24) == 0x3C03_E4D1 && Crc32.Table(0xD4) == 0x81BE_16CD
  {
  }

  /** One frame that is longer than MaxEncodedSize: its address and three bytes of its checksum are escaped. */
  lemma LongerThanMaxEncodedSize() returns (address: Uint64, payload: Bytes)
    ensures address == 62 && payload == [0x0A, 0x17, 0x62]
    ensures MaxEncodedSize(address, payload) == 14
    ensures |Frame(address, UNNUMBERED_INFORMATION, payload)| == 15
  {
    hide Crc32.Value, LittleEndian, Encode, Frame, Fcs, Body, Escapes;
    address, payload := 62, [0x0A, 0x17, 0x62];
    ShortFrameParts(address, payload);
    FrameSize(address, UNNUMBERED_INFORMATION, payload);
    EscapesOfFour(0xB9, 0x7D, 0x7D, 0x7E);
    EscapesOfThree(0x0A, 0x17, 0x62);
    EscapesOfOne(0x7D);
    EscapesOfOne(UNNUMBERED_INFORMATION);
  }

  lemma ShortFrameParts(address: Uint64, payload: Bytes)
    requires address == 62 && payload == [0x0A, 0x17, 0x62]
    ensures Encode(ADDRESS_FORMAT, address) == [0x7D]
    ensures Fcs(Body(address, UNNUMBERED_INFORMATION, payload)) == [0xB9, 0x7D, 0x7D, 0x7E]
  {
    ChecksumOfThree();
    hide Crc32.Value;
    assert Encode(ADDRESS_FORMAT, 62) == [0x7D];
    assert Body(address, UNNUMBERED_INFORMATION, payload) == [0x7D, 0x03, 0x0A, 0x17, 0x62];
    assert LittleEndian(0x7E7D_7DB9) == [0xB9, 0x7D, 0x7D, 0x7E];
  }

  function EscapeOf(b: Byte): nat {
    if NeedsEscaping(b) then 1 else 0
  }

  lemma EscapesOfOne(a: Byte)
    ensures Escapes([a]) == EscapeOf(a)
  {
    assert [a][1..] == [];
  }

  lemma EscapesOfThree(a: Byte, b: Byte, c: Byte)
    ensures Escapes([a, b, c]) == EscapeOf(a) + EscapeOf(b) + EscapeOf(c)
  {
    EscapesConcat([a], [b, c]);
    EscapesConcat([b], [c]);
    assert [a] + [b, c] == [a, b, c] && [b] + [c] == [b, c];
    EscapesOfOne(a);
    EscapesOfOne(b);
    EscapesOfOne(c);
  }

  lemma EscapesOfFour(a: Byte, b: Byte, c: Byte, d: Byte)
    ensures Escapes([a, b, c, d]) == EscapeOf(a) + EscapeOf(b) + EscapeOf(c) + EscapeOf(d)
  {
    EscapesConcat([a], [b, c, d]);
    assert [a] + [b, c, d] == [a, b, c, d];
    EscapesOfOne(a);
    EscapesOfThree(b, c, d);
  }
}
