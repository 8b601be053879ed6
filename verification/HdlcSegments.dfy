/**
 The HDLC decoder without its states: a stream is cut at its flags, and each piece is judged by itself. And what its
 checksum is for: a frame with a byte damaged is never delivered.
 */
module HdlcSegments {
  import opened ByteOrder
  import opened Varint
  import opened HdlcProtocol
  import Crc32

  datatype Segment = Broken | Whole(content: Bytes)

  /** The bytes a piece stands for. It is broken if an escape byte has nothing or another one behind it. */
  function Unescaped(piece: Bytes): Segment {
    if piece == [] then Whole([])
    else if piece[0] != ESCAPE then Prepended(piece[0], Unescaped(piece[1..]))
    else if |piece| == 1 || piece[1] == ESCAPE then Broken
    else Prepended(Escape(piece[1]), Unescaped(piece[2..]))
  }

  function Prepended(b: Byte, segment: Segment): Segment {
    if segment == Broken then Broken else Whole([b] + segment.content)
  }

  /** A body and the checksum of it. */
  ghost predicate Intact(content: Bytes) {
    exists body: Bytes :: content == body + Fcs(body)
  }

  /** What is reported when the flag behind a piece comes. */
  ghost function Judged(maxSize: nat, piece: Bytes): seq<Outcome> {
    match Unescaped(piece)
    case Broken => [DataLoss]
    case Whole(content) =>
      if content == [] then []
      else if |content| < MIN_FRAME_SIZE || !Intact(content) then [DataLoss]
      else if maxSize < |content| then [ResourceExhausted]
      else [Parse(content)]
  }

  /** Pieces with a flag behind each. */
  function Flagged(pieces: seq<Bytes>): Bytes {
    if pieces == [] then [] else pieces[0] + [FLAG] + Flagged(pieces[1..])
  }

  predicate FlagFree(bytes: Bytes) {
    FLAG !in bytes
  }

  ghost function JudgedAll(maxSize: nat, pieces: seq<Bytes>): seq<Outcome> {
    if pieces == [] then [] else Judged(maxSize, pieces[0]) + JudgedAll(maxSize, pieces[1..])
  }

  // ---------------------------------------------------------------- the automaton does just this

  lemma {:induction false} SkipToFlag(maxSize: nat, skipped: nat, piece: Bytes)
    requires FlagFree(piece)
    ensures After(maxSize, InterFrame(skipped), piece) == InterFrame(skipped + |piece|)
    ensures Reports(maxSize, InterFrame(skipped), piece) == []
    decreases piece
  {
    if piece != [] {
      SkipToFlag(maxSize, skipped + 1, piece[1..]);
    }
  }

  /** Junk between frames is reported once, at the next flag. */
  lemma JunkJudged(maxSize: nat, skipped: nat, piece: Bytes)
    requires FlagFree(piece)
    ensures After(maxSize, InterFrame(skipped), piece + [FLAG]) == InFrame([])
    ensures Reports(maxSize, InterFrame(skipped), piece + [FLAG]) == if skipped + |piece| == 0 then [] else [DataLoss]
  {
    hide After, Reports;
    SkipToFlag(maxSize, skipped, piece);
    FeedConcat(maxSize, InterFrame(skipped), piece, [FLAG]);
    FeedOne(maxSize, InterFrame(skipped + |piece|), FLAG);
  }

  /** What the flag behind a piece brings, with some content already there. */
  function Closed(maxSize: nat, content: Bytes, segment: Segment): seq<Outcome> {
    if segment == Broken then [DataLoss] else Report(Checked(maxSize, content + segment.content))
  }

  lemma {:induction false} PieceClosed(maxSize: nat, content: Bytes, piece: Bytes)
    requires FlagFree(piece)
    ensures After(maxSize, InFrame(content), piece + [FLAG]) == InFrame([])
    ensures Reports(maxSize, InFrame(content), piece + [FLAG]) == Closed(maxSize, content, Unescaped(piece))
    decreases piece
  {
    hide Checked, HdlcProtocol.Escape, After, Reports;
    if piece == [] {
      assert piece + [FLAG] == [FLAG] && content + [] == content;
      FeedOne(maxSize, InFrame(content), FLAG);
    } else if piece[0] != ESCAPE {
      var rest := piece[1..];
      FeedFirst(maxSize, InFrame(content), piece);
      PieceClosed(maxSize, content + [piece[0]], rest);
      ClosedStep(maxSize, content, piece[0], Unescaped(rest));
    } else {
      FeedFirst(maxSize, InFrame(content), piece);
      EscapeClosed(maxSize, content, piece[1..]);
      if |piece| != 1 && piece[1] != ESCAPE {
        var rest := piece[2..];
        assert piece[1..][1..] == rest;
        FeedFirst(maxSize, FrameEscape(content), piece[1..]);
        PieceClosed(maxSize, content + [HdlcProtocol.Escape(piece[1])], rest);
        ClosedStep(maxSize, content, HdlcProtocol.Escape(piece[1]), Unescaped(rest));
      }
    }
  }

  lemma ClosedStep(maxSize: nat, content: Bytes, b: Byte, segment: Segment)
    ensures Closed(maxSize, content, Prepended(b, segment)) == Closed(maxSize, content + [b], segment)
  {
    hide Checked;
    if segment != Broken {
      assert content + [b] + segment.content == content + ([b] + segment.content);
    }
  }

  lemma FeedFirst(maxSize: nat, s: State, piece: Bytes)
    requires piece != []
    ensures After(maxSize, s, piece + [FLAG]) == After(maxSize, Next(maxSize, s, piece[0]).0, piece[1..] + [FLAG])
    ensures Reports(maxSize, s, piece + [FLAG])
         == Report(Next(maxSize, s, piece[0]).1) + Reports(maxSize, Next(maxSize, s, piece[0]).0, piece[1..] + [FLAG])
  {
    hide Next;
    var bytes := piece + [FLAG];
    assert bytes[0] == piece[0] && bytes[1..] == piece[1..] + [FLAG];
  }

  /** Nothing or another escape byte behind an escape byte breaks the piece, and is reported at its flag. */
  lemma EscapeClosed(maxSize: nat, content: Bytes, rest: Bytes)
    requires FlagFree(rest)
    ensures rest == [] || rest[0] == ESCAPE ==>
      && After(maxSize, FrameEscape(content), rest + [FLAG]) == InFrame([])
      && Reports(maxSize, FrameEscape(content), rest + [FLAG]) == [DataLoss]
  {
    hide After, Reports;
    if rest == [] {
      assert rest + [FLAG] == [FLAG];
      FeedOne(maxSize, FrameEscape(content), FLAG);
    } else if rest[0] == ESCAPE {
      FeedFirst(maxSize, FrameEscape(content), rest);
      JunkJudged(maxSize, |content| + 1, rest[1..]);
    }
  }

  lemma IntactMatches(content: Bytes)
    requires FCS_SIZE <= |content|
    ensures FcsMatches(content) <==> Intact(content)
  {
    hide Crc32.Value, LittleEndian, FromLittleEndian;
    var n := |content| - FCS_SIZE;
    var front := content[..n];
    if FcsMatches(content) {
      FromLittleEndianRoundTrip(content[n..]);
      assert content == front + Fcs(front);
    }
    if Intact(content) {
      var body: Bytes :| content == body + Fcs(body);
      assert body == front && content[n..] == Fcs(body);
      LittleEndianRoundTrip(Crc32.Value(body));
    }
  }

  lemma ClosedIsJudged(maxSize: nat, piece: Bytes)
    ensures Closed(maxSize, [], Unescaped(piece)) == Judged(maxSize, piece)
  {
    hide FcsMatches, Intact, Parse;
    var segment := Unescaped(piece);
    if segment != Broken {
      assert [] + segment.content == segment.content;
      if FCS_SIZE <= |segment.content| {
        IntactMatches(segment.content);
      }
      ParsedIsReported(segment.content);
    }
  }

  lemma ParsedIsReported(content: Bytes)
    ensures Report(Parse(content)) == [Parse(content)]
  {
  }

  /**
   The decoder against its definition piece by piece: whatever bytes come in, once a flag was seen, each piece up to the
   next flag is reported by itself, and what was in front of the first flag costs one report if anything was there.
   */
  lemma {:induction false} StreamJudged(maxSize: nat, pieces: seq<Bytes>)
    requires forall i :: 0 <= i < |pieces| ==> FlagFree(pieces[i])
    ensures After(maxSize, InFrame([]), Flagged(pieces)) == InFrame([])
    ensures Reports(maxSize, InFrame([]), Flagged(pieces)) == JudgedAll(maxSize, pieces)
  {
    hide After, Reports, Judged, Closed, FlagFree, Unescaped;
    if pieces == [] {
      FeedNothing(maxSize, InFrame([]));
    } else {
      PieceClosed(maxSize, [], pieces[0]);
      ClosedIsJudged(maxSize, pieces[0]);
      StreamJudged(maxSize, pieces[1..]);
      FeedConcat(maxSize, InFrame([]), pieces[0] + [FLAG], Flagged(pieces[1..]));
    }
  }

  lemma FromTheStart(maxSize: nat, junk: Bytes, pieces: seq<Bytes>)
    requires FlagFree(junk) && forall i :: 0 <= i < |pieces| ==> FlagFree(pieces[i])
    ensures Reports(maxSize, InterFrame(0), junk + [FLAG] + Flagged(pieces))
         == (if junk == [] then [] else [DataLoss]) + JudgedAll(maxSize, pieces)
  {
    hide After, Reports, JudgedAll, FlagFree, Flagged;
    JunkJudged(maxSize, 0, junk);
    StreamJudged(maxSize, pieces);
    FeedConcat(maxSize, InterFrame(0), junk + [FLAG], Flagged(pieces));
  }

  /** Every stream is pieces with flags behind them, and a rest without a flag that brings no report. */
  lemma {:induction false} CutAtFlags(bytes: Bytes) returns (pieces: seq<Bytes>, rest: Bytes)
    ensures bytes == Flagged(pieces) + rest && FlagFree(rest)
    ensures forall i :: 0 <= i < |pieces| ==> FlagFree(pieces[i])
    decreases |bytes|
  {
    if FlagFree(bytes) {
      pieces, rest := [], bytes;
    } else {
      var piece, more := CutAtFirst(bytes);
      pieces, rest := CutAtFlags(more);
      assert piece + [FLAG] + (Flagged(pieces) + rest) == piece + [FLAG] + Flagged(pieces) + rest;
      assert ([piece] + pieces)[1..] == pieces;
      pieces := [piece] + pieces;
    }
  }

  lemma {:induction false} CutAtFirst(bytes: Bytes) returns (piece: Bytes, rest: Bytes)
    requires !FlagFree(bytes)
    ensures bytes == piece + [FLAG] + rest && FlagFree(piece)
  {
    if bytes[0] == FLAG {
      piece, rest := [], bytes[1..];
    } else {
      piece, rest := CutAtFirst(bytes[1..]);
      piece := [bytes[0]] + piece;
    }
  }

  // ---------------------------------------------------------------- damage

  /** Of two contents that differ in one byte, at most one has the right checksum. */
  lemma OneByteApart(content: Bytes, i: nat, b: Byte)
    requires i < |content| && b != content[i]
    ensures !(Intact(content) && Intact(content[i := b]))
  {
    hide Crc32.Value, LittleEndian;
    if Intact(content) && Intact(content[i := b]) {
      var body: Bytes :| content == body + Fcs(body);
      var damaged: Bytes :| content[i := b] == damaged + Fcs(damaged);
      assert |damaged| == |body| && damaged == content[i := b][..|body|] && body == content[..|body|];
      if i < |body| {
        assert damaged == body[i := b] && content[i := b][|body|..] == content[|body|..] == Fcs(body);
        ChecksumsApart(body, i, b);
      }
      assert false;
    }
  }

  lemma ChecksumsApart(body: Bytes, i: nat, b: Byte)
    requires i < |body| && b != body[i]
    ensures Fcs(body[i := b]) != Fcs(body)
  {
    hide Crc32.Value, LittleEndian, FromLittleEndian;
    Crc32.OneByteChangesValue(body, i, b);
    LittleEndianRoundTrip(Crc32.Value(body));
    LittleEndianRoundTrip(Crc32.Value(body[i := b]));
  }

  /** A frame with one byte of its content damaged is reported lost, whichever byte it is and whatever it became. */
  lemma DamagedByteIsLost(maxSize: nat, address: Uint64, control: Byte, payload: Bytes, i: nat, b: Byte)
    requires i < |Content(address, control, payload)| && b != Content(address, control, payload)[i]
    ensures After(maxSize, InFrame([]), Escaped(Content(address, control, payload)[i := b]) + [FLAG]) == InFrame([])
    ensures Reports(maxSize, InFrame([]), Escaped(Content(address, control, payload)[i := b]) + [FLAG]) == [DataLoss]
  {
    hide After, Reports, Escaped, Crc32.Value, Encode, Intact, FcsMatches;
    var content := Content(address, control, payload);
    var damaged := content[i := b];
    ContentIsIntact(address, control, payload);
    OneByteApart(content, i, b);
    IntactMatches(damaged);
    FeedEscaped(maxSize, [], damaged);
    assert [] + damaged == damaged;
    FeedConcat(maxSize, InFrame([]), Escaped(damaged), [FLAG]);
    FeedFlag(maxSize, damaged);
  }

  /** A frame with one byte of its content damaged on the way. */
  function DamagedFrame(m: Message, i: nat, b: Byte): Bytes
    requires i < |Content(m.address, m.control, m.payload)|
  {
    [FLAG] + Escaped(Content(m.address, m.control, m.payload)[i := b]) + [FLAG]
  }

  lemma DamagedFrameIsLost(maxSize: nat, s: State, m: Message, i: nat, b: Byte)
    requires i < |Content(m.address, m.control, m.payload)| && b != Content(m.address, m.control, m.payload)[i]
    ensures After(maxSize, s, DamagedFrame(m, i, b)) == InFrame([])
    ensures Reports(maxSize, s, DamagedFrame(m, i, b)) == Reports(maxSize, s, [FLAG]) + [DataLoss]
  {
    hide After, Reports, Escaped, Content;
    DamagedByteIsLost(maxSize, m.address, m.control, m.payload, i, b);
    var inner := Escaped(Content(m.address, m.control, m.payload)[i := b]) + [FLAG];
    FeedConcat(maxSize, s, [FLAG], inner);
    FeedOne(maxSize, s, FLAG);
    FlagSynchronises(maxSize, s);
    assert DamagedFrame(m, i, b) == [FLAG] + inner;
  }

  /** Reports of frames in a row, of which there may be none. */
  lemma Frames(maxSize: nat, messages: seq<Message>)
    ensures After(maxSize, InFrame([]), HdlcProtocol.Stream(messages)) == InFrame([])
    ensures Reports(maxSize, InFrame([]), HdlcProtocol.Stream(messages)) == ExpectedAll(maxSize, messages)
  {
    hide After, Reports, Next, Expected;
    if messages == [] {
      FeedNothing(maxSize, InFrame([]));
    } else {
      FlagInFrame(maxSize);
      StreamRoundTrip(maxSize, InFrame([]), messages);
    }
  }

  /** Damage to one frame costs that frame: those before and after it are reported as if nothing had happened. */
  lemma DamageCostsOneFrame(maxSize: nat, before: seq<Message>, m: Message, i: nat, b: Byte, after: seq<Message>)
    requires i < |Content(m.address, m.control, m.payload)| && b != Content(m.address, m.control, m.payload)[i]
    ensures Reports(maxSize, InFrame([]), HdlcProtocol.Stream(before) + DamagedFrame(m, i, b) + HdlcProtocol.Stream(after))
         == ExpectedAll(maxSize, before) + [DataLoss] + ExpectedAll(maxSize, after)
  {
    hide After, Reports, Content, DamagedFrame, HdlcProtocol.Stream, ExpectedAll;
    var s := InFrame([]);
    var first, second, third := HdlcProtocol.Stream(before), DamagedFrame(m, i, b), HdlcProtocol.Stream(after);
    FlagInFrame(maxSize);
    FeedOne(maxSize, s, FLAG);
    FlagSynchronises(maxSize, s);
    Frames(maxSize, before);
    DamagedFrameIsLost(maxSize, s, m, i, b);
    Frames(maxSize, after);
    FeedConcat(maxSize, s, first, second);
    FeedConcat(maxSize, s, first + second, third);
  }

  lemma ContentIsIntact(address: Uint64, control: Byte, payload: Bytes)
    ensures Intact(Content(address, control, payload))
  {
  }

  /** What is delivered came whole: the address as its varint says, control, payload, and the checksum of all these. */
  lemma DeliveredIsIntact(maxSize: nat, content: Bytes, address: Uint64, control: Byte, payload: Bytes)
    returns (head: Bytes)
    requires Reports(maxSize, InFrame([]), Escaped(content) + [FLAG]) == [Received(address, control, payload)]
    ensures |content| <= maxSize
    ensures content == head + [control] + payload + Fcs(head + [control] + payload)
    ensures head != [] && Decode(ADDRESS_FORMAT, content) == (address, |head|)
  {
    hide After, Reports, Escaped, Crc32.Value, LittleEndian, FcsMatches, Decode;
    FeedEscaped(maxSize, [], content);
    assert [] + content == content;
    FeedConcat(maxSize, InFrame([]), Escaped(content), [FLAG]);
    FeedOne(maxSize, InFrame(content), FLAG);
    assert Report(Checked(maxSize, content)) == [Received(address, control, payload)];
    IntactMatches(content);
    var body: Bytes :| content == body + Fcs(body);
    head := content[..Decode(ADDRESS_FORMAT, content).1];
    assert body == head + [control] + payload;
  }

  /** And what comes so is delivered, if it has the least size of a frame and fits the buffer. */
  lemma IntactIsDelivered(maxSize: nat, head: Bytes, address: Uint64, control: Byte, payload: Bytes, content: Bytes)
    requires content == head + [control] + payload + Fcs(head + [control] + payload)
    requires head != [] && Decode(ADDRESS_FORMAT, content) == (address, |head|)
    requires MIN_FRAME_SIZE <= |content| <= maxSize
    ensures Reports(maxSize, InFrame([]), Escaped(content) + [FLAG]) == [Received(address, control, payload)]
  {
    hide After, Reports, Escaped, Crc32.Value, LittleEndian, FcsMatches, Decode;
    FeedEscaped(maxSize, [], content);
    assert [] + content == content;
    FeedConcat(maxSize, InFrame([]), Escaped(content), [FLAG]);
    assert Intact(content);
    IntactMatches(content);
    assert content[|head|] == control && content[|head| + 1..|content| - FCS_SIZE] == payload;
    FeedFlag(maxSize, content);
  }
}
