/** The HDLC decoder, pw_hdlc/decoder.cc: one byte at a time, with a checksum that lags four bytes behind. */
module HdlcDecoder {
  import opened ByteOrder
  import opened Varint
  import opened HdlcProtocol
  import Crc32

  datatype Mode = Between | Inside | Escaping

  /** How much of the content the running checksum covers: all but the last four bytes. */
  function Covered(content: Bytes): Bytes {
    if |content| < FCS_SIZE then [] else content[..|content| - FCS_SIZE]
  }

  /** The ring holds the last four bytes, each at its position modulo four. */
  ghost predicate HoldsLast(ring: Bytes, content: Bytes) {
    |ring| == FCS_SIZE && forall j :: 0 <= j < |content| && |content| - FCS_SIZE <= j ==> ring[j % FCS_SIZE] == content[j]
  }

  /** The buffer holds as much of the content as fits. */
  ghost predicate HoldsFront(buffer: Bytes, content: Bytes) {
    forall j :: 0 <= j < |content| && j < |buffer| ==> buffer[j] == content[j]
  }

  lemma AppendToRing(ring: Bytes, content: Bytes, b: Byte)
    requires HoldsLast(ring, content)
    ensures HoldsLast(ring[|content| % FCS_SIZE := b], content + [b])
  {
  }

  lemma AppendToFront(before: Bytes, after: Bytes, content: Bytes, b: Byte)
    requires HoldsFront(before, content)
    requires after == if |content| < |before| then before[|content| := b] else before
    ensures HoldsFront(after, content + [b])
  {
  }

  /** The byte that the ring loses is the next one for the checksum. */
  lemma Ejected(ring: Bytes, content: Bytes, b: Byte)
    requires HoldsLast(ring, content)
    ensures Covered(content + [b]) ==
      if |content| < FCS_SIZE then Covered(content) else Covered(content) + [ring[|content| % FCS_SIZE]]
  {
    var n := |content|;
    if FCS_SIZE <= n {
      assert (n - FCS_SIZE) % FCS_SIZE == n % FCS_SIZE;
      assert ring[(n - FCS_SIZE) % FCS_SIZE] == content[n - FCS_SIZE];
      assert (content + [b])[..n + 1 - FCS_SIZE] == content[..n - FCS_SIZE] + [content[n - FCS_SIZE]];
    }
  }

  lemma LastFour(ring: Bytes, content: Bytes, i: nat)
    requires HoldsLast(ring, content) && FCS_SIZE <= |content| && i < FCS_SIZE
    ensures ring[(|content| % FCS_SIZE + i) % FCS_SIZE] == content[|content| - FCS_SIZE..][i]
  {
    var j := |content| - FCS_SIZE + i;
    assert ring[j % FCS_SIZE] == content[j];
  }

  lemma NextIndex(n: nat)
    ensures n % FCS_SIZE < FCS_SIZE && (n % FCS_SIZE + 1) % FCS_SIZE == (n + 1) % FCS_SIZE
  {
  }

  class Decoder {
    const buffer: array<Byte>
    const lastReadBytes: array<Byte>
    var lastReadBytesIndex: nat
    var fcs: bv32
    var currentFrameSize: nat
    var mode: Mode
    // The unescaped bytes of the current frame.
    ghost var content: Bytes

    ghost predicate Valid()
      reads this, buffer, lastReadBytes
    {
      && lastReadBytes.Length == FCS_SIZE && buffer != lastReadBytes
      && (if mode == Between && currentFrameSize != 0 then content == [] else InStep())
    }

    /** Every field says what it should about the content. */
    ghost predicate InStep()
      requires lastReadBytes.Length == FCS_SIZE
      reads this, buffer, lastReadBytes
    {
      && currentFrameSize == |content| && lastReadBytesIndex == |content| % FCS_SIZE
      && fcs == Crc32.Fold(Crc32.INITIAL_STATE, Covered(content))
      && HoldsLast(lastReadBytes[..], content) && HoldsFront(buffer[..], content)
    }

    ghost function Abstract(): State
      reads this
    {
      match mode
      case Between => InterFrame(currentFrameSize)
      case Inside => InFrame(content)
      case Escaping => FrameEscape(content)
    }

    constructor (buffer: array<Byte>)
      ensures Valid() && this.buffer == buffer && Abstract() == InterFrame(0)
      ensures fresh(lastReadBytes)
    {
      this.buffer := buffer;
      lastReadBytes := new Byte[FCS_SIZE];
      lastReadBytesIndex, currentFrameSize := 0, 0;
      fcs := Crc32.INITIAL_STATE;
      mode := Between;
      content := [];
    }

    method Reset()
      requires lastReadBytes.Length == FCS_SIZE
      modifies this`currentFrameSize, this`lastReadBytesIndex, this`fcs, this`content
      ensures InStep() && content == [] && currentFrameSize == 0
    {
      currentFrameSize, lastReadBytesIndex := 0, 0;
      fcs := Crc32.INITIAL_STATE;
      content := [];
    }

    method AppendByte(b: Byte)
      requires lastReadBytes.Length == FCS_SIZE && buffer != lastReadBytes && InStep()
      modifies this`currentFrameSize, this`lastReadBytesIndex, this`fcs, this`content, buffer, lastReadBytes
      ensures InStep() && content == old(content) + [b]
    {
      hide HoldsLast, HoldsFront, Crc32.Fold, Crc32.Step, Covered;
      NextIndex(|content|);
      ghost var ring, front := lastReadBytes[..], buffer[..];
      if currentFrameSize < buffer.Length {
        buffer[currentFrameSize] := b;
      }
      AppendToFront(front, buffer[..], content, b);
      AppendToRing(ring, content, b);
      Ejected(ring, content, b);
      if currentFrameSize >= lastReadBytes.Length {
        fcs := Crc32.Step(fcs, lastReadBytes[lastReadBytesIndex]);
        Crc32.FoldOneMore(Crc32.INITIAL_STATE, Covered(content), lastReadBytes[lastReadBytesIndex]);
      }
      lastReadBytes[lastReadBytesIndex] := b;
      lastReadBytesIndex := (lastReadBytesIndex + 1) % lastReadBytes.Length;
      currentFrameSize := currentFrameSize + 1;
      assert lastReadBytes[..] == ring[|content| % FCS_SIZE := b];
      content := content + [b];
    }

    /** Compares the lagging checksum with the last four bytes, taken out of the ring in order. */
    method VerifyFrameCheckSequence() returns (matches: bool)
      requires lastReadBytes.Length == FCS_SIZE && InStep() && FCS_SIZE <= |content|
      ensures matches == FcsMatches(content)
    {
      hide HoldsLast, HoldsFront, Crc32.Fold, Crc32.Final, FromLittleEndian;
      var fcsBuffer: Bytes := [];
      var index := lastReadBytesIndex;
      for i := 0 to FCS_SIZE
        invariant |fcsBuffer| == i && fcsBuffer == content[|content| - FCS_SIZE..][..i]
        invariant index == (lastReadBytesIndex + i) % FCS_SIZE
      {
        LastFour(lastReadBytes[..], content, i);
        NextIndex(lastReadBytesIndex + i);
        fcsBuffer := fcsBuffer + [lastReadBytes[index]];
        index := (index + 1) % lastReadBytes.Length;
      }
      assert fcsBuffer == content[|content| - FCS_SIZE..];
      matches := FromLittleEndian(fcsBuffer) == Crc32.Final(fcs);
    }

    /** Whether the frame may be parsed, and if not, what to report instead. */
    method CheckFrame() returns (ok: bool, outcome: Outcome)
      requires lastReadBytes.Length == FCS_SIZE && InStep()
      ensures ok ==> |content| <= buffer.Length && Checked(buffer.Length, content) == Parse(content)
      ensures !ok ==> outcome == Checked(buffer.Length, content)
    {
      hide FcsMatches, Parse;
      // Empty frames are not an error: flags may repeat.
      if currentFrameSize == 0 {
        return false, Unavailable;
      }
      if currentFrameSize < MIN_FRAME_SIZE {
        return false, DataLoss;
      }
      var matches := VerifyFrameCheckSequence();
      if !matches {
        return false, DataLoss;
      }
      if currentFrameSize > buffer.Length {
        return false, ResourceExhausted;
      }
      return true, Unavailable;
    }

    /** One byte of the stream takes the decoder, and what it reports, exactly one step of the automaton. */
    method Process(b: Byte) returns (outcome: Outcome)
      requires Valid()
      modifies this, buffer, lastReadBytes
      ensures Valid()
      ensures (Abstract(), outcome) == Next(buffer.Length, old(Abstract()), b)
    {
      hide HoldsLast, HoldsFront, Crc32.Fold, Checked, Parse, HdlcProtocol.Escape;
      match mode
      case Between =>
        if b == FLAG {
          mode := Inside;
          if currentFrameSize != 0 {
            Reset();
            return DataLoss;
          }
        } else {
          currentFrameSize := currentFrameSize + 1;
          content := [];
        }
        return Unavailable;
      case Inside =>
        if b == FLAG {
          outcome := ReceiveFrame();
          return;
        }
        if b == ESCAPE {
          mode := Escaping;
        } else {
          AppendByte(b);
        }
        return Unavailable;
      case Escaping =>
        if b == FLAG {
          mode := Inside;
          Reset();
          return DataLoss;
        }
        if b == ESCAPE {
          mode := Between;
          currentFrameSize := currentFrameSize + 1;
          content := [];
        } else {
          mode := Inside;
          AppendByte(HdlcProtocol.Escape(b));
        }
        return Unavailable;
    }

    /** The closing flag: checks the frame, forgets it, and parses what the buffer still holds. */
    method ReceiveFrame() returns (outcome: Outcome)
      requires Valid() && mode == Inside
      modifies this`currentFrameSize, this`lastReadBytesIndex, this`fcs, this`content
      ensures Valid() && content == []
      ensures outcome == Checked(buffer.Length, old(content))
    {
      hide Checked, Parse, HoldsLast, Crc32.Fold;
      var ok;
      ok, outcome := CheckFrame();
      var completedFrameSize := currentFrameSize;
      Reset();
      if ok {
        assert buffer[..completedFrameSize] == old(content);
        outcome := Parse(buffer[..completedFrameSize]);
      }
    }

    /** Feeds a span of bytes and hands on what is not merely unavailable. */
    method ProcessAll(data: Bytes) returns (reports: seq<Outcome>)
      requires Valid()
      modifies this, buffer, lastReadBytes
      ensures Valid() && Abstract() == After(buffer.Length, old(Abstract()), data)
      ensures reports == Reports(buffer.Length, old(Abstract()), data)
    {
      hide HoldsLast, HoldsFront, Crc32.Fold, Next;
      reports := [];
      for i := 0 to |data|
        invariant Valid() && Abstract() == After(buffer.Length, old(Abstract()), data[..i])
        invariant reports == Reports(buffer.Length, old(Abstract()), data[..i])
      {
        FeedConcat(buffer.Length, old(Abstract()), data[..i], [data[i]]);
        FeedOne(buffer.Length, Abstract(), data[i]);
        assert data[..i] + [data[i]] == data[..i + 1];
        var outcome := Process(data[i]);
        if outcome != Unavailable {
          reports := reports + [outcome];
        }
      }
      assert data[..|data|] == data;
    }
  }
}
