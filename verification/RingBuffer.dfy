/** The multi-reader ring of varint-prefixed entries, pw_ring_buffer/prefixed_entry_ring_buffer.cc. */
module RingBuffer {
  import opened Varint
  import opened RingLayout

  datatype Status = Ok | InvalidArgument | OutOfRange | ResourceExhausted | FailedPrecondition | DataLoss

  class Reader {
    var ring: PrefixedEntryRingBuffer?
    var readIdx: nat
    var entryCount: nat

    constructor ()
      ensures ring == null
    {
      ring := null;
      readIdx, entryCount := 0, 0;
    }
  }

  function ByteFrom(at: nat, bytes: Bytes, i: nat): Byte
    requires at <= i < at + |bytes|
  {
    bytes[i - at]
  }

  /** Memory in which these bytes were written from a position on. */
  function Placed(at: nat, bytes: Bytes): map<nat, Byte> {
    map i | at <= i < at + |bytes| :: ByteFrom(at, bytes, i)
  }

  lemma NothingPlaced()
    ensures Placed(0, []) == map[]
  {
  }

  lemma PlacedTwice(first: Bytes, second: Bytes)
    ensures Placed(0, first) + Placed(|first|, second) == Placed(0, first + second)
  {
  }

  /**
   The caller's memory from where its `room` bytes begin, and the position to write to next: what GetOutput copies
   to. `memory` has the bytes that were written; nothing keeps a position below `room`.
   */
  class Destination {
    const room: nat
    var memory: map<nat, Byte>
    var writeIndex: nat

    ghost predicate Holds(bytes: Bytes)
      reads this
    {
      memory == Placed(0, bytes) && writeIndex == |bytes|
    }

    ghost predicate Unwritten()
      reads this
    {
      memory == map[] && writeIndex == 0
    }

    constructor (room: nat)
      ensures this.room == room && Unwritten()
    {
      this.room := room;
      memory, writeIndex := map[], 0;
    }

    /** The bytes up to the position to write to next, as the caller is given them. */
    method Content(ghost held: Bytes) returns (bytes: Bytes)
      requires Holds(held)
      ensures bytes == held
    {
      var written, n := memory, writeIndex;
      bytes := seq(n, i requires 0 <= i < n && i in written => written[i]);
    }

    /** Copies as many bytes as the whole destination has room for, whatever was written to it before. */
    method Write(source: Bytes) returns (status: Status)
      modifies this
      ensures var n := if room < |source| then room else |source|;
        && memory == old(memory) + Placed(old(writeIndex), source[..n]) && writeIndex == old(writeIndex) + n
        && status == if n == |source| then Ok else ResourceExhausted
    {
      var copySize := if room < |source| then room else |source|;
      memory := memory + Placed(writeIndex, source[..copySize]);
      writeIndex := writeIndex + copySize;
      status := if copySize == |source| then Ok else ResourceExhausted;
    }
  }

  /** How many bytes two pieces come to that are each cut to the room of the destination. */
  function Copied(untilWrap: nat, readBytes: nat, room: nat): nat {
    if readBytes <= untilWrap || room < untilWrap then if room < readBytes then room else readBytes
    else untilWrap + if room < readBytes - untilWrap then room else readBytes - untilWrap
  }

  /** They are more than there is room for exactly if the first piece is one, fits, and leaves too little. */
  lemma CopiedBeyond(untilWrap: nat, readBytes: nat, room: nat)
    ensures room < Copied(untilWrap, readBytes, room) <==> 0 < untilWrap <= room < readBytes
    ensures Copied(untilWrap, readBytes, room) <= readBytes
    ensures room <= Copied(untilWrap, readBytes, room) || Copied(untilWrap, readBytes, room) == readBytes
  {
  }

  lemma BeyondIsWritten(output: Destination, bytes: Bytes)
    requires output.Holds(bytes)
    ensures (exists p :: p in output.memory && output.room <= p) <==> output.room < |bytes|
  {
    if output.room < |bytes| {
      assert output.room in output.memory;
    }
  }

  /** A cast to 32 bits. */
  function Truncated(n: Uint64): Uint32 {
    n % TWO_TO_THE_32
  }

  datatype EntryInfo = EntryInfo(preambleBytes: nat, userPreamble: Uint32, dataBytes: nat)

  class PrefixedEntryRingBuffer {
    const preambles: bool
    const buffer: array<Byte>
    var writeIdx: nat
    var readers: seq<Reader>
    // Everything ever pushed.
    ghost var log: Log

    ghost predicate Attached(r: Reader)
      reads this, buffer, r
    {
      r.ring == this && Follows(preambles, buffer[..], log, writeIdx, r.readIdx, r.entryCount)
    }

    /** Every attached reader finds exactly its last entries of the log, byte for byte. */
    ghost predicate Valid()
      reads this, buffer, readers
    {
      && MAX_VARINT32_SIZE <= buffer.Length && writeIdx <= buffer.Length
      && (forall k :: 0 <= k < |log| ==> |log[k].data| < TWO_TO_THE_32)
      && (forall i, j :: 0 <= i < j < |readers| ==> readers[i] != readers[j])
      && forall r :: r in readers ==> Attached(r)
    }

    /** What a reader has still to read. */
    ghost function Queue(r: Reader): Log
      requires r.entryCount <= |log|
      reads this, r
    {
      Last(log, r.entryCount)
    }

    // SetBuffer.
    constructor (buffer: array<Byte>, preambles: bool)
      requires MAX_VARINT32_SIZE <= buffer.Length
      ensures Valid() && this.buffer == buffer && this.preambles == preambles
      ensures readers == [] && log == [] && writeIdx == 0
    {
      this.buffer := buffer;
      this.preambles := preambles;
      writeIdx := 0;
      readers := [];
      log := [];
    }

    method Clear()
      requires Valid()
      modifies this`writeIdx, readers
      ensures Valid()
      ensures forall r :: r in readers ==> Queue(r) == []
    {
      hide Follows;
      writeIdx := 0;
      for i := 0 to |readers|
        invariant writeIdx == 0
        invariant forall r :: r in readers ==> r.ring == this
        invariant forall k :: 0 <= k < i ==> readers[k].readIdx == 0 && readers[k].entryCount == 0
      {
        readers[i].readIdx := 0;
        readers[i].entryCount := 0;
      }
      CaughtUp(preambles, buffer[..], log, 0);
    }

    /** The first of the readers with the most entries to read. */
    method GetSlowestReader() returns (slowest: Reader)
      requires Valid() && readers != []
      ensures slowest in readers
      ensures forall r :: r in readers ==> r.entryCount <= slowest.entryCount
    {
      hide Follows;
      slowest := readers[0];
      for i := 1 to |readers|
        invariant slowest in readers
        invariant forall k :: 0 <= k < i ==> readers[k].entryCount <= slowest.entryCount
      {
        if readers[i].entryCount > slowest.entryCount {
          slowest := readers[i];
        }
      }
    }

    /** A new reader begins where the slowest one is, or at the end of the log if it is the first. */
    method AttachReader(reader: Reader) returns (status: Status)
      requires Valid()
      modifies this`readers, reader
      ensures Valid()
      ensures status == if old(reader.ring) != null then InvalidArgument else Ok
      ensures status != Ok ==> readers == old(readers) && unchanged(reader)
      ensures status == Ok ==> readers == old(readers) + [reader]
      ensures status == Ok && old(readers) == [] ==> reader.entryCount == 0
      ensures status == Ok ==> forall r :: r in old(readers) ==> old(r.entryCount) <= reader.entryCount
      ensures status == Ok && old(readers) != [] ==> exists r :: r in old(readers) && reader.entryCount == old(r.entryCount)
    {
      hide Follows;
      if reader.ring != null {
        return InvalidArgument;
      }
      assert forall r :: r in readers ==> Attached(r) && r != reader;
      if readers == [] {
        reader.ring := this;
        reader.readIdx := writeIdx;
        reader.entryCount := 0;
        CaughtUp(preambles, buffer[..], log, writeIdx);
      } else {
        var slowest := GetSlowestReader();
        reader.ring := this;
        reader.readIdx := slowest.readIdx;
        reader.entryCount := slowest.entryCount;
      }
      assert Attached(reader);
      readers := readers + [reader];
      return Ok;
    }

    method DetachReader(reader: Reader) returns (status: Status)
      requires Valid() && (reader.ring == this ==> reader in readers)
      modifies this`readers, reader
      ensures Valid()
      ensures status == if old(reader.ring) != this then InvalidArgument else Ok
      ensures status != Ok ==> readers == old(readers) && unchanged(reader)
      ensures status == Ok ==> reader.ring == null && reader !in readers
      ensures status == Ok ==> exists i ::
        0 <= i < |old(readers)| && old(readers)[i] == reader && readers == old(readers)[..i] + old(readers)[i + 1..]
    {
      hide Follows;
      if reader.ring != this {
        return InvalidArgument;
      }
      reader.ring := null;
      reader.readIdx := 0;
      reader.entryCount := 0;
      var i := 0;
      while readers[i] != reader
        invariant i < |readers| && readers == old(readers) && reader in readers
        invariant forall k :: 0 <= k < i ==> readers[k] != reader
        decreases |readers| - i
      {
        i := i + 1;
      }
      ghost var before := readers;
      readers := readers[..i] + readers[i + 1..];
      forall r | r in readers
        ensures r in before && r != reader
      {
        var k :| 0 <= k < |readers| && readers[k] == r;
        assert r == before[if k < i then k else k + 1];
      }
      return Ok;
    }

    // ---------------------------------------------------------------- raw access

    method RawRead(start: nat, length: nat) returns (bytes: Bytes)
      requires start <= buffer.Length && length <= buffer.Length
      ensures bytes == Circle(buffer[..], start, length)
    {
      var bytesUntilWrap := buffer.Length - start;
      var bytesToCopy := if length < bytesUntilWrap then length else bytesUntilWrap;
      bytes := buffer[start..start + bytesToCopy];
      if bytesToCopy < length {
        bytes := bytes + buffer[..length - bytesToCopy];
      }
    }

    method RawWrite(source: Bytes)
      requires writeIdx <= buffer.Length && |source| <= buffer.Length
      modifies this`writeIdx, buffer
      ensures buffer[..] == Overwritten(old(buffer[..]), old(writeIdx), source)
      ensures writeIdx == Increment(buffer.Length, old(writeIdx), |source|)
    {
      if |source| == 0 {
        return;
      }
      var bytesUntilWrap := buffer.Length - writeIdx;
      var bytesToCopy := if |source| < bytesUntilWrap then |source| else bytesUntilWrap;
      forall k | 0 <= k < bytesToCopy {
        buffer[writeIdx + k] := source[k];
      }
      if bytesToCopy < |source| {
        forall k | 0 <= k < |source| - bytesToCopy {
          buffer[k] := source[bytesToCopy + k];
        }
      }
      writeIdx := Increment(buffer.Length, writeIdx, |source|);
    }

    /** Decodes the header at an index: of the front entry of a reader that is there. */
    method RawFrontEntryInfo(start: nat, ghost count: nat) returns (status: Status, info: EntryInfo)
      requires MAX_VARINT32_SIZE <= buffer.Length && 0 < count
      requires forall k :: 0 <= k < |log| ==> |log[k].data| < TWO_TO_THE_32
      requires Follows(preambles, buffer[..], log, writeIdx, start, count)
      ensures status == Ok
      ensures var item := log[|log| - count];
        && info.preambleBytes == |Header(preambles, item)|
        && info.dataBytes == |item.data|
        && info.userPreamble == if preambles then item.preamble else 0
    {
      hide *;
      FollowsWithin(preambles, buffer[..], log, writeIdx, start, count);
      ghost var item := log[|log| - count];
      ghost var size := PreambleSize(preambles, item);
      HeaderAt(preambles, buffer[..], log, writeIdx, start, count, item, size);
      status, info := DataLoss, EntryInfo(0, 0, 0);
      var userPreambleBytes, userPreamble: Uint64 := 0, 0;
      if preambles {
        var varintBuf := RawRead(start, MAX_VARINT32_SIZE);
        var (value, size) := Decode(LEB128, varintBuf);
        userPreamble, userPreambleBytes := value, size;
        if userPreambleBytes == 0 {
          return;
        }
      }
      var varintBuf := RawRead(Increment(buffer.Length, start, userPreambleBytes), MAX_VARINT32_SIZE);
      var (entryBytes, lengthBytes) := Decode(LEB128, varintBuf);
      if lengthBytes == 0 {
        return;
      }
      info := EntryInfo(userPreambleBytes + lengthBytes, Truncated(userPreamble), entryBytes);
      HeaderSize(preambles, item, info);
      status := Ok;
    }

    // ---------------------------------------------------------------- reading

    /** The bytes a read of the front entry asks for. */
    ghost function Wanted(reader: Reader, includePreamble: bool): Bytes
      requires 0 < reader.entryCount <= |log|
      reads this, reader
    {
      if includePreamble then Encoded(preambles, Queue(reader)[0]) else Queue(reader)[0].data
    }

    /** How many bytes are in front of the end of the buffer where a read of the front entry begins. */
    ghost function UntilWrap(reader: Reader, includePreamble: bool): nat
      requires 0 < reader.entryCount <= |log| && reader.readIdx <= buffer.Length
      requires |Header(preambles, Queue(reader)[0])| <= buffer.Length
      reads this, reader
    {
      if includePreamble then buffer.Length - reader.readIdx
      else buffer.Length - Increment(buffer.Length, reader.readIdx, |Header(preambles, Queue(reader)[0])|)
    }

    lemma FrontWithin(reader: Reader)
      requires Valid() && reader in readers && reader.entryCount != 0
      ensures 0 < reader.entryCount <= |log| && reader.readIdx <= buffer.Length
      ensures |Header(preambles, Queue(reader)[0])| <= buffer.Length
    {
      assert Attached(reader);
      LastFront(preambles, log, reader.entryCount);
    }

    /** How many bytes a read of the front entry writes to a destination of `room` bytes. */
    ghost function Copies(reader: Reader, includePreamble: bool, room: nat): nat
      requires Valid() && reader in readers && reader.entryCount != 0
      reads this, buffer, readers
    {
      FrontWithin(reader);
      Copied(UntilWrap(reader, includePreamble), |Wanted(reader, includePreamble)|, room)
    }

    /** The front entry wraps, its first piece fits into the destination, and the whole does not. */
    ghost predicate Overruns(reader: Reader, includePreamble: bool, room: nat)
      requires Valid() && reader in readers
      reads this, buffer, readers
    {
      reader.entryCount != 0 &&
      (FrontWithin(reader); 0 < UntilWrap(reader, includePreamble) <= room < |Wanted(reader, includePreamble)|)
    }

    /**
     Reads the front entry of a reader into a destination. Each of the two pieces of an entry that wraps is cut to
     the whole room of the destination, so that the second may end behind it.
     */
    method InternalRead(reader: Reader, includePreamble: bool, output: Destination)
      returns (status: Status, preamble: Uint32)
      requires Valid() && reader in readers && output.Unwritten()
      modifies output
      ensures status in {Ok, OutOfRange, ResourceExhausted}
      ensures status == OutOfRange <==> reader.entryCount == 0
      ensures status == OutOfRange ==> output.Unwritten()
      ensures reader.entryCount <= |log|
      ensures status != OutOfRange ==>
        && Copies(reader, includePreamble, output.room) <= |Wanted(reader, includePreamble)|
        && output.Holds(Wanted(reader, includePreamble)[..Copies(reader, includePreamble, output.room)])
        && (status == Ok <==> Copies(reader, includePreamble, output.room) == |Wanted(reader, includePreamble)|)
      ensures status != OutOfRange ==> preamble == if preambles then Queue(reader)[0].preamble else 0
      ensures (exists p :: p in output.memory && output.room <= p) <==> Overruns(reader, includePreamble, output.room)
    {
      hide Follows, Circle, Encode, Encoded, Header, Increment, Copied, Placed;
      preamble := 0;
      CountsWithinLog();
      if reader.entryCount == 0 {
        return OutOfRange, preamble;
      }
      assert Attached(reader);
      FrontWithin(reader);
      var infoStatus, info := RawFrontEntryInfo(reader.readIdx, reader.entryCount);
      FrontAt(preambles, buffer[..], log, writeIdx, reader.readIdx, reader.entryCount);
      preamble := info.userPreamble;
      var readBytes, dataReadIdx := info.dataBytes, reader.readIdx;
      if includePreamble {
        readBytes := readBytes + info.preambleBytes;
      } else {
        dataReadIdx := Increment(buffer.Length, dataReadIdx, info.preambleBytes);
      }
      status := ReadPieces(dataReadIdx, readBytes, output);
      CopiedBeyond(UntilWrap(reader, includePreamble), readBytes, output.room);
      BeyondIsWritten(output, Wanted(reader, includePreamble)[..Copies(reader, includePreamble, output.room)]);
    }

    /** Copies bytes out, in two pieces when they wrap. */
    method ReadPieces(start: nat, readBytes: nat, output: Destination) returns (status: Status)
      requires start <= buffer.Length && readBytes <= buffer.Length && output.Unwritten()
      modifies output
      ensures var n := Copied(buffer.Length - start, readBytes, output.room);
        && n <= readBytes && output.Holds(Circle(buffer[..], start, readBytes)[..n])
        && status == if n == readBytes then Ok else ResourceExhausted
    {
      hide Placed, Circle;
      NothingPlaced();
      CircleInPieces(buffer[..], start, readBytes);
      var bytesUntilWrap := buffer.Length - start;
      var bytesToCopy := if readBytes < bytesUntilWrap then readBytes else bytesUntilWrap;
      var first := buffer[start..start + bytesToCopy];
      status := output.Write(first);
      assert first == buffer[..][start..start + bytesToCopy];
      assert bytesUntilWrap < readBytes ==> first == buffer[..][start..];
      assert output.Holds(first[..output.writeIndex]);
      if status == Ok && bytesToCopy < readBytes {
        var second := buffer[..readBytes - bytesToCopy];
        assert first[..|first|] == first && second == buffer[..][..readBytes - bytesUntilWrap];
        status := output.Write(second);
        ghost var k := output.writeIndex - |first|;
        PlacedTwice(first, second[..k]);
        assert (first + second)[..|first| + k] == first + second[..k];
      }
    }

    method PeekFrontPreamble(reader: Reader) returns (status: Status, preamble: Uint32)
      requires Valid() && reader in readers
      ensures status == if reader.entryCount == 0 then OutOfRange else Ok
      ensures status == Ok ==> preamble == if preambles then Queue(reader)[0].preamble else 0
    {
      if reader.entryCount == 0 {
        return OutOfRange, 0;
      }
      var infoStatus, info := RawFrontEntryInfo(reader.readIdx, reader.entryCount);
      return Ok, info.userPreamble;
    }

    /** Takes the front entry off a reader's queue, and off no other. */
    method PopFront(reader: Reader) returns (status: Status)
      requires Valid() && reader in readers
      modifies reader
      ensures Valid()
      ensures status == if old(reader.entryCount) == 0 then OutOfRange else Ok
      ensures status == Ok ==> reader.entryCount == old(reader.entryCount) - 1 && Queue(reader) == old(Queue(reader))[1..]
      ensures status != Ok ==> unchanged(reader)
    {
      hide Follows, Header, Increment, Encoded, Last;
      if reader.entryCount == 0 {
        return OutOfRange;
      }
      assert Attached(reader);
      var infoStatus, info := RawFrontEntryInfo(reader.readIdx, reader.entryCount);
      FollowsPop(preambles, buffer[..], log, writeIdx, reader.readIdx, reader.entryCount);
      reader.readIdx := Increment(buffer.Length, reader.readIdx, info.preambleBytes + info.dataBytes);
      reader.entryCount := reader.entryCount - 1;
      return Ok;
    }

    /** Pops every reader that has the most entries to read. */
    method InternalPopFrontAll() returns (ghost most: nat)
      requires Valid() && exists r :: r in readers && r.entryCount != 0
      modifies readers
      ensures Valid() && 0 < most
      ensures exists r :: r in readers && old(r.entryCount) == most
      ensures forall r :: r in readers ==>
        old(r.entryCount) <= most && r.entryCount == if old(r.entryCount) == most then most - 1 else old(r.entryCount)
    {
      hide Follows;
      var slowest := GetSlowestReader();
      var entryCount := slowest.entryCount;
      most := entryCount;
      for i := 0 to |readers|
        invariant Valid()
        invariant forall k :: 0 <= k < i ==>
          readers[k].entryCount == if old(readers[k].entryCount) == most then most - 1 else old(readers[k].entryCount)
        invariant forall k :: i <= k < |readers| ==> readers[k].entryCount == old(readers[k].entryCount)
      {
        if readers[i].entryCount == entryCount {
          var status := PopFront(readers[i]);
        }
      }
    }

    // ---------------------------------------------------------------- space

    ghost function UnreadBy(r: Reader): nat
      requires r.entryCount <= |log|
      reads this, r
    {
      Unread(preambles, log, r.entryCount)
    }

    /** The buffer less what the slowest reader has not read. */
    ghost predicate Available(available: nat)
      reads this, readers
    {
      && available <= buffer.Length
      && (readers == [] ==> available == buffer.Length)
      && (forall r :: r in readers ==> r.entryCount <= |log| && UnreadBy(r) <= buffer.Length - available)
      && (readers != [] ==> exists r :: r in readers && r.entryCount <= |log| && UnreadBy(r) == buffer.Length - available)
    }

    /** Comparing the indices gives the free bytes, although 0 and N are one place. */
    method RawAvailableBytes() returns (available: nat)
      requires Valid()
      ensures Available(available)
    {
      if readers == [] {
        return buffer.Length;
      }
      var slowest := GetSlowestReader();
      var readIdx := slowest.readIdx;
      AvailableIsFree(buffer.Length, readIdx, UnreadBy(slowest), writeIdx);
      forall r | r in readers
        ensures UnreadBy(r) <= UnreadBy(slowest)
      {
        UnreadMonotone(preambles, log, r.entryCount, slowest.entryCount);
      }
      if readIdx < writeIdx {
        return buffer.Length - (writeIdx - readIdx);
      }
      if readIdx > writeIdx {
        return readIdx - writeIdx;
      }
      UnreadZero(preambles, log, slowest.entryCount);
      for i := 0 to |readers|
        invariant forall k :: 0 <= k < i ==> readers[k].readIdx != readIdx || readers[k].entryCount == 0
      {
        if readers[i].readIdx == readIdx && readers[i].entryCount != 0 {
          return 0;
        }
      }
      return buffer.Length;
    }

    // ---------------------------------------------------------------- pushing

    /** Evicts front entries until `total` bytes are free, and none more than that takes. */
    method MakeRoom(total: nat)
      requires Valid() && total <= buffer.Length
      modifies readers
      ensures Valid()
      ensures forall r :: r in readers ==>
        && old(r.entryCount) <= |log|
        && r.entryCount == Kept(preambles, log, old(r.entryCount), buffer.Length - total)
        && UnreadBy(r) <= buffer.Length - total
    {
      hide Follows, Unread, Kept, Available;
      ghost var room := buffer.Length - total;
      CountsWithinLog();
      var available: nat := RawAvailableBytes();
      ghost var most: nat := |log|;
      while available < total
        invariant Valid() && Available(available)
        invariant forall r :: r in readers ==> r.entryCount <= most <= |log| && old(r.entryCount) <= |log|
        invariant forall r :: r in readers ==>
          Kept(preambles, log, r.entryCount, room) == Kept(preambles, log, old(r.entryCount), room)
        decreases most
      {
        most := EvictFront(total, available, most);
        available := RawAvailableBytes();
      }
      EnoughIsAvailable(available, total);
      AllKept(room);
    }

    /** One round of eviction changes nothing about which entries may stay. */
    method EvictFront(total: nat, ghost available: nat, ghost most: nat) returns (ghost most': nat)
      requires Valid() && Available(available) && available < total <= buffer.Length
      requires forall r :: r in readers ==> r.entryCount <= most <= |log|
      modifies readers
      ensures Valid() && most' < most
      ensures forall r :: r in readers ==>
        && r.entryCount <= most' && old(r.entryCount) <= |log|
        && Kept(preambles, log, r.entryCount, buffer.Length - total)
           == Kept(preambles, log, old(r.entryCount), buffer.Length - total)
    {
      hide Follows, Unread, Kept, Available;
      SomeoneIsInTheWay(available, total);
      most' := InternalPopFrontAll();
      KeptOneLess(preambles, log, most', buffer.Length - total);
      most' := most' - 1;
    }

    /** When too little is available, every reader with the most entries has more to read than may stay. */
    lemma SomeoneIsInTheWay(available: nat, total: nat)
      requires Valid() && Available(available) && available < total <= buffer.Length
      ensures exists r :: r in readers && r.entryCount != 0
      ensures forall n :: n <= |log| && (forall r :: r in readers ==> r.entryCount <= n) ==>
        buffer.Length - total < Unread(preambles, log, n)
    {
      var slow :| slow in readers && slow.entryCount <= |log| && UnreadBy(slow) == buffer.Length - available;
      UnreadZero(preambles, log, slow.entryCount);
      forall n | slow.entryCount <= n <= |log|
        ensures UnreadBy(slow) <= Unread(preambles, log, n)
      {
        UnreadMonotone(preambles, log, slow.entryCount, n);
      }
    }

    lemma EnoughIsAvailable(available: nat, total: nat)
      requires Valid() && Available(available) && total <= available
      ensures forall r :: r in readers ==> r.entryCount <= |log| && UnreadBy(r) <= buffer.Length - total
    {
    }

    lemma CountsWithinLog()
      requires Valid()
      ensures forall r :: r in readers ==> r.entryCount <= |log|
    {
    }

    /**
     Appends an entry to every reader's queue. With `popFrontIfNeeded` it drops the oldest entries as far as
     needed, from those readers that still have them; without, it fails when the slowest reader is in the way.
     */
    method InternalPushBack(data: Bytes, userPreamble: Uint32, popFrontIfNeeded: bool) returns (status: Status)
      requires Valid() && |data| < TWO_TO_THE_32
      modifies this`writeIdx, this`log, buffer, readers
      ensures Valid()
      ensures var item := Item(userPreamble, data);
        var total := |Encoded(preambles, item)|;
        && (status == OutOfRange <==> buffer.Length < total)
        && (status == ResourceExhausted <==>
              && !popFrontIfNeeded && total <= buffer.Length
              && exists r :: r in readers && old(r.entryCount <= |log| && buffer.Length - UnreadBy(r) < total))
        && (status == Ok ==> log == old(log) + [item] && writeIdx == Increment(buffer.Length, old(writeIdx), total))
        && (status == Ok ==> forall r :: r in readers ==>
              && old(r.entryCount) <= |old(log)|
              && r.entryCount == Kept(preambles, old(log), old(r.entryCount), buffer.Length - total) + 1)
      ensures status in {Ok, OutOfRange, ResourceExhausted}
      ensures status != Ok ==> unchanged(this, buffer) && forall r :: r in readers ==> unchanged(r)
    {
      hide Follows, Unread, Kept, Encode;
      ghost var item := Item(userPreamble, data);
      var lengthBytes := Encode(LEB128, |data| % TWO_TO_THE_32);
      var header := (if preambles then Encode(LEB128, userPreamble) else []) + lengthBytes;
      assert header == Header(preambles, item);
      var total := |header| + |data|;
      if buffer.Length < total {
        return OutOfRange;
      }
      status := Reserve(total, popFrontIfNeeded);
      if status == Ok {
        WriteEntry(item, header, data);
      }
    }

    /** Evicts entries as needed, or fails where that would be needed. */
    method Reserve(total: nat, popFrontIfNeeded: bool) returns (status: Status)
      requires Valid() && total <= buffer.Length
      modifies readers
      ensures Valid() && status in {Ok, ResourceExhausted}
      ensures status == ResourceExhausted <==>
        !popFrontIfNeeded && exists r :: r in readers && old(r.entryCount <= |log| && buffer.Length - UnreadBy(r) < total)
      ensures status == Ok ==> forall r :: r in readers ==>
        && old(r.entryCount) <= |log|
        && r.entryCount == Kept(preambles, log, old(r.entryCount), buffer.Length - total)
        && UnreadBy(r) <= buffer.Length - total
      ensures status != Ok ==> forall r :: r in readers ==> unchanged(r)
    {
      hide Follows, Unread, Kept, Encode;
      if popFrontIfNeeded {
        MakeRoom(total);
        return Ok;
      }
      var available := RawAvailableBytes();
      if available < total {
        return ResourceExhausted;
      }
      AllKept(buffer.Length - total);
      return Ok;
    }

    lemma AllKept(room: nat)
      requires Valid() && forall r :: r in readers ==> r.entryCount <= |log| && UnreadBy(r) <= room
      ensures forall r :: r in readers ==> r.entryCount <= |log| && r.entryCount == Kept(preambles, log, r.entryCount, room)
    {
      forall r | r in readers
        ensures r.entryCount == Kept(preambles, log, r.entryCount, room)
      {
        KeptAll(preambles, log, r.entryCount, room);
      }
    }

    /** Every reader has one entry more to read. */
    method CountEntry()
      requires forall i, j :: 0 <= i < j < |readers| ==> readers[i] != readers[j]
      modifies readers
      ensures forall r :: r in readers ==>
        r.ring == old(r.ring) && r.readIdx == old(r.readIdx) && r.entryCount == old(r.entryCount) + 1
    {
      for i := 0 to |readers|
        invariant forall r :: r in readers ==> r.ring == old(r.ring) && r.readIdx == old(r.readIdx)
        invariant forall k :: 0 <= k < i ==> readers[k].entryCount == old(readers[k].entryCount) + 1
        invariant forall k :: i <= k < |readers| ==> readers[k].entryCount == old(readers[k].entryCount)
      {
        readers[i].entryCount := readers[i].entryCount + 1;
      }
    }

    /** Writes an entry for which there is room. */
    method WriteEntry(ghost item: Item, header: Bytes, data: Bytes)
      requires Valid() && header == Header(preambles, item) && data == item.data && |item.data| < TWO_TO_THE_32
      requires |header| + |data| <= buffer.Length
      requires forall r :: r in readers ==> r.entryCount <= |log| && UnreadBy(r) <= buffer.Length - |header| - |data|
      modifies this`writeIdx, this`log, buffer, readers
      ensures Valid() && log == old(log) + [item]
      ensures writeIdx == Increment(buffer.Length, old(writeIdx), |Encoded(preambles, item)|)
      ensures forall r :: r in readers ==> r.entryCount == old(r.entryCount) + 1
    {
      hide Follows, Overwritten, Increment, Encode, Header, Unread;
      ghost var b, e := buffer[..], Encoded(preambles, item);
      assert e == header + data;
      OverwrittenTwice(b, writeIdx, header, data);
      IncrementTwice(buffer.Length, writeIdx, |header|, |data|);
      RawWrite(header);
      RawWrite(data);
      CountEntry();
      log := log + [item];
      forall r | r in readers
        ensures Attached(r)
      {
        assert old(Attached(r) && UnreadBy(r) <= buffer.Length - |header| - |data|);
        FollowsPush(preambles, b, old(log), old(writeIdx), r.readIdx, old(r.entryCount), item);
      }
    }

    // ---------------------------------------------------------------- deringing and iteration

    /** Rotates the buffer so that this reader's entries begin at index 0. Nobody's queue changes. */
    method InternalDering(deringReader: Reader)
      requires Valid() && deringReader in readers
      modifies this`writeIdx, buffer, readers
      ensures Valid() && deringReader.readIdx == 0
      ensures buffer[..] == Rotated(old(buffer[..]), old(deringReader.readIdx))
      ensures forall r :: r in readers ==> r.entryCount == old(r.entryCount)
    {
      hide Follows, Rotated;
      ghost var b, front := buffer[..], deringReader.readIdx;
      ReadIdxWithin(deringReader);
      var rotated := Rotated(buffer[..], deringReader.readIdx);
      forall k | 0 <= k < buffer.Length {
        buffer[k] := rotated[k];
      }
      assert buffer[..] == rotated;
      if writeIdx < deringReader.readIdx {
        writeIdx := writeIdx + buffer.Length;
      }
      writeIdx := writeIdx - deringReader.readIdx;
      ShiftReaders(deringReader);
      forall r | r in readers
        ensures Attached(r)
      {
        assert old(Attached(r));
        FollowsRotate(preambles, b, log, old(writeIdx), old(r.readIdx), r.entryCount, front);
      }
      FollowsRotate(preambles, b, log, old(writeIdx), front, deringReader.entryCount, front);
    }

    lemma ReadIdxWithin(r: Reader)
      requires Valid() && r in readers
      ensures r.readIdx <= buffer.Length
    {
      assert Attached(r);
    }

    method ShiftReaders(deringReader: Reader)
      requires deringReader in readers && deringReader.readIdx <= buffer.Length
      requires forall i, j :: 0 <= i < j < |readers| ==> readers[i] != readers[j]
      modifies readers
      ensures forall r :: r in readers ==>
        && r.ring == old(r.ring) && r.entryCount == old(r.entryCount)
        && r.readIdx == Shifted(buffer.Length, old(r.readIdx), old(deringReader.readIdx))
    {
      for i := 0 to |readers|
        invariant deringReader.readIdx == old(deringReader.readIdx)
        invariant forall r :: r in readers ==> r.ring == old(r.ring) && r.entryCount == old(r.entryCount)
        invariant forall k :: 0 <= k < i && readers[k] != deringReader ==>
          readers[k].readIdx == Shifted(buffer.Length, old(readers[k].readIdx), deringReader.readIdx)
        invariant forall k :: i <= k < |readers| ==> readers[k].readIdx == old(readers[k].readIdx)
      {
        var reader := readers[i];
        if reader != deringReader {
          if reader.readIdx < deringReader.readIdx {
            reader.readIdx := reader.readIdx + buffer.Length;
          }
          reader.readIdx := reader.readIdx - deringReader.readIdx;
        }
      }
      deringReader.readIdx := 0;
    }

    ghost predicate IsSlowest(r: Reader)
      reads this, readers
    {
      r in readers && r.entryCount <= |log| && forall o :: o in readers ==> o.entryCount <= r.entryCount
    }

    /** Afterwards everything the slowest reader has to read lies in one piece at the start of the buffer. */
    method Dering() returns (status: Status)
      requires Valid()
      modifies this`writeIdx, buffer, readers
      ensures Valid()
      ensures status == if readers == [] then FailedPrecondition else Ok
      ensures forall r :: r in readers ==> r.entryCount == old(r.entryCount)
      ensures status == Ok ==> exists r :: IsSlowest(r) && EncodedAll(preambles, Queue(r)) <= buffer[..]
    {
      hide Follows;
      if readers == [] {
        return FailedPrecondition;
      }
      var slowest := GetSlowestReader();
      if slowest.readIdx != 0 {
        InternalDering(slowest);
      }
      assert Attached(slowest);
      FollowsFromStart(preambles, buffer[..], log, writeIdx, slowest.entryCount);
      assert IsSlowest(slowest);
      return Ok;
    }

    /** Visits the entries of the slowest reader through an iterator: deringed first, then one by one. */
    method IterateAll() returns (status: Status, items: Log)
      requires Valid() && readers != []
      modifies this`writeIdx, buffer, readers
      ensures Valid() && status == Ok
      ensures forall r :: r in readers ==> r.entryCount == old(r.entryCount)
      ensures exists r :: IsSlowest(r) && items == Visible(preambles, Queue(r))
    {
      hide Follows, Encode, Header, Rotated, Visible;
      var reader := GetSlowestReader();
      InternalDering(reader);
      CountsWithinLog();
      status, items := Walk(reader);
      assert IsSlowest(reader);
    }

    /** The increments of an iterator over a deringed buffer. */
    method Walk(reader: Reader) returns (status: Status, items: Log)
      requires Valid() && IsSlowest(reader) && reader.readIdx == 0
      ensures status == Ok && items == Visible(preambles, Queue(reader))
    {
      hide Follows, Encode, Header, Visible, Unread, Available, Iterating, Encoded, EncodedAll, Last;
      var readIdx: nat, entryCount: nat := 0, reader.entryCount;
      assert Attached(reader);
      IterationStarts(preambles, buffer[..], log, writeIdx, entryCount);
      items := [];
      while entryCount != 0
        invariant Iterating(preambles, buffer[..], log, writeIdx, readIdx, reader.entryCount, entryCount, items)
      {
        IterationStep(preambles, buffer[..], log, writeIdx, readIdx, reader.entryCount, entryCount, items);
        var info;
        status, info := RawFrontEntryInfo(readIdx, entryCount);
        var data := buffer[readIdx + info.preambleBytes..readIdx + info.preambleBytes + info.dataBytes];
        items := items + [Item(info.userPreamble, data)];
        readIdx := readIdx + info.preambleBytes + info.dataBytes;
        entryCount := entryCount - 1;
        if entryCount != 0 {
          var available: nat := RawAvailableBytes();
          SlowestIsAvailable(reader, available);
          if readIdx >= buffer.Length - available {
            status := DataLoss;
            return;
          }
          status, info := RawFrontEntryInfo(readIdx, entryCount);
        }
      }
      IterationEnds(preambles, buffer[..], log, writeIdx, readIdx, reader.entryCount, items);
      status := Ok;
    }

    lemma SlowestIsAvailable(slowest: Reader, available: nat)
      requires Valid() && slowest in readers && Available(available)
      requires forall r :: r in readers ==> r.entryCount <= slowest.entryCount
      ensures slowest.entryCount <= |log| && UnreadBy(slowest) == buffer.Length - available
    {
      var r :| r in readers && r.entryCount <= |log| && UnreadBy(r) == buffer.Length - available;
      UnreadMonotone(preambles, log, r.entryCount, slowest.entryCount);
    }
  }

  ghost function PreambleSize(preambles: bool, item: Item): nat {
    if preambles then |Encode(LEB128, item.preamble)| else 0
  }

  /** The header of a reader's front entry lies at its index. */
  lemma HeaderAt(preambles: bool, b: Bytes, log: Log, write: nat, start: nat, count: nat, item: Item, size: nat)
    requires MAX_VARINT32_SIZE <= |b| && Follows(preambles, b, log, write, start, count)
    requires 0 < count && item == log[|log| - count] && size == PreambleSize(preambles, item)
    ensures Increment(|b|, start, size) <= |b|
    ensures preambles <==> 0 < size
    ensures preambles ==> Decode(LEB128, Circle(b, start, MAX_VARINT32_SIZE)) == (item.preamble, size)
    ensures Decode(LEB128, Circle(b, Increment(|b|, start, size), MAX_VARINT32_SIZE))
         == (Length(item), |Encode(LEB128, Length(item))|)
  {
    hide *;
    FollowsWithin(preambles, b, log, write, start, count);
    FrontAt(preambles, b, log, write, start, count);
    PreambleIsFirst(preambles, item);
    LengthIsSecond(preambles, item, size);
    var bytes := Encoded(preambles, item);
    if preambles {
      PreambleIsFirst(preambles, item);
      DecodeAt(b, start, item.preamble, |bytes|);
    }
    CircleSuffix(b, start, size, |bytes|);
    DecodeAt(b, Increment(|b|, start, size), Length(item), |bytes| - size);
  }

  lemma FollowsWithin(preambles: bool, b: Bytes, log: Log, write: nat, start: nat, count: nat)
    requires Follows(preambles, b, log, write, start, count)
    ensures start <= |b| && write <= |b| && count <= |log|
  {
  }

  lemma PreambleIsFirst(preambles: bool, item: Item)
    ensures preambles ==> Encode(LEB128, item.preamble) <= Encoded(preambles, item)
    ensures PreambleSize(preambles, item) == if preambles then |Encode(LEB128, item.preamble)| else 0
  {
    hide Encode;
  }

  lemma LengthIsSecond(preambles: bool, item: Item, size: nat)
    requires size == PreambleSize(preambles, item)
    ensures size <= |Encoded(preambles, item)|
    ensures Encode(LEB128, Length(item)) <= Encoded(preambles, item)[size..]
  {
    hide Encode;
    assert Encoded(preambles, item)[size..] == Encode(LEB128, Length(item)) + item.data;
  }

  lemma HeaderSize(preambles: bool, item: Item, info: EntryInfo)
    requires |item.data| < TWO_TO_THE_32 && info.dataBytes == Length(item)
    requires info.preambleBytes == PreambleSize(preambles, item) + |Encode(LEB128, Length(item))|
    ensures info.preambleBytes == |Header(preambles, item)| && info.dataBytes == |item.data|
    ensures Truncated(item.preamble) == item.preamble && Truncated(0) == 0
  {
    hide Encode;
  }

  /** The bytes of a reader's front entry, and those of its data, lie at its index. */
  lemma FrontAt(preambles: bool, b: Bytes, log: Log, write: nat, start: nat, count: nat)
    requires Follows(preambles, b, log, write, start, count) && 0 < count
    ensures var item := log[|log| - count];
            var h := |Header(preambles, item)|;
            && start <= |b| && |Encoded(preambles, item)| == h + |item.data| <= |b|
            && Circle(b, start, |Encoded(preambles, item)|) == Encoded(preambles, item)
            && Increment(|b|, start, h) <= |b|
            && Circle(b, Increment(|b|, start, h), |item.data|) == item.data
            && Last(log, count)[0] == item
  {
    var item := log[|log| - count];
    LastFront(preambles, log, count);
    CirclePrefix(b, start, |Encoded(preambles, item)|, Unread(preambles, log, count));
    CircleSuffix(b, start, |Header(preambles, item)|, |Encoded(preambles, item)|);
  }

  /** What a reader can see of items: the caller's number only if the buffer keeps it. */
  ghost function Visible(preambles: bool, items: Log): Log {
    seq(|items|, k requires 0 <= k < |items| => if preambles then items[k] else Item(0, items[k].data))
  }

  /** A push to a ring whose only reader has read everything. */
  method PushAlone(ring: PrefixedEntryRingBuffer, reader: Reader, item: Item)
    requires ring.Valid() && ring.readers == [reader] && reader.entryCount == 0 && !ring.preambles
    requires item.preamble == 0 && |item.data| < TWO_TO_THE_32 && |Encoded(false, item)| <= ring.buffer.Length
    modifies ring`writeIdx, ring`log, ring.buffer, reader
    ensures ring.Valid() && reader.entryCount == 1 && ring.log == old(ring.log) + [item]
    ensures ring.writeIdx == Increment(ring.buffer.Length, old(ring.writeIdx), |Encoded(false, item)|)
  {
    hide Follows, Encoded, Kept, Increment, Unread;
    assert reader in ring.readers && Item(0, item.data) == item;
    var status := ring.InternalPushBack(item.data, 0, true);
  }

  /** A ring of eight bytes, after a push and a pop of three bytes and a push of five, which wrap behind the third. */
  method WrappedRing() returns (ring: PrefixedEntryRingBuffer, reader: Reader)
    ensures fresh(ring) && fresh(reader) && ring.Valid() && ring.readers == [reader] && reader in ring.readers
    ensures WrapsBehindThird(ring, reader)
  {
    hide Follows, Encoded, Header, FiveBytes, ThreeBytes, Increment, PrefixedEntryRingBuffer.Valid;
    SmallEntries();
    var buffer := new Byte[8](_ => 0);
    ring := new PrefixedEntryRingBuffer(buffer, false);
    reader := new Reader();
    var status := ring.AttachReader(reader);
    assert ring.readers == [reader] && reader in ring.readers;
    PushAlone(ring, reader, ThreeBytes());
    status := ring.PopFront(reader);
    PushAlone(ring, reader, FiveBytes());
    ReadsFromFour(ring, reader);
  }

  /** The reader's front entry is the one of five bytes, and begins four bytes in front of the end of eight. */
  ghost predicate WrapsBehindThird(ring: PrefixedEntryRingBuffer, reader: Reader)
    reads ring, reader
  {
    && ring.buffer.Length == 8 && !ring.preambles && ring.log != [] && ring.log[|ring.log| - 1] == FiveBytes()
    && reader.entryCount == 1 && reader.readIdx == 4
  }

  function ThreeBytes(): Item {
    Item(0, [7, 8, 9])
  }

  lemma SmallEntries()
    ensures ThreeBytes().preamble == 0 && FiveBytes().preamble == 0
    ensures |ThreeBytes().data| == 3 && |FiveBytes().data| == 5
    ensures |Encoded(false, ThreeBytes())| == 4 && |Header(false, FiveBytes())| == 1 && |Encoded(false, FiveBytes())| == 6
    ensures Increment(8, 0, 4) == 4 && Increment(8, 4, 6) == 2
  {
  }

  /** The place of the writer tells that of a reader of the last entry. */
  lemma ReadsFromFour(ring: PrefixedEntryRingBuffer, reader: Reader)
    requires ring.Valid() && reader in ring.readers && reader.entryCount == 1 && ring.writeIdx == 2
    requires ring.buffer.Length == 8 && !ring.preambles && ring.log != [] && ring.log[|ring.log| - 1] == FiveBytes()
    ensures reader.readIdx == 4
  {
    SmallEntries();
    hide Encoded, Circle;
    assert ring.Attached(reader);
    LastFront(false, ring.log, 1);
    assert Last(ring.log, 0) == [];
  }

  function FiveBytes(): Item {
    Item(0, [1, 2, 3, 4, 5])
  }

  /** Read into three bytes it fills five, and the read is said to have gone well. */
  method ReadPastTheEnd() returns (status: Status, output: Destination)
    ensures fresh(output) && output.room == 3 && status == Ok
    ensures output.Holds(FiveBytes().data) && |FiveBytes().data| == 5 && 4 in output.memory
  {
    hide *;
    var ring, reader := WrappedRing();
    output := new Destination(3);
    CopiesFive(ring, reader);
    var preamble;
    status, preamble := ring.InternalRead(reader, false, output);
    ghost var data := FiveBytes().data;
    assert data[..5] == data;
    HeldAt(output, data, 4);
  }

  lemma HeldAt(output: Destination, bytes: Bytes, i: nat)
    requires output.Holds(bytes) && i < |bytes|
    ensures i in output.memory
  {
  }

  lemma CircleInPieces(b: Bytes, start: nat, n: nat)
    requires start <= |b| && n <= |b|
    ensures n <= |b| - start ==> Circle(b, start, n) == b[start..start + n]
    ensures |b| - start < n ==>
      Circle(b, start, n) == b[start..] + b[..n - (|b| - start)]
      && forall k :: 0 <= k <= |b| - start ==> Circle(b, start, n)[..k] == b[start..][..k]
  {
  }

  lemma CopiesFive(ring: PrefixedEntryRingBuffer, reader: Reader)
    requires ring.Valid() && reader in ring.readers && WrapsBehindThird(ring, reader)
    ensures reader.entryCount != 0 && ring.Queue(reader) != []
    ensures ring.Queue(reader)[0] == FiveBytes()
    ensures ring.Wanted(reader, false) == FiveBytes().data && ring.Copies(reader, false, 3) == 5 == |FiveBytes().data|
  {
    SmallEntries();
    hide Follows, Header;
    assert ring.Queue(reader)[0] == FiveBytes();
  }

  /** From index 0 on, nothing wraps. */
  lemma FollowsFromStart(preambles: bool, b: Bytes, log: Log, write: nat, count: nat)
    requires Follows(preambles, b, log, write, 0, count)
    ensures count <= |log| && EncodedAll(preambles, Last(log, count)) <= b
  {
  }

  /** An iteration over the last `count` entries has `left` to go and has seen `items`. */
  ghost predicate Iterating(
    preambles: bool, b: Bytes, log: Log, write: nat, readIdx: nat, count: nat, left: nat, items: Log)
  {
    && left <= count <= |log|
    && Follows(preambles, b, log, write, readIdx, left)
    && readIdx + Unread(preambles, log, left) == Unread(preambles, log, count) <= |b|
    && items == Visible(preambles, Last(log, count)[..count - left])
  }

  lemma IterationStarts(preambles: bool, b: Bytes, log: Log, write: nat, count: nat)
    requires Follows(preambles, b, log, write, 0, count)
    ensures Iterating(preambles, b, log, write, 0, count, count, [])
  {
  }

  lemma IterationStep(
    preambles: bool, b: Bytes, log: Log, write: nat, readIdx: nat, count: nat, left: nat, items: Log)
    requires Iterating(preambles, b, log, write, readIdx, count, left, items) && 0 < left
    ensures var item := log[|log| - left];
      var h := |Header(preambles, item)|;
      && Follows(preambles, b, log, write, readIdx, left)
      && readIdx + h + |item.data| <= |b| && b[readIdx + h..readIdx + h + |item.data|] == item.data
      && Iterating(preambles, b, log, write, readIdx + h + |item.data|, count, left - 1,
                   items + [Item(if preambles then item.preamble else 0, item.data)])
      && Follows(preambles, b, log, write, readIdx + h + |item.data|, left - 1)
      && (left - 1 != 0 ==> readIdx + h + |item.data| < Unread(preambles, log, count))
  {
    hide Encode, Header, EncodedAll, Circle, Increment, Follows;
    var item := log[|log| - left];
    var h := |Header(preambles, item)|;
    LastFront(preambles, log, left);
    FrontAt(preambles, b, log, write, readIdx, left);
    FollowsPop(preambles, b, log, write, readIdx, left);
    Straight(b, readIdx, h);
    Straight(b, readIdx, h + |item.data|);
    Straight(b, readIdx + h, |item.data|);
    UnreadZero(preambles, log, left - 1);
    assert Last(log, count)[..count - left + 1] == Last(log, count)[..count - left] + [item];
  }

  lemma Straight(b: Bytes, start: nat, length: nat)
    requires start + length <= |b|
    ensures Increment(|b|, start, length) == start + length
    ensures Circle(b, start, length) == b[start..start + length]
  {
  }

  lemma IterationEnds(preambles: bool, b: Bytes, log: Log, write: nat, readIdx: nat, count: nat, items: Log)
    requires Iterating(preambles, b, log, write, readIdx, count, 0, items)
    ensures items == Visible(preambles, Last(log, count))
  {
    assert Last(log, count)[..count] == Last(log, count);
  }
}
