/** Writing to flash in aligned pieces through a small buffer: pw_kvs/alignment.cc and alignment.h. */
module AlignedWriter {
  import opened Varint
  import opened Stream
  import opened Division
  import opened FlashMemory
  import opened Alignment

  function Zeros(n: nat): (bytes: Bytes)
    ensures |bytes| == n
  {
    if n == 0 then [] else Zeros(n - 1) + [0]
  }

  /** Content with the zeros that fill it up to the alignment. */
  function Padded(content: Bytes, alignment: nat): (bytes: Bytes)
    requires 0 < alignment
    ensures |bytes| == AlignUp(|content|, alignment)
  {
    content + Zeros(AlignUp(|content|, alignment) - |content|)
  }

  /** Writes pieces to flash one behind the other, FlashPartition::Output. */
  class Output {
    const flash: Flash
    var address: nat

    constructor (flash: Flash, address: nat)
      ensures this.flash == flash && this.address == address
    {
      this.flash := flash;
      this.address := address;
    }

    method Write(data: Bytes) returns (ok: bool)
      requires IsMultiple(address, flash.alignment) && IsMultiple(|data|, flash.alignment)
      requires address + |data| <= |flash.bytes| && BlankBetween(flash.bytes, address, address + |data|)
      modifies this, flash
      ensures address == if ok then old(address) + |data| else old(address)
      ensures SameOutside(old(flash.bytes), flash.bytes, old(address), old(address) + |data|)
      ensures ok ==> flash.bytes == Spliced(old(flash.bytes), old(address), data)
      ensures flash.reliable ==> ok
    {
      ok := flash.Write(address, data);
      if ok {
        address := address + |data|;
      }
    }
  }

  class AlignedWriter {
    const buffer: array<Byte>
    const writeSize: nat
    const alignment: nat
    const output: Output
    var bytesWritten: nat
    var bytesInBuffer: nat
    // The erased region that is written to, and what was given to this writer since it was last flushed.
    ghost var begin: nat
    ghost var room: nat
    ghost var content: Bytes

    ghost predicate Configured()
      reads this, output, output.flash
    {
      && 0 < alignment && 0 < output.flash.alignment && IsMultiple(alignment, output.flash.alignment)
      && IsMultiple(writeSize, alignment) && 0 < writeSize <= buffer.Length
      && IsMultiple(begin, alignment) && IsMultiple(room, alignment) && begin + room <= |output.flash.bytes|
    }

    /** What was written is the front of the content, and the rest is in the buffer: the first n bytes of it. */
    ghost predicate Holding(n: nat)
      reads this, output, output.flash, buffer
    {
      && Configured()
      && bytesWritten + n == |content| <= room && n <= writeSize
      && IsMultiple(bytesWritten, alignment) && output.address == begin + bytesWritten
      && buffer[..n] == content[bytesWritten..]
      && output.flash.bytes[begin..begin + bytesWritten] == content[..bytesWritten]
      && BlankBetween(output.flash.bytes, begin + bytesWritten, begin + room)
    }

    ghost predicate Valid()
      reads this, output, output.flash, buffer
    {
      Holding(bytesInBuffer) && bytesInBuffer < writeSize
    }

    constructor (bufferSize: nat, alignment: nat, output: Output, ghost room: nat)
      requires 0 < alignment <= bufferSize
      requires 0 < output.flash.alignment && IsMultiple(alignment, output.flash.alignment)
      requires IsMultiple(output.address, alignment) && IsMultiple(room, alignment)
      requires output.address + room <= |output.flash.bytes|
      requires BlankBetween(output.flash.bytes, output.address, output.address + room)
      ensures Valid() && content == [] && begin == output.address && this.room == room
      ensures this.output == output && this.alignment == alignment && fresh(buffer)
    {
      CutToMultiple(bufferSize, alignment);
      buffer := new Byte[bufferSize];
      writeSize := CutDown(bufferSize, alignment);
      this.alignment := alignment;
      this.output := output;
      bytesWritten, bytesInBuffer := 0, 0;
      begin, this.room, content := output.address, room, [];
      new;
      MultipleOfItself(alignment);
    }

    /** Writes out the n bytes that the buffer holds. */
    method WriteOut(n: nat) returns (ok: bool)
      requires Holding(n) && IsMultiple(n, alignment)
      modifies this`bytesWritten, this`bytesInBuffer, output, output.flash
      ensures bytesInBuffer == 0 && bytesWritten == old(bytesWritten) + n <= room
      ensures ok ==> Holding(0)
      ensures SameOutside(old(output.flash.bytes), output.flash.bytes, begin, begin + room)
      ensures output.flash.reliable ==> ok
    {
      hide IsMultiple;
      SumOfMultiples(begin, bytesWritten, alignment);
      SumOfMultiples(bytesWritten, n, alignment);
      MultipleOfMultiple(begin + bytesWritten, alignment, output.flash.alignment);
      MultipleOfMultiple(n, alignment, output.flash.alignment);
      ghost var before, at := output.flash.bytes, output.address;
      ok := output.Write(buffer[..n]);
      OutsideSmaller(before, output.flash.bytes, at, at + n, begin, begin + room);
      if ok {
        SplicedBehind(before, begin, bytesWritten, content);
        OutsideIsBlank(before, output.flash.bytes, at, at + n, begin + room);
      }
      bytesWritten := bytesWritten + n;
      bytesInBuffer := 0;
      assert buffer[..0] == content[|content|..];
    }

    /** Counts n bytes more in the buffer, and writes it out if that makes it full. */
    method AddBytesToBuffer(n: nat) returns (ok: bool)
      requires Holding(bytesInBuffer + n)
      modifies this`bytesWritten, this`bytesInBuffer, output, output.flash
      ensures ok ==> Valid()
      ensures !ok ==> bytesInBuffer == 0 && bytesWritten <= room
      ensures SameOutside(old(output.flash.bytes), output.flash.bytes, begin, begin + room)
      ensures output.flash.reliable ==> ok
    {
      hide IsMultiple, BlankBetween;
      OutsideStart(output.flash.bytes, begin, begin + room);
      bytesInBuffer := bytesInBuffer + n;
      if bytesInBuffer == writeSize {
        ok := WriteOut(writeSize);
      } else {
        ok := true;
      }
    }

    /** Copies a piece behind what the buffer holds. */
    method CopyIn(piece: Bytes)
      requires Valid() && bytesInBuffer + |piece| <= writeSize && |content| + |piece| <= room
      modifies this`content, buffer
      ensures Holding(bytesInBuffer + |piece|) && content == old(content) + piece
    {
      hide IsMultiple, BlankBetween;
      ghost var before := buffer[..bytesInBuffer];
      forall k | 0 <= k < |piece| {
        buffer[bytesInBuffer + k] := piece[k];
      }
      assert buffer[..bytesInBuffer] == before;
      assert buffer[..bytesInBuffer + |piece|] == before + piece;
      assert (content + piece)[bytesWritten..] == content[bytesWritten..] + piece;
      assert (content + piece)[..bytesWritten] == content[..bytesWritten];
      content := content + piece;
    }

    /** Takes data; the size is what was written or attempted so far. */
    method Write(data: Bytes) returns (ok: bool, size: nat)
      requires Valid() && |content| + |data| <= room
      modifies this`bytesWritten, this`bytesInBuffer, this`content, buffer, output, output.flash
      ensures ok ==> Valid() && content == old(content) + data
      ensures !ok ==> bytesInBuffer == 0
      ensures size == bytesWritten <= room
      ensures SameOutside(old(output.flash.bytes), output.flash.bytes, begin, begin + room)
      ensures output.flash.reliable ==> ok
    {
      hide Holding, SameOutside;
      RoomWithin();
      OutsideStart(output.flash.bytes, begin, begin + room);
      var rest := data;
      while rest != []
        invariant Valid() && bytesInBuffer < writeSize
        invariant content + rest == old(content) + data && |content| + |rest| <= room
        invariant SameOutside(old(output.flash.bytes), output.flash.bytes, begin, begin + room)
        decreases |rest|
      {
        var toCopy := if writeSize - bytesInBuffer < |rest| then writeSize - bytesInBuffer else |rest|;
        ghost var before := output.flash.bytes;
        assert content + rest == content + rest[..toCopy] + rest[toCopy..];
        CopyIn(rest[..toCopy]);
        ok := AddBytesToBuffer(toCopy);
        OutsideTransitive(old(output.flash.bytes), before, output.flash.bytes, begin, begin + room);
        if !ok {
          return ok, bytesWritten;
        }
        rest := rest[toCopy..];
      }
      RoomWithin();
      return true, bytesWritten;
    }

    /** Takes bytes from flash, from outside of the region written to. */
    method WriteFrom(from: nat, length: nat) returns (ok: bool, size: nat)
      requires Valid() && |content| + length <= room
      requires from + length <= begin || begin + room <= from
      modifies this`bytesWritten, this`bytesInBuffer, this`content, buffer, output, output.flash
      ensures ok ==> Valid()
      ensures ok && 0 < length ==>
        && from + length <= |old(output.flash.bytes)|
        && content == old(content) + old(output.flash.bytes)[from..from + length]
      ensures length == 0 ==> ok && content == old(content)
      ensures !ok ==> bytesInBuffer == 0 || Valid()
      ensures size == bytesWritten <= room
      ensures SameOutside(old(output.flash.bytes), output.flash.bytes, begin, begin + room)
      ensures output.flash.reliable && from + length <= |old(output.flash.bytes)| ==> ok
    {
      hide Holding, SameOutside, Taken;
      RoomWithin();
      OutsideStart(output.flash.bytes, begin, begin + room);
      ghost var source, given := output.flash.bytes, content;
      var taken := 0;
      NothingTaken(source, from, given);
      while taken < length
        invariant taken <= length && Valid() && |content| + (length - taken) <= room
        invariant Taken(source, from, taken, given, content)
        invariant SameOutside(source, output.flash.bytes, begin, begin + room)
      {
        var toRead := if writeSize - bytesInBuffer < length - taken then writeSize - bytesInBuffer else length - taken;
        RoomWithin();
        ok := TakePiece(source, given, from, taken, toRead);
        if !ok {
          return ok, bytesWritten;
        }
        taken := taken + toRead;
      }
      RoomWithin();
      AllTaken(source, from, taken, given, content);
      return true, bytesWritten;
    }

    method TakePiece(ghost source: Bytes, ghost given: Bytes, from: nat, taken: nat, toRead: nat) returns (ok: bool)
      requires Valid() && 0 < toRead <= writeSize - bytesInBuffer && |content| + toRead <= room
      requires from + taken + toRead <= begin || begin + room <= from
      requires Taken(source, from, taken, given, content)
      requires SameOutside(source, output.flash.bytes, begin, begin + room)
      modifies this`bytesWritten, this`bytesInBuffer, this`content, buffer, output, output.flash
      ensures ok ==> Valid() && |content| == |old(content)| + toRead && Taken(source, from, taken + toRead, given, content)
      ensures !ok ==> (bytesInBuffer == 0 || Valid()) && bytesWritten <= room
      ensures SameOutside(source, output.flash.bytes, begin, begin + room)
      ensures output.flash.reliable && from + taken + toRead <= |source| ==> ok
    {
      hide Holding, SameOutside, Taken, IsMultiple;
      RoomWithin();
      OutsideSize(source, output.flash.bytes, begin, begin + room);
      var piece;
      ok, piece := output.flash.Read(from + taken, toRead);
      if !ok {
        return;
      }
      OutsideSlice(source, output.flash.bytes, begin, begin + room, from + taken, toRead);
      OnePieceMore(source, from, taken, toRead, given, content);
      ghost var before := output.flash.bytes;
      CopyIn(piece);
      ok := AddBytesToBuffer(toRead);
      OutsideTransitive(source, before, output.flash.bytes, begin, begin + room);
    }

    /** Fills the buffer up with zeros to a multiple of the alignment. */
    method FillWithZeros(n: nat)
      requires Valid() && bytesInBuffer != 0 && n == AlignUp(bytesInBuffer, alignment)
      modifies this`content, buffer
      ensures n <= writeSize && Holding(n) && content == Padded(old(content), alignment)
    {
      hide IsMultiple, BlankBetween, Zeros, AlignUp;
      AlignUpBehind(bytesWritten, bytesInBuffer, alignment);
      AlignUpIsLeast(|content|, alignment, room);
      AlignUpIsLeast(bytesInBuffer, alignment, writeSize);
      ghost var before, zeros := buffer[..bytesInBuffer], Zeros(n - bytesInBuffer);
      forall k | bytesInBuffer <= k < n {
        buffer[k] := 0;
      }
      ZerosAre0(n - bytesInBuffer);
      assert buffer[..n] == before + zeros;
      WithZeros(content, zeros, bytesWritten);
      content := content + zeros;
    }

    /** Writes out the buffer, with zeros behind what it holds. */
    method WriteRemaining() returns (ok: bool)
      requires Valid() && bytesInBuffer != 0
      modifies this`bytesWritten, this`bytesInBuffer, this`content, output, output.flash, buffer
      ensures bytesInBuffer == 0 && bytesWritten == AlignUp(|old(content)|, alignment) <= room
      ensures ok ==> Holding(0) && content == Padded(old(content), alignment)
      ensures SameOutside(old(output.flash.bytes), output.flash.bytes, begin, begin + room)
      ensures output.flash.reliable ==> ok
    {
      hide Padded, Holding, IsMultiple;
      RoomWithin();
      AlignUpBehind(bytesWritten, bytesInBuffer, alignment);
      var remaining := AlignUp(bytesInBuffer, alignment);
      AlignUpIsMultiple(bytesInBuffer, alignment);
      FillWithZeros(remaining);
      ok := WriteOut(remaining);
    }

    /**
     Pads what is left in the buffer and writes it out. Everything given to the writer is in flash then, with
     zeros up to the alignment.
     */
    method Flush() returns (ok: bool, size: nat)
      requires Valid()
      modifies this, output, output.flash, buffer
      ensures size == AlignUp(|old(content)|, alignment) <= old(room)
      ensures old(begin) + size <= |output.flash.bytes|
      ensures ok ==> output.flash.bytes[old(begin)..old(begin) + size] == Padded(old(content), alignment)
      ensures ok ==> Valid() && content == [] && begin == old(begin) + size && room == old(room) - size
      ensures bytesInBuffer == bytesWritten == 0
      ensures SameOutside(old(output.flash.bytes), output.flash.bytes, old(begin), old(begin + room))
      ensures output.flash.reliable ==> ok
    {
      hide IsMultiple, Padded, BlankBetween;
      ok := true;
      OutsideStart(output.flash.bytes, begin, begin + room);
      if bytesInBuffer != 0 {
        ok := WriteRemaining();
      } else {
        AlignUpBehind(bytesWritten, 0, alignment);
        NothingToPad(content, alignment);
      }
      size := bytesWritten;
      assert ok ==> content[..size] == content;
      if ok {
        StartOver();
      } else {
        bytesWritten := 0;
      }
    }

    /** Everything is written out; the region that is left is that of a new writer. */
    method StartOver()
      requires Holding(0) && bytesInBuffer == 0
      modifies this`bytesWritten, this`begin, this`room, this`content
      ensures Valid() && content == [] && bytesWritten == 0
      ensures begin == old(begin) + old(bytesWritten) && room == old(room) - old(bytesWritten)
    {
      hide IsMultiple;
      SumOfMultiples(begin, bytesWritten, alignment);
      MultipleLess(room, bytesWritten, alignment);
      MultipleOfItself(alignment);
      begin, room, content := begin + bytesWritten, room - bytesWritten, [];
      bytesWritten := 0;
      assert buffer[..0] == content[0..];
    }

    /** The destructor: what an aborted write left in the buffer is still written. */
    method Destroy()
      requires bytesInBuffer == 0 || Valid()
      requires begin + room <= |output.flash.bytes|
      modifies this, output, output.flash, buffer
      ensures SameOutside(old(output.flash.bytes), output.flash.bytes, old(begin), old(begin + room))
    {
      if bytesInBuffer != 0 {
        var ok, size := Flush();
      }
    }

    lemma RoomWithin()
      requires Valid()
      ensures Configured() && bytesWritten <= room && begin + room <= |output.flash.bytes|
      ensures bytesWritten + bytesInBuffer == |content| <= room && IsMultiple(bytesWritten, alignment)
    {
    }
  }

  datatype AlignedWriteStatus = Done | BufferTooSmall | Failed

  /** Writes chunks one behind the other to an erased region, padded to the alignment. */
  method AlignedWrite(bufferSize: nat, output: Output, alignment: nat, chunks: seq<Bytes>, ghost room: nat)
    returns (status: AlignedWriteStatus, size: nat)
    requires 0 < alignment && 0 < output.flash.alignment && IsMultiple(alignment, output.flash.alignment)
    requires IsMultiple(output.address, alignment) && IsMultiple(room, alignment)
    requires output.address + room <= |output.flash.bytes|
    requires BlankBetween(output.flash.bytes, output.address, output.address + room)
    requires |Concatenated(chunks)| <= room
    modifies output, output.flash
    ensures status == BufferTooSmall <==> bufferSize < alignment
    ensures status == Done ==>
      var content := Concatenated(chunks);
      && size == AlignUp(|content|, alignment) && old(output.address) + size <= |output.flash.bytes|
      && output.flash.bytes[old(output.address)..old(output.address) + size] == Padded(content, alignment)
    ensures SameOutside(old(output.flash.bytes), output.flash.bytes, old(output.address), old(output.address) + room)
    ensures output.flash.reliable ==> status != Failed
  {
    hide IsMultiple, BlankBetween, SameOutside, Padded, AlignedWriter.Holding;
    if bufferSize < alignment {
      OutsideStart(output.flash.bytes, output.address, output.address + room);
      return BufferTooSmall, 0;
    }
    ghost var before, at := output.flash.bytes, output.address;
    var writer := new AlignedWriter(bufferSize, alignment, output, room);
    OutsideStart(before, at, at + room);
    var ok;
    for i := 0 to |chunks|
      invariant writer.Valid() && writer.content == Concatenated(chunks[..i]) && writer.begin == at && writer.room == room
      invariant SameOutside(before, output.flash.bytes, at, at + room)
    {
      PrefixFits(chunks, i);
      assert chunks[..i + 1][..i] == chunks[..i];
      ghost var middle := output.flash.bytes;
      ok, size := writer.Write(chunks[i]);
      OutsideTransitive(before, middle, output.flash.bytes, at, at + room);
      if !ok {
        return Failed, size;
      }
    }
    assert chunks[..|chunks|] == chunks;
    ghost var middle := output.flash.bytes;
    ok, size := writer.Flush();
    OutsideTransitive(before, middle, output.flash.bytes, at, at + room);
    status := if ok then Done else Failed;
  }

  /** Writing the rest of some content right behind its front gives the content. */
  lemma SplicedBehind(b: Bytes, begin: nat, front: nat, content: Bytes)
    requires front <= |content| && begin + |content| <= |b| && b[begin..begin + front] == content[..front]
    ensures Spliced(b, begin + front, content[front..])[begin..begin + |content|] == content
  {
    assert content == content[..front] + content[front..];
    assert Spliced(b, begin + front, content[front..])[begin..begin + |content|] == b[begin..begin + front] + content[front..];
  }

  lemma WithZeros(content: Bytes, zeros: Bytes, n: nat)
    requires n <= |content|
    ensures (content + zeros)[n..] == content[n..] + zeros && (content + zeros)[..n] == content[..n]
  {
  }

  lemma ZerosAre0(n: nat)
    ensures forall k :: 0 <= k < n ==> Zeros(n)[k] == 0
  {
    if n != 0 {
      ZerosAre0(n - 1);
    }
  }

  lemma NothingToPad(content: Bytes, alignment: nat)
    requires 0 < alignment && AlignUp(|content|, alignment) == |content|
    ensures Padded(content, alignment) == content
  {
  }

  /** So many bytes from flash were put behind what was given before. */
  ghost predicate Taken(source: Bytes, from: nat, taken: nat, given: Bytes, content: Bytes) {
    && (0 < taken ==> from + taken <= |source|)
    && content == given + if taken == 0 then [] else source[from..from + taken]
  }

  lemma OnePieceMore(source: Bytes, from: nat, taken: nat, more: nat, given: Bytes, content: Bytes)
    requires Taken(source, from, taken, given, content) && from + taken + more <= |source|
    ensures Taken(source, from, taken + more, given, content + source[from + taken..from + taken + more])
  {
    var piece := source[from + taken..from + taken + more];
    assert source[from..from + taken] + piece == source[from..from + taken + more];
    assert given + source[from..from + taken] + piece == given + (source[from..from + taken] + piece);
  }

  lemma NothingTaken(source: Bytes, from: nat, given: Bytes)
    ensures Taken(source, from, 0, given, given)
  {
  }

  lemma AllTaken(source: Bytes, from: nat, taken: nat, given: Bytes, content: Bytes)
    requires Taken(source, from, taken, given, content)
    ensures 0 < taken ==> from + taken <= |source| && content == given + source[from..from + taken]
    ensures taken == 0 ==> content == given
  {
  }
}
