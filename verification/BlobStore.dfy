/** Blobs: a write buffer in front of a flash partition, pw_blob_store/blob_store.cc. */
module BlobStore {
  import opened Varint
  import opened Stream
  import opened Division
  import opened FlashMemory
  import Crc32

  datatype Option<+T> = None | Some(value: T)

  datatype Status =
    | Ok | DataLoss | OutOfRange | ResourceExhausted | InvalidArgument | FailedPrecondition | Unavailable | NotFound

  datatype Metadata = Metadata(size: nat, checksum: Uint32)

  class BlobStore {
    const flash: Flash
    const hasChecksum: bool
    const writeBuffer: array<Byte>
    const flashWriteSize: nat
    var initialized: bool
    var validData: bool
    var flashErased: bool
    var writerOpen: bool
    var readersOpen: nat
    var writeAddress: nat
    var flashAddress: nat
    var checksum: bv32
    // What is kept in the key-value store about the blob.
    var metadata: Option<Metadata>
    // The bytes of the blob: all that was accepted since the writer was opened.
    ghost var data: Bytes

    /** What Init checks of its configuration. */
    ghost predicate Configured()
      reads this, flash
    {
      && 0 < flashWriteSize && IsMultiple(flashWriteSize, flash.alignment)
      && IsMultiple(|flash.bytes|, flashWriteSize)
      && (writeBuffer.Length != 0 ==> flashWriteSize <= writeBuffer.Length)
    }

    predicate ValidToWrite()
      reads this
    {
      validData || flashAddress == 0
    }

    predicate HasData()
      reads this
    {
      validData && 0 < flashAddress
    }

    /** What is in flash is the front of the blob, and the checksum is of just that. */
    ghost predicate Stored()
      reads this, flash
    {
      && flashAddress <= |data| && flashAddress <= |flash.bytes|
      && flash.bytes[..flashAddress] == data[..flashAddress]
      && (hasChecksum ==> checksum == Crc32.Fold(Crc32.INITIAL_STATE, data[..flashAddress]))
    }

    /** What is in the write buffer is the rest of the blob. */
    ghost predicate Buffered()
      reads this, flash, writeBuffer
    {
      && flashAddress <= writeAddress == |data| <= |flash.bytes|
      && writeAddress - flashAddress <= writeBuffer.Length
      && writeBuffer[..writeAddress - flashAddress] == data[flashAddress..]
    }

    ghost predicate Writing()
      reads this, flash, writeBuffer
    {
      && Configured() && Stored() && Buffered() && IsMultiple(flashAddress, flashWriteSize)
      && (0 < flashAddress || flashErased ==> Blank(flash.bytes, flashAddress))
    }

    ghost predicate Valid()
      reads this, flash, writeBuffer
    {
      && Configured()
      && (flashErased ==> validData && flashAddress == 0 && Blank(flash.bytes, 0))
      && (writerOpen ==> readersOpen == 0)
      && (0 < readersOpen ==> HasData())
      && (writerOpen && ValidToWrite() ==> Writing())
      && (!writerOpen && HasData() ==> Stored() && |data| == flashAddress && metadata == Some(MetadataOf(data)))
    }

    ghost function MetadataOf(blob: Bytes): Metadata {
      Metadata(|blob|, if hasChecksum then Crc32.Value(blob) else 0)
    }

    constructor (flash: Flash, hasChecksum: bool, writeBuffer: array<Byte>, flashWriteSize: nat, metadata: Option<Metadata>)
      requires 0 < flashWriteSize && IsMultiple(flashWriteSize, flash.alignment)
      requires IsMultiple(|flash.bytes|, flashWriteSize)
      requires writeBuffer.Length != 0 ==> flashWriteSize <= writeBuffer.Length
      ensures Valid() && !initialized && !writerOpen && readersOpen == 0 && !validData && !flashErased
      ensures this.flash == flash && this.hasChecksum == hasChecksum && this.writeBuffer == writeBuffer
      ensures this.flashWriteSize == flashWriteSize && this.metadata == metadata
    {
      this.flash := flash;
      this.hasChecksum := hasChecksum;
      this.writeBuffer := writeBuffer;
      this.flashWriteSize := flashWriteSize;
      this.metadata := metadata;
      initialized, validData, flashErased, writerOpen := false, false, false, false;
      readersOpen, writeAddress, flashAddress := 0, 0, 0;
      checksum := Crc32.INITIAL_STATE;
      data := [];
    }

    /** Nothing is left of the blob; erased flash is a blob of no bytes. Its metadata stay if they cannot be deleted. */
    method Invalidate() returns (deleted: bool)
      requires Configured()
      modifies this`validData, this`checksum, this`writeAddress, this`flashAddress, this`metadata, this`data
      ensures validData == flashErased && writeAddress == flashAddress == 0 && data == []
      ensures checksum == Crc32.INITIAL_STATE && metadata == if deleted then None else old(metadata)
      ensures flash.reliable ==> deleted
    {
      validData := flashErased;
      checksum := Crc32.INITIAL_STATE;
      writeAddress, flashAddress := 0, 0;
      data := [];
      deleted := *;
      if flash.reliable {
        deleted := true;
      }
      if deleted {
        metadata := None;
      }
    }

    method OpenWrite() returns (status: Status)
      requires Valid()
      modifies this
      ensures Valid()
      ensures initialized == old(initialized)
      ensures status ==
        if !initialized then FailedPrecondition
        else if old(writerOpen) || old(readersOpen) != 0 then Unavailable
        else Ok
      ensures status == Ok ==> writerOpen && ValidToWrite() && data == []
      ensures status == Ok ==> writeAddress == flashAddress && (metadata == None || metadata == old(metadata))
      ensures status == Ok && flash.reliable ==> metadata == None
      ensures status != Ok ==> unchanged(this)
    {
      if !initialized {
        return FailedPrecondition;
      }
      if writerOpen || readersOpen != 0 {
        return Unavailable;
      }
      writerOpen := true;
      var deleted := Invalidate();
      return Ok;
    }

    method OpenRead() returns (status: Status)
      requires Valid()
      modifies this`readersOpen
      ensures Valid()
      ensures status ==
        if !initialized then FailedPrecondition
        else if writerOpen then Unavailable
        else if !HasData() then FailedPrecondition
        else Ok
      ensures readersOpen == old(readersOpen) + if status == Ok then 1 else 0
    {
      if !initialized {
        return FailedPrecondition;
      }
      if writerOpen {
        return Unavailable;
      }
      if !HasData() {
        return FailedPrecondition;
      }
      readersOpen := readersOpen + 1;
      return Ok;
    }

    method CloseRead()
      requires Valid() && 0 < readersOpen
      modifies this`readersOpen
      ensures Valid() && readersOpen == old(readersOpen) - 1
    {
      readersOpen := readersOpen - 1;
    }

    /** Reads from the closed blob, as an open reader does. */
    method Read(offset: nat, size: nat) returns (status: Status, bytes: Bytes)
      requires Valid() && !writerOpen
      ensures status ==
        if !HasData() then FailedPrecondition
        else if |data| <= offset then OutOfRange
        else Ok
      ensures status == Ok ==> bytes == Slice(data, offset, size)
    {
      bytes := [];
      if !HasData() {
        return FailedPrecondition, bytes;
      }
      if offset >= flashAddress {
        return OutOfRange, bytes;
      }
      var available := flashAddress - offset;
      var readSize := if size < available then size else available;
      bytes := flash.bytes[offset..offset + readSize];
      assert bytes == flash.bytes[..flashAddress][offset..offset + readSize];
      assert data[..flashAddress] == data;
      assert bytes == data[offset..offset + readSize];
      assert readSize == available ==> bytes == data[offset..];
      return Ok, bytes;
    }

    // ---------------------------------------------------------------- writing

    method Erase() returns (status: Status)
      requires Valid() && writerOpen && flashAddress == 0
      modifies this`validData, this`flashErased, flash
      ensures Valid() && status in {Ok, DataLoss} && |flash.bytes| == |old(flash.bytes)|
      ensures status == Ok ==> flashErased && validData && Blank(flash.bytes, 0)
      ensures status != Ok ==> !flashErased
      ensures flash.reliable ==> status == Ok
    {
      if flashErased {
        return Ok;
      }
      var ok := flash.Erase(0, |flash.bytes|);
      if !ok {
        return DataLoss;
      }
      flashErased := true;
      validData := true;
      return Ok;
    }

    method EraseIfNeeded() returns (status: Status)
      requires Valid() && writerOpen && ValidToWrite()
      modifies this`validData, this`flashErased, flash
      ensures Valid() && status in {Ok, DataLoss} && |flash.bytes| == |old(flash.bytes)|
      ensures status == Ok ==> validData && Blank(flash.bytes, flashAddress)
      ensures status != Ok ==> !flashErased
      ensures flash.reliable ==> status == Ok
    {
      if flashAddress == 0 {
        status := Erase();
        return;
      }
      return Ok;
    }

    /** Writes the next bytes of the blob to flash; of a padded chunk, only the first ones count. */
    method CommitToFlash(source: Bytes, dataBytes: nat) returns (ok: bool)
      requires Configured() && Stored() && validData && IsMultiple(flashAddress, flashWriteSize)
      requires IsMultiple(|source|, flashWriteSize) && flashAddress + |source| <= |flash.bytes| && Blank(flash.bytes, flashAddress)
      requires dataBytes <= |source| && flashAddress + dataBytes <= |data|
      requires source[..dataBytes] == data[flashAddress..flashAddress + dataBytes]
      modifies this`flashErased, this`flashAddress, this`checksum, this`validData, flash
      ensures !flashErased && flashAddress == old(flashAddress) + dataBytes && |flash.bytes| == |old(flash.bytes)|
      ensures validData == ok
      ensures ok || source == [] ==> Stored()
      ensures ok ==> Blank(flash.bytes, old(flashAddress) + |source|)
      ensures flash.reliable ==> ok
    {
      hide Crc32.Fold, IsMultiple, SameOutside, Spliced, Blank, BlankBetween;
      flashErased := false;
      MultipleOfMultiple(flashAddress, flashWriteSize, flash.alignment);
      MultipleOfMultiple(|source|, flashWriteSize, flash.alignment);
      BlankAhead(flash.bytes, flashAddress, |source|);
      SplicedFront(flash.bytes, flashAddress, source, dataBytes, data);
      SplicedBlank(flash.bytes, flashAddress, source);
      ok := flash.Write(flashAddress, source);
      if hasChecksum {
        checksum := Crc32.InternalCrc32(source[..dataBytes], checksum);
        Crc32.FoldConcat(Crc32.INITIAL_STATE, data[..flashAddress], source[..dataBytes]);
      }
      flashAddress := flashAddress + dataBytes;
      if !ok {
        validData := false;
      }
    }

    lemma Bounds()
      requires Valid() && writerOpen && ValidToWrite()
      ensures flashAddress <= writeAddress == |data| <= |flash.bytes|
      ensures writeAddress - flashAddress <= writeBuffer.Length
    {
    }

    lemma Opened()
      requires Valid() && writerOpen && ValidToWrite()
      ensures Writing() && readersOpen == 0 && (flashErased ==> validData && flashAddress == 0)
    {
    }

    lemma WritingIsValid()
      requires Writing() && writerOpen && readersOpen == 0 && (flashErased ==> validData && flashAddress == 0)
      ensures Valid()
    {
    }

    lemma FailedIsValid()
      requires Configured() && writerOpen && readersOpen == 0 && !flashErased && !validData && 0 < flashAddress
      ensures Valid()
    {
    }

    lemma WritingParts()
      requires Writing()
      ensures Configured() && flashAddress <= writeAddress == |data| <= |flash.bytes|
      ensures writeAddress - flashAddress <= writeBuffer.Length
    {
    }

    /** Everything is in flash, and nothing is held back. */
    lemma EmptyBuffer()
      requires Configured() && Stored() && flashAddress == writeAddress == |data| && IsMultiple(flashAddress, flashWriteSize)
      requires Blank(flash.bytes, flashAddress)
      ensures Writing()
    {
      assert writeBuffer[..0] == [] == data[flashAddress..];
    }

    /** Copies bytes behind those in the write buffer. */
    method FillBuffer(more: Bytes)
      requires Writing()
      requires writeAddress - flashAddress + |more| <= writeBuffer.Length && writeAddress + |more| <= |flash.bytes|
      modifies this`writeAddress, this`data, writeBuffer
      ensures Writing() && data == old(data) + more && writeAddress == old(writeAddress) + |more|
    {
      hide Crc32.Fold, IsMultiple;
      var used := writeAddress - flashAddress;
      ghost var before := writeBuffer[..used];
      forall k | 0 <= k < |more| {
        writeBuffer[used + k] := more[k];
      }
      assert writeBuffer[..used] == before;
      assert writeBuffer[used..used + |more|] == more;
      assert writeBuffer[..used + |more|] == writeBuffer[..used] + writeBuffer[used..used + |more|];
      assert (data + more)[flashAddress..] == data[flashAddress..] + more;
      assert (data + more)[..flashAddress] == data[..flashAddress];
      writeAddress := writeAddress + |more|;
      data := data + more;
    }

    /** Writes whole chunks past an empty write buffer. */
    method CommitChunks(more: Bytes) returns (ok: bool)
      requires Writing() && validData && Blank(flash.bytes, flashAddress) && writeAddress == flashAddress
      requires more != [] && IsMultiple(|more|, flashWriteSize) && writeAddress + |more| <= |flash.bytes|
      modifies this`flashErased, this`flashAddress, this`writeAddress, this`checksum, this`validData, this`data, flash
      ensures Configured() && validData == ok && !flashErased && 0 < flashAddress == writeAddress
      ensures writeAddress == old(writeAddress) + |more|
      ensures |flash.bytes| == |old(flash.bytes)|
      ensures ok ==> Writing() && Blank(flash.bytes, flashAddress)
      ensures data == old(data) + more
      ensures flash.reliable ==> ok
    {
      hide Crc32.Fold, IsMultiple;
      assert (data + more)[..flashAddress] == data[..flashAddress];
      assert (data + more)[flashAddress..flashAddress + |more|] == more;
      SumOfMultiples(flashAddress, |more|, flashWriteSize);
      writeAddress := writeAddress + |more|;
      data := data + more;
      assert more[..|more|] == more;
      ok := CommitToFlash(more, |more|);
      assert writeBuffer[..0] == [] == data[flashAddress..];
    }

    /** Commits the first bytes of the write buffer; what is behind them is not moved yet. */
    method CommitBuffer(n: nat) returns (ok: bool)
      requires Writing() && validData && Blank(flash.bytes, flashAddress)
      requires n <= writeAddress - flashAddress && IsMultiple(n, flashWriteSize)
      modifies this`flashErased, this`flashAddress, this`checksum, this`validData, flash
      ensures Configured() && validData == ok && !flashErased && flashAddress == old(flashAddress) + n
      ensures |flash.bytes| == |old(flash.bytes)|
      ensures ok || n == 0 ==> Stored() && IsMultiple(flashAddress, flashWriteSize)
      ensures n == 0 ==> Buffered()
      ensures ok ==> Blank(flash.bytes, flashAddress)
      ensures flash.reliable ==> ok
    {
      hide Crc32.Fold, IsMultiple;
      ghost var used := writeAddress - flashAddress;
      var source := writeBuffer[..n];
      assert source == writeBuffer[..used][..n] == data[flashAddress..][..n] == data[flashAddress..flashAddress + n];
      SumOfMultiples(flashAddress, n, flashWriteSize);
      ghost var before := flash.bytes;
      ok := CommitToFlash(source, n);
    }

    /**
     Adds bytes to the blob. A writer of this kind holds back less than one chunk: it fills up the one that is
     begun, writes whole ones straight through, and keeps the rest.
     */
    method Write(more: Bytes) returns (status: Status)
      requires Valid() && writerOpen && (ValidToWrite() ==> writeAddress - flashAddress < flashWriteSize)
      modifies this, writeBuffer, flash
      ensures Valid() && writerOpen && initialized == old(initialized)
      ensures ValidToWrite() ==> writeAddress - flashAddress < flashWriteSize
      ensures status == Ok ==> data == old(data) + more && old(ValidToWrite()) && ValidToWrite()
      ensures status in {OutOfRange, ResourceExhausted, InvalidArgument} ==> unchanged(this) && unchanged(flash)
      ensures status == OutOfRange <==> old(ValidToWrite()) && more != [] && old(writeAddress) == |old(flash.bytes)|
      ensures status == ResourceExhausted <==>
        old(ValidToWrite()) && more != [] && 0 < |old(flash.bytes)| - old(writeAddress) < |more|
      ensures status == InvalidArgument <==>
        && old(ValidToWrite()) && more != [] && old(writeAddress) + |more| <= |old(flash.bytes)|
        && old(writeAddress) != |old(flash.bytes)| && writeBuffer.Length == 0 && Remainder(|more|, flashWriteSize) != 0
      ensures status in {Ok, DataLoss, OutOfRange, ResourceExhausted, InvalidArgument}
      ensures flash.reliable && old(ValidToWrite()) ==> status != DataLoss
      ensures |flash.bytes| == |old(flash.bytes)| && metadata == old(metadata)
    {
      hide Stored, Buffered, Blank, IsMultiple, Remainder;
      if !ValidToWrite() {
        return DataLoss;
      }
      Bounds();
      if |more| == 0 {
        assert data + more == data;
        return Ok;
      }
      if |flash.bytes| - writeAddress == 0 {
        return OutOfRange;
      }
      if |flash.bytes| - writeAddress < |more| {
        return ResourceExhausted;
      }
      if writeBuffer.Length == 0 && Remainder(|more|, flashWriteSize) != 0 {
        return InvalidArgument;
      }
      status := EraseIfNeeded();
      if status != Ok {
        return DataLoss;
      }
      MultipleHasNoRemainder(|more|, flashWriteSize);
      Opened();
      var rest := more;
      if flashAddress != writeAddress {
        var begun;
        status, rest, begun := FillChunk(more);
        if status != Ok || begun {
          return;
        }
      }
      ghost var middle := data;
      assert middle + rest == old(data) + more;
      status := WriteAligned(rest);
    }

    /** The first step of a write: fills up the chunk that was begun, and commits it unless it is still only begun. */
    method FillChunk(more: Bytes) returns (status: Status, rest: Bytes, begun: bool)
      requires Writing() && writerOpen && readersOpen == 0 && validData && Blank(flash.bytes, flashAddress)
      requires flashErased ==> flashAddress == 0
      requires flashAddress != writeAddress && writeAddress - flashAddress < flashWriteSize
      requires writeAddress + |more| <= |flash.bytes|
      modifies this`flashErased, this`flashAddress, this`writeAddress, this`checksum, this`validData, this`data, writeBuffer, flash
      ensures Valid() && status in {Ok, DataLoss} && |flash.bytes| == |old(flash.bytes)|
      ensures ValidToWrite() ==> writeAddress - flashAddress < flashWriteSize
      ensures status == Ok ==> data + rest == old(data) + more && |rest| <= |more| && Writing() && ValidToWrite()
      ensures status == Ok && begun ==> rest == []
      ensures status == Ok && !begun ==>
        validData && !flashErased && writeAddress == flashAddress && Blank(flash.bytes, flashAddress)
        && writeAddress + |rest| == old(writeAddress) + |more|
      ensures flash.reliable ==> status == Ok
    {
      hide Valid, Stored, Buffered, Blank, IsMultiple;
      WritingParts();
      var bytesInBuffer := writeAddress - flashAddress;
      var bufferRemaining := flashWriteSize - bytesInBuffer;
      var addBytes := if bufferRemaining < |more| then bufferRemaining else |more|;
      FillBuffer(more[..addBytes]);
      rest := more[addBytes..];
      assert more == more[..addBytes] + rest;
      if bytesInBuffer + addBytes != flashWriteSize {
        WritingIsValid();
        return Ok, rest, true;
      }
      MultipleOfItself(flashWriteSize);
      var ok := CommitBuffer(flashWriteSize);
      if !ok {
        FailedIsValid();
        return DataLoss, rest, false;
      }
      EmptyBuffer();
      WritingIsValid();
      return Ok, rest, false;
    }

    /** The second and third step of a write: whole chunks, and the rest. */
    method WriteAligned(more: Bytes) returns (status: Status)
      requires Writing() && writerOpen && readersOpen == 0 && validData && Blank(flash.bytes, flashAddress)
      requires writeAddress == flashAddress && writeAddress + |more| <= |flash.bytes|
      requires writeBuffer.Length == 0 ==> IsMultiple(|more|, flashWriteSize)
      requires flashErased ==> flashAddress == 0
      modifies this`flashErased, this`flashAddress, this`writeAddress, this`checksum, this`validData, this`data, writeBuffer, flash
      ensures Valid() && status in {Ok, DataLoss}
      ensures ValidToWrite() ==> writeAddress - flashAddress < flashWriteSize
      ensures status == Ok ==> data == old(data) + more && ValidToWrite()
      ensures flash.reliable ==> status == Ok
      ensures |flash.bytes| == |old(flash.bytes)|
    {
      hide Valid, Writing, IsMultiple, Blank, Remainder, CutDown;
      WritingParts();
      CutToMultiple(|more|, flashWriteSize);
      MultipleHasNoRemainder(|more|, flashWriteSize);
      var final := Remainder(|more|, flashWriteSize);
      var whole, rest := more[..|more| - final], more[|more| - final..];
      assert more == whole + rest;
      ghost var before := data;
      if |more| >= flashWriteSize {
        var ok := CommitChunks(whole);
        if !ok {
          FailedIsValid();
          return DataLoss;
        }
      } else {
        assert before + whole == before;
      }
      ghost var middle := data;
      if final > 0 {
        FillBuffer(rest);
      } else {
        assert middle + rest == middle;
      }
      assert before + whole + rest == before + more;
      WritingIsValid();
      return Ok;
    }

    /** Adds bytes to the write buffer only; a writer of this kind is flushed by its user. */
    method AddToWriteBuffer(more: Bytes) returns (status: Status)
      requires Valid() && writerOpen
      modifies this`writeAddress, this`data, writeBuffer
      ensures Valid()
      ensures status ==
        if !ValidToWrite() then DataLoss
        else if old(writeAddress) == |flash.bytes| then OutOfRange
        else if writeBuffer.Length - (old(writeAddress) - flashAddress) < |more| || |flash.bytes| - old(writeAddress) < |more|
        then ResourceExhausted
        else Ok
      ensures status == Ok ==> data == old(data) + more
      ensures status != Ok ==> unchanged(this)
    {
      hide Stored, Buffered, Blank, IsMultiple;
      if !ValidToWrite() {
        return DataLoss;
      }
      Bounds();
      if |flash.bytes| - writeAddress == 0 {
        return OutOfRange;
      }
      var bufferFree := writeBuffer.Length - (writeAddress - flashAddress);
      var remaining := |flash.bytes| - writeAddress;
      if (if bufferFree < remaining then bufferFree else remaining) < |more| {
        return ResourceExhausted;
      }
      FillBuffer(more);
      return Ok;
    }

    /** Commits the whole chunks in the write buffer and moves the rest to its start. */
    method Flush() returns (status: Status)
      requires Valid() && writerOpen
      modifies this`flashErased, this`flashAddress, this`checksum, this`validData, writeBuffer, flash
      ensures Valid() && status in {Ok, DataLoss}
      ensures status == Ok ==> old(ValidToWrite()) && ValidToWrite() && writeAddress - flashAddress < flashWriteSize
      ensures status == Ok && data != [] ==> validData && Blank(flash.bytes, flashAddress)
      ensures status != Ok || data != [] ==> !flashErased
      ensures flash.reliable && old(ValidToWrite()) ==> status == Ok
      ensures |flash.bytes| == |old(flash.bytes)|
    {
      hide Valid, Writing, Stored, Buffered, Blank, IsMultiple, CutDown, Remainder;
      ErasedIsEmpty();
      if !ValidToWrite() {
        return DataLoss;
      }
      Opened();
      WritingParts();
      if writeAddress == flashAddress {
        NoneHeldBack();
        return Ok;
      }
      status := EraseIfNeeded();
      if status != Ok {
        return DataLoss;
      }
      Opened();
      WritingParts();
      status := FlushBuffered();
    }

    method FlushBuffered() returns (status: Status)
      requires Writing() && writerOpen && readersOpen == 0 && validData && Blank(flash.bytes, flashAddress)
      modifies this`flashErased, this`flashAddress, this`checksum, this`validData, writeBuffer, flash
      ensures Valid() && !flashErased && status in {Ok, DataLoss}
      ensures status == Ok ==> validData && Blank(flash.bytes, flashAddress) && writeAddress - flashAddress < flashWriteSize
      ensures flash.reliable ==> status == Ok
      ensures |flash.bytes| == |old(flash.bytes)|
    {
      hide Valid, Writing, Stored, Buffered, Blank, IsMultiple, CutDown, Remainder;
      WritingParts();
      ghost var used, content := writeAddress - flashAddress, writeBuffer[..writeAddress - flashAddress];
      CutToMultiple(used, flashWriteSize);
      var writeSize := CutDown(writeAddress - flashAddress, flashWriteSize);
      HeldBack();
      var ok := CommitBuffer(writeSize);
      if !ok {
        if flashAddress == 0 {
          AllHeldBack();
          WritingIsValid();
        } else {
          FailedIsValid();
        }
        return DataLoss;
      }
      assert data[flashAddress - writeSize..][writeSize..] == data[flashAddress..];
      MoveRest(writeSize, content);
      WritingIsValid();
      return Ok;
    }

    lemma ErasedIsEmpty()
      requires Valid()
      ensures flashErased ==> validData && flashAddress == 0
    {
    }

    lemma AllHeldBack()
      requires Configured() && Stored() && Buffered() && flashAddress == 0 && !flashErased
      ensures Writing()
    {
      MultipleOfItself(flashWriteSize);
    }

    lemma NoneHeldBack()
      requires Valid() && writerOpen && ValidToWrite() && writeAddress == flashAddress
      ensures data != [] ==> validData && Blank(flash.bytes, flashAddress)
    {
    }

    lemma HeldBack()
      requires Writing()
      ensures writeBuffer[..writeAddress - flashAddress] == data[flashAddress..]
    {
    }

    /** Moves what was not committed to the start of the write buffer. */
    method MoveRest(writeSize: nat, ghost content: Bytes)
      requires Configured() && Stored() && IsMultiple(flashAddress, flashWriteSize) && Blank(flash.bytes, flashAddress)
      requires flashAddress <= writeAddress == |data| <= |flash.bytes| && |content| == writeAddress - flashAddress + writeSize
      requires |content| <= writeBuffer.Length && content == writeBuffer[..|content|]
      requires content[writeSize..] == data[flashAddress..]
      modifies writeBuffer
      ensures Writing()
    {
      hide Stored, Blank, IsMultiple;
      var left := writeAddress - flashAddress;
      forall k | 0 <= k < left {
        writeBuffer[k] := writeBuffer[writeSize + k];
      }
      assert writeBuffer[..left] == content[writeSize..];
    }

    // ---------------------------------------------------------------- closing

    /** Pads what is left to a chunk of its own. The padding is what erased flash holds. */
    method FlushFinalPartialChunk() returns (ok: bool)
      requires Writing() && validData && Blank(flash.bytes, flashAddress)
      requires 0 < writeAddress - flashAddress < flashWriteSize
      modifies this`flashErased, this`flashAddress, this`checksum, this`validData, writeBuffer, flash
      ensures Configured() && validData == ok && !flashErased && flashAddress == writeAddress
      ensures ok ==> Stored()
      ensures flash.reliable ==> ok
    {
      hide Crc32.Fold, IsMultiple, Blank;
      var bytesInBuffer := writeAddress - flashAddress;
      NextMultiple(flashAddress, |flash.bytes|, flashWriteSize);
      MultipleOfItself(flashWriteSize);
      ghost var content := writeBuffer[..bytesInBuffer];
      forall k | bytesInBuffer <= k < writeBuffer.Length {
        writeBuffer[k] := ERASED;
      }
      assert writeBuffer[..bytesInBuffer] == content;
      var chunk := writeBuffer[..flashWriteSize];
      assert chunk[..bytesInBuffer] == content == data[flashAddress..flashAddress + bytesInBuffer];
      ok := CommitToFlash(chunk, bytesInBuffer);
    }

    /** Reads the blob back in small pieces and takes its checksum. */
    method CalculateChecksumFromFlash(size: nat) returns (ok: bool)
      modifies this`checksum
      ensures ok <==> size <= |flash.bytes|
      ensures ok ==> checksum == Crc32.Fold(Crc32.INITIAL_STATE, flash.bytes[..size])
    {
      hide Crc32.Fold;
      checksum := Crc32.INITIAL_STATE;
      var address := 0;
      FoldOfNothing();
      while address < size
        invariant address <= size && address <= |flash.bytes|
        invariant checksum == Crc32.Fold(Crc32.INITIAL_STATE, flash.bytes[..address])
      {
        var readSize := if size - address < 32 then size - address else 32;
        var piece;
        ok, piece := flash.Read(address, readSize);
        if !ok {
          return;
        }
        Crc32.FoldConcat(Crc32.INITIAL_STATE, flash.bytes[..address], piece);
        assert flash.bytes[..address] + piece == flash.bytes[..address + readSize];
        checksum := Crc32.InternalCrc32(piece, checksum);
        address := address + readSize;
      }
      ok := true;
    }

    method ValidateChecksum(size: nat, expected: Uint32) returns (status: Status)
      modifies this`checksum
      ensures status ==
        if size == 0 then Unavailable
        else if !hasChecksum then if expected == 0 then Ok else DataLoss
        else if |flash.bytes| < size then OutOfRange
        else if expected == Crc32.Value(flash.bytes[..size]) then Ok
        else DataLoss
      ensures hasChecksum && 0 < size <= |flash.bytes| ==> checksum == Crc32.Fold(Crc32.INITIAL_STATE, flash.bytes[..size])
      ensures !hasChecksum || size == 0 ==> checksum == old(checksum)
    {
      hide Crc32.Fold, Crc32.Final;
      if size == 0 {
        return Unavailable;
      }
      if !hasChecksum {
        return if expected != 0 then DataLoss else Ok;
      }
      var ok := CalculateChecksumFromFlash(size);
      if !ok {
        return OutOfRange;
      }
      return if Crc32.Final(checksum) == expected then Ok else DataLoss;
    }

    /** Checks the running checksum against the one taken from flash, which never fails, and stores the metadata, which may. */
    method WriteMetadata() returns (status: Status)
      requires Configured() && Stored() && flashAddress == |data| && data != []
      modifies this`checksum, this`metadata, this`validData, this`writeAddress, this`flashAddress, this`data
      ensures status in {Ok, DataLoss}
      ensures data == old(data) && flashAddress == old(flashAddress) && validData == old(validData) && writeAddress == old(writeAddress)
      ensures Stored()
      ensures status == Ok ==> metadata == Some(MetadataOf(data))
      ensures flash.reliable ==> status == Ok
    {
      hide Crc32.Fold, Crc32.Final, IsMultiple;
      assert data[..flashAddress] == data;
      var calculated := if hasChecksum then Crc32.Final(checksum) else 0;
      status := ValidateChecksum(flashAddress, calculated);
      assert status == Ok;
      var stored := *;
      if !stored && !flash.reliable {
        return DataLoss;
      }
      metadata := Some(Metadata(flashAddress, calculated));
    }

    method CloseWrite() returns (status: Status)
      requires Valid() && writerOpen && ValidToWrite() && data != []
      modifies this`flashErased, this`flashAddress, this`checksum, this`validData, writeBuffer, flash
      modifies this`metadata, this`writeAddress, this`data
      ensures Configured() && !flashErased && data == old(data) && status in {Ok, DataLoss}
      ensures status == Ok ==> validData && Stored() && flashAddress == |data| && metadata == Some(MetadataOf(data))
      ensures flash.reliable ==> status == Ok
    {
      hide Valid, Stored, Buffered, Blank, IsMultiple, Writing, Crc32.Fold, Crc32.Value;
      Opened();
      WritingParts();
      status := Flush();
      IsConfigured();
      if status != Ok {
        return DataLoss;
      }
      Opened();
      WritingParts();
      if writeAddress != flashAddress {
        var ok := FlushFinalPartialChunk();
        if !ok {
          return DataLoss;
        }
      }
      AllStored();
      status := WriteMetadata();
    }

    lemma IsConfigured()
      requires Valid()
      ensures Configured()
    {
    }

    lemma AllStored()
      requires Writing() || Stored()
      ensures Stored()
    {
    }

    /**
     Closes the writer. If that succeeds, the blob is what was accepted since it was opened: it is in flash, and
     the metadata say so. If not, there is no valid blob.
     */
    method Close() returns (status: Status)
      requires Valid() && writerOpen
      modifies this, writeBuffer, flash
      ensures Valid() && !writerOpen && initialized == old(initialized)
      ensures status in {Ok, DataLoss}
      ensures status == Ok ==> old(ValidToWrite())
      ensures status == Ok && old(data) != [] ==> HasData() && data == old(data)
      ensures status == Ok && old(data) == [] ==> !HasData()
      ensures status == DataLoss ==> !HasData()
      ensures flash.reliable && old(ValidToWrite()) ==> status == Ok
    {
      hide Crc32.Fold, Buffered, Blank, IsMultiple, Writing;
      if !ValidToWrite() {
        writerOpen, validData := false, false;
        return DataLoss;
      }
      Opened();
      WritingParts();
      if writeAddress == 0 {
        writerOpen := false;
        return Ok;
      }
      status := CloseWrite();
      writerOpen := false;
      if status != Ok {
        validData := false;
      }
    }

    // ---------------------------------------------------------------- initialization

    /** Metadata that no checksum can disprove do not speak of more bytes than there are. */
    ghost predicate Believable()
      reads this, flash
    {
      metadata.Some? ==> hasChecksum || metadata.value.size <= |flash.bytes|
    }

    /** Looks for a blob that is in flash already, and takes it if its checksum is right. */
    method LoadMetadata() returns (status: Status)
      requires Valid() && !writerOpen && readersOpen == 0 && !flashErased
      requires Believable()
      modifies this
      ensures Valid() && !writerOpen && readersOpen == 0 && initialized == old(initialized)
      ensures status == Ok <==> old(metadata).Some? && Matches(old(metadata).value)
      ensures status == Ok ==> HasData() && data == flash.bytes[..old(metadata).value.size]
      ensures status != Ok ==> !HasData()
    {
      hide Crc32.Fold, Crc32.Final, IsMultiple;
      writeAddress, flashAddress := 0, 0;
      validData := false;
      if metadata == None {
        return NotFound;
      }
      var m := metadata.value;
      status := ValidateChecksum(m.size, m.checksum);
      if status != Ok {
        var deleted := Invalidate();
        return DataLoss;
      }
      writeAddress, flashAddress := m.size, m.size;
      validData := true;
      data := flash.bytes[..m.size];
      assert data[..m.size] == data;
    }

    /** The metadata describe what is in flash. */
    ghost predicate Matches(m: Metadata)
      reads this, flash
    {
      0 < m.size <= |flash.bytes| && m.checksum == if hasChecksum then Crc32.Value(flash.bytes[..m.size]) else 0
    }

    method Init()
      requires Valid() && !writerOpen && readersOpen == 0 && !flashErased && (initialized || !validData)
      requires Believable()
      modifies this
      ensures Valid() && initialized && !writerOpen && readersOpen == 0
      ensures !old(initialized) ==>
        (HasData() <==> old(metadata).Some? && Matches(old(metadata).value))
        && (HasData() ==> data == flash.bytes[..old(metadata).value.size])
    {
      hide Crc32.Fold, Crc32.Final, IsMultiple;
      if initialized {
        return;
      }
      checksum := Crc32.INITIAL_STATE;
      initialized := true;
      var status := LoadMetadata();
    }
  }

  /**
   After a restart at any time, a blob is found exactly if there are metadata that match what is in flash. That of a store
   that was closed with one is found again, unchanged.
   */
  method Restart(before: BlobStore) returns (store: BlobStore)
    requires before.Valid() && before.Believable()
    ensures fresh(store) && store.Valid() && store.initialized && !store.writerOpen
    ensures store.HasData() <==> before.metadata.Some? && before.Matches(before.metadata.value)
    ensures store.HasData() ==> store.data == before.flash.bytes[..before.metadata.value.size]
    ensures !before.writerOpen && before.HasData() ==> store.HasData() && store.data == before.data
  {
    hide Crc32.Fold, Crc32.Value, IsMultiple;
    if before.HasData() && !before.writerOpen {
      assert before.data[..before.flashAddress] == before.data;
    }
    store := new BlobStore(before.flash, before.hasChecksum, before.writeBuffer, before.flashWriteSize, before.metadata);
    store.Init();
  }

  /** A blob with a checksum that was damaged in flash, in one byte, is not taken for a blob. */
  method RestartAfterDamage(before: BlobStore, i: nat, b: Byte) returns (store: BlobStore)
    requires before.Valid() && before.hasChecksum && before.HasData() && !before.writerOpen
    requires i < |before.data| && b != before.data[i]
    modifies before.flash
    ensures fresh(store) && store.Valid() && store.initialized && !store.HasData()
  {
    hide Crc32.Value, IsMultiple;
    assert before.data[..before.flashAddress] == before.data;
    ghost var n := |before.data|;
    assert before.flash.bytes[..n] == before.data;
    before.flash.bytes := before.flash.bytes[i := b];
    assert before.flash.bytes[..n] == before.data[i := b];
    Crc32.OneByteChangesValue(before.data, i, b);
    store := new BlobStore(before.flash, before.hasChecksum, before.writeBuffer, before.flashWriteSize, before.metadata);
    store.Init();
  }

  /**
   The power fails while a writer is open on a store that had a blob. If its metadata were deleted, no blob is found.
   If that failed, then as many bytes as it had are taken for it: without a checksum always, although some of them may
   have been written over, and with one exactly if they have the checksum of the old ones.
   */
  method RestartWhileWriting(store: BlobStore, chunks: seq<Bytes>) returns (again: BlobStore)
    requires store.Valid() && store.initialized && !store.writerOpen && store.readersOpen == 0 && store.HasData()
    modifies store, store.writeBuffer, store.flash
    ensures fresh(again) && again.Valid() && again.initialized && !again.writerOpen
    ensures store.metadata in {None, Some(store.MetadataOf(old(store.data)))} && (store.flash.reliable ==> store.metadata == None)
    ensures again.HasData() ==>
      |old(store.data)| <= |store.flash.bytes| && again.data == store.flash.bytes[..|old(store.data)|]
    ensures again.HasData() <==>
      store.metadata.Some? && (store.hasChecksum ==>
        |old(store.data)| <= |store.flash.bytes|
        && Crc32.Value(store.flash.bytes[..|old(store.data)|]) == Crc32.Value(old(store.data)))
  {
    hide Crc32.Fold, Crc32.Value, IsMultiple, Blank, Remainder;
    ghost var blob := store.data;
    var status := store.OpenWrite();
    for i := 0 to |chunks|
      invariant store.Valid() && store.writerOpen
      invariant store.ValidToWrite() ==> store.writeAddress - store.flashAddress < store.flashWriteSize
      invariant |store.flash.bytes| == |old(store.flash.bytes)|
      invariant store.metadata in {None, Some(store.MetadataOf(blob))} && (store.flash.reliable ==> store.metadata == None)
    {
      status := store.Write(chunks[i]);
    }
    again := Restart(store);
  }

  /** The slice of a blob that a read of `size` bytes at an offset inside it gives. */
  function Slice(blob: Bytes, offset: nat, size: nat): Bytes
    requires offset <= |blob|
  {
    if |blob| - offset < size then blob[offset..] else blob[offset..offset + size]
  }

  /** Nothing stands in the way of a writer. */
  predicate Ready(store: BlobStore)
    reads store
  {
    store.flash.reliable && store.initialized && !store.writerOpen && store.readersOpen == 0
  }

  /**
   The contents of a blob: open a writer, write chunks, close. If every step succeeds, reading gives back the
   chunks one behind the other, however they fell on the flash write size. Every step does succeed if flash is
   reliable, the chunks fit, and there is a write buffer or the chunks do not need one.
   */
  method WriteThenRead(store: BlobStore, chunks: seq<Bytes>, offset: nat, size: nat) returns (written: bool, bytes: Bytes)
    requires store.Valid()
    modifies store, store.writeBuffer, store.flash
    ensures store.Valid()
    ensures var blob := Concatenated(chunks); written && offset < |blob| ==> bytes == Slice(blob, offset, size)
    ensures
      && old(Ready(store)) && |Concatenated(chunks)| <= |old(store.flash.bytes)|
      && (store.writeBuffer.Length != 0 || forall i :: 0 <= i < |chunks| ==> Remainder(|chunks[i]|, store.flashWriteSize) == 0)
      ==> written
  {
    hide Crc32.Fold, IsMultiple, Blank, Remainder;
    bytes := [];
    var status := store.OpenWrite();
    if status != Ok {
      return false, bytes;
    }
    for i := 0 to |chunks|
      invariant store.Valid() && store.writerOpen && store.ValidToWrite()
      invariant store.writeAddress - store.flashAddress < store.flashWriteSize
      invariant store.data == Concatenated(chunks[..i])
      invariant |store.flash.bytes| == |old(store.flash.bytes)|
    {
      PrefixFits(chunks, i);
      status := store.Write(chunks[i]);
      if status != Ok {
        return false, bytes;
      }
      assert chunks[..i + 1][..i] == chunks[..i];
    }
    assert chunks[..|chunks|] == chunks;
    status := store.Close();
    if status != Ok {
      return false, bytes;
    }
    status, bytes := store.Read(offset, size);
    written := true;
  }

  /** A chunk fits behind less than one flash write of another, and does not stay in the write buffer. */
  predicate FlushedEach(chunks: seq<Bytes>, flush: seq<bool>, flashWriteSize: nat, bufferSize: nat)
    requires |flush| == |chunks|
  {
    forall i :: 0 <= i < |chunks| ==> flush[i] && flashWriteSize + |chunks[i]| <= bufferSize + 1
  }

  lemma FlushedAt(chunks: seq<Bytes>, flush: seq<bool>, flashWriteSize: nat, bufferSize: nat, i: nat)
    requires |flush| == |chunks| && i < |chunks| && FlushedEach(chunks, flush, flashWriteSize, bufferSize)
    ensures flush[i] && flashWriteSize + |chunks[i]| <= bufferSize + 1
  {
  }

  /**
   The same for a writer that only fills the write buffer, and is flushed after any of its writes. If it is
   flushed after each, the write buffer need only hold a chunk behind the part of one that was held back.
   */
  method WriteDeferredThenRead(store: BlobStore, chunks: seq<Bytes>, flush: seq<bool>, offset: nat, size: nat)
    returns (written: bool, bytes: Bytes)
    requires store.Valid() && |flush| == |chunks|
    modifies store, store.writeBuffer, store.flash
    ensures store.Valid()
    ensures var blob := Concatenated(chunks); written && offset < |blob| ==> bytes == Slice(blob, offset, size)
    ensures
      && old(Ready(store)) && |Concatenated(chunks)| < |old(store.flash.bytes)|
      && FlushedEach(chunks, flush, store.flashWriteSize, store.writeBuffer.Length)
      ==> written
  {
    hide Crc32.Fold, IsMultiple, BlobStore.Valid, FlushedEach;
    ghost var fits :=
      && Ready(store) && |Concatenated(chunks)| < |store.flash.bytes|
      && FlushedEach(chunks, flush, store.flashWriteSize, store.writeBuffer.Length);
    bytes := [];
    var status := store.OpenWrite();
    if status != Ok {
      return false, bytes;
    }
    store.Bounds();
    store.IsConfigured();
    for i := 0 to |chunks|
      invariant store.Valid() && store.writerOpen && store.ValidToWrite()
      invariant store.data == Concatenated(chunks[..i])
      invariant |store.flash.bytes| == |old(store.flash.bytes)|
      invariant fits ==> store.writeAddress - store.flashAddress < store.flashWriteSize
    {
      PrefixFits(chunks, i);
      store.Bounds();
      if fits {
        FlushedAt(chunks, flush, store.flashWriteSize, store.writeBuffer.Length, i);
      }
      status := store.AddToWriteBuffer(chunks[i]);
      if status != Ok {
        return false, bytes;
      }
      assert chunks[..i + 1][..i] == chunks[..i];
      if flush[i] {
        status := store.Flush();
        if status != Ok {
          return false, bytes;
        }
      }
    }
    assert chunks[..|chunks|] == chunks;
    status := store.Close();
    if status != Ok {
      return false, bytes;
    }
    status, bytes := store.Read(offset, size);
    written := true;
  }

  lemma BlankAhead(b: Bytes, at: nat, n: nat)
    requires Blank(b, at)
    ensures BlankBetween(b, at, at + n)
  {
  }

  /** The front of a blob grows by what is written behind it. */
  lemma SplicedFront(b: Bytes, at: nat, source: Bytes, n: nat, data: Bytes)
    requires n <= |source| && at + |source| <= |b| && at + n <= |data|
    requires b[..at] == data[..at] && source[..n] == data[at..at + n]
    ensures Spliced(b, at, source)[..at + n] == data[..at + n]
    ensures data[..at] + source[..n] == data[..at + n]
    ensures source == [] ==> n == 0
  {
  }

  lemma SplicedBlank(b: Bytes, at: nat, source: Bytes)
    requires Blank(b, at) && at + |source| <= |b|
    ensures Blank(Spliced(b, at, source), at + |source|)
  {
  }

  lemma FoldOfNothing()
    ensures forall b: Bytes :: Crc32.Fold(Crc32.INITIAL_STATE, b[..0]) == Crc32.INITIAL_STATE
  {
  }
}
