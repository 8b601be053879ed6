/**
 The bytes of an entry in flash: pw_kvs/entry.cc, with the layouts of pw_kvs/format.h. This is what makes a
 whole entry, and a checksum that matches, of the entries of the key-value store.
 */
module EntryFormat {
  import opened ByteOrder
  import opened Varint
  import opened Stream
  import opened Division
  import opened FlashMemory
  import opened Alignment
  import opened AlignedWriter
  import KvsEntry

  const HEADER_SIZE := KvsEntry.HEADER_SIZE
  const MAX_KEY_LENGTH := KvsEntry.MAX_KEY_LENGTH
  const DELETED_VALUE_LENGTH := KvsEntry.DELETED_VALUE_LENGTH
  const WRITE_BUFFER_SIZE := 256      // kMaxFlashAlignment, unless configured otherwise
  const CHUNK_SIZE := 32              // buffers of two headers that entries are read back through

  datatype Option<+T> = None | Some(value: T)

  datatype Status = Ok | NotFound | DataLoss | OutOfRange | InvalidArgument | Internal | Unknown | ResourceExhausted

  /** A checksum algorithm: it is fed byte by byte, and its final state has a digest of some size. */
  datatype Algorithm = Algorithm(initial: nat, step: (nat, Byte) -> nat, digest: nat -> Bytes)

  datatype Format = Format(magic: Uint32, checksum: Option<Algorithm>)

  datatype Header = Header(
    magic: Uint32, checksum: Uint32, alignmentUnits: Byte, keyLength: Byte, valueSize: Uint16, id: Uint32) {

    function AlignmentBytes(): (n: nat)
      ensures 0 < n
    {
      (alignmentUnits + 1) * 16
    }

    predicate Deleted() {
      valueSize == DELETED_VALUE_LENGTH
    }

    function ValueBytes(): nat {
      if Deleted() then 0 else valueSize
    }

    function ContentSize(): nat {
      HEADER_SIZE + keyLength + ValueBytes()
    }

    function Size(): (n: nat)
      ensures HEADER_SIZE <= ContentSize() <= n
    {
      AlignUp(ContentSize(), AlignmentBytes())
    }
  }

  function HeaderBytes(h: Header): (bytes: Bytes)
    ensures |bytes| == HEADER_SIZE
  {
    LittleEndian(h.magic) + LittleEndian(h.checksum) + [h.alignmentUnits, h.keyLength]
    + LittleEndian16(h.valueSize) + LittleEndian(h.id)
  }

  function ParseHeader(bytes: Bytes): Header
    requires |bytes| == HEADER_SIZE
  {
    Header(FromLittleEndian(bytes[..4]), FromLittleEndian(bytes[4..8]), bytes[8], bytes[9],
           FromLittleEndian16(bytes[10..12]), FromLittleEndian(bytes[12..]))
  }

  lemma HeaderRoundTrip(h: Header)
    ensures ParseHeader(HeaderBytes(h)) == h
  {
    hide LittleEndian, FromLittleEndian;
    var b := HeaderBytes(h);
    LittleEndianRoundTrip(h.magic);
    LittleEndianRoundTrip(h.checksum);
    LittleEndianRoundTrip(h.id);
    assert b[..4] == LittleEndian(h.magic) && b[4..8] == LittleEndian(h.checksum);
    assert b[10..12] == LittleEndian16(h.valueSize) && b[12..] == LittleEndian(h.id);
  }

  /** The header only differs in the bytes of the checksum. */
  lemma WithoutChecksum(h: Header)
    ensures HeaderBytes(h)[..4] + [0, 0, 0, 0] + HeaderBytes(h)[8..] == HeaderBytes(h.(checksum := 0))
  {
    assert LittleEndian(0) == [0, 0, 0, 0];
  }

  function Content(h: Header, key: Bytes, value: Bytes): Bytes {
    HeaderBytes(h) + key + value
  }

  /** All bytes of an entry, with zeros up to its alignment. */
  function Image(h: Header, key: Bytes, value: Bytes): Bytes {
    Padded(Content(h, key, value), h.AlignmentBytes())
  }

  /** The header is one of an entry with this key and value. */
  predicate Fits(h: Header, key: Bytes, value: Bytes) {
    |key| == h.keyLength && |value| == h.ValueBytes()
  }

  // ---------------------------------------------------------------- checksums

  function Fed(a: Algorithm, state: nat, data: Bytes): nat {
    if data == [] then state else a.step(Fed(a, state, data[..|data| - 1]), data[|data| - 1])
  }

  lemma {:induction false} FedConcat(a: Algorithm, state: nat, first: Bytes, second: Bytes)
    ensures Fed(a, state, first + second) == Fed(a, Fed(a, state, first), second)
  {
    if second == [] {
      assert first + second == first;
    } else {
      var n := |second| - 1;
      FedConcat(a, state, first, second[..n]);
      assert (first + second)[..|first + second| - 1] == first + second[..n];
    }
  }

  function Digest(a: Algorithm, data: Bytes): Bytes {
    a.digest(Fed(a, a.initial, data))
  }

  /** A digest as far as it goes into the four bytes of the header's checksum. */
  function Stored(digest: Bytes): Uint32 {
    FromLittleEndian(if 4 <= |digest| then digest[..4] else digest + Zeros(4 - |digest|))
  }

  /** ChecksumAlgorithm::Verify. */
  function Verified(digest: Bytes, checksum: Bytes): Status {
    if |checksum| < |digest| then InvalidArgument
    else if digest == checksum[..|digest|] then Ok
    else DataLoss
  }

  /** The checksum of an entry: that of its bytes with no checksum in them. */
  function ChecksumOf(algorithm: Option<Algorithm>, h: Header, key: Bytes, value: Bytes): Uint32 {
    match algorithm
    case None => 0
    case Some(a) => Stored(Digest(a, Image(h.(checksum := 0), key, value)))
  }

  /** The digest in the header is the one that was stored, if it fits there. */
  lemma StoredVerifies(digest: Bytes)
    ensures Verified(digest, LittleEndian(Stored(digest))) == if 4 < |digest| then InvalidArgument else Ok
  {
    var bytes := if 4 <= |digest| then digest[..4] else digest + Zeros(4 - |digest|);
    FromLittleEndianRoundTrip(bytes);
  }

  lemma {:induction false} ZerosConcat(m: nat, n: nat)
    ensures Zeros(m) + Zeros(n) == Zeros(m + n)
  {
    if n != 0 {
      ZerosConcat(m, n - 1);
      assert Zeros(m) + Zeros(n) == Zeros(m) + Zeros(n - 1) + [0];
    }
  }

  /** Takes the checksum of an entry from its parts, the padding last and in small pieces. */
  method CalculateChecksum(a: Algorithm, h: Header, key: Bytes, value: Bytes) returns (digest: Bytes)
    requires Fits(h, key, value)
    ensures digest == Digest(a, Image(h.(checksum := 0), key, value))
  {
    hide Fed, Zeros;
    var header := h.(checksum := 0);
    ghost var content := Content(header, key, value);
    var state := Fed(a, a.initial, HeaderBytes(header));
    FedConcat(a, a.initial, HeaderBytes(header), key);
    state := Fed(a, state, key);
    FedConcat(a, a.initial, HeaderBytes(header) + key, value);
    state := Fed(a, state, value);
    var paddingToAdd: nat := AlignUp(h.ContentSize(), h.AlignmentBytes()) - h.ContentSize();
    ghost var padding := paddingToAdd;
    NoZeros();
    assert content + [] == content;
    while paddingToAdd != 0
      invariant paddingToAdd <= padding
      invariant state == Fed(a, a.initial, content + Zeros(padding - paddingToAdd))
    {
      var chunkSize := if paddingToAdd < HEADER_SIZE - 1 then paddingToAdd else HEADER_SIZE - 1;
      ghost var before := Zeros(padding - paddingToAdd);
      FedConcat(a, a.initial, content + before, Zeros(chunkSize));
      ZerosConcat(padding - paddingToAdd, chunkSize);
      assert content + before + Zeros(chunkSize) == content + (before + Zeros(chunkSize));
      state := Fed(a, state, Zeros(chunkSize));
      paddingToAdd := paddingToAdd - chunkSize;
    }
    digest := a.digest(state);
  }

  lemma NoZeros()
    ensures Zeros(0) == []
  {
  }

  /** The format with a magic number, EntryFormats::Find. */
  function FindFormat(formats: seq<Format>, magic: Uint32): (found: Option<Format>)
    ensures found == None <==> forall i :: 0 <= i < |formats| ==> formats[i].magic != magic
    ensures found.Some? ==> found.value in formats && found.value.magic == magic
  {
    if formats == [] then None
    else if formats[0].magic == magic then Some(formats[0])
    else FindFormat(formats[1..], magic)
  }

  class Entry {
    const flash: Flash
    const address: nat
    const algorithm: Option<Algorithm>
    const header: Header

    constructor (flash: Flash, address: nat, algorithm: Option<Algorithm>, header: Header)
      ensures this.flash == flash && this.address == address && this.algorithm == algorithm && this.header == header
    {
      this.flash := flash;
      this.address := address;
      this.algorithm := algorithm;
      this.header := header;
    }

    /** The bytes of the entry, with this key and value, are in flash. */
    ghost predicate OnFlash(at: nat, key: Bytes, value: Bytes)
      reads flash
    {
      && Fits(header, key, value)
      && at + header.Size() <= |flash.bytes|
      && flash.bytes[at..at + header.Size()] == Image(header, key, value)
    }

    predicate InBounds()
      reads flash
    {
      address + header.Size() <= |flash.bytes|
    }

    ghost function Region(): Bytes
      requires InBounds()
      reads flash
    {
      flash.bytes[address..address + header.Size()]
    }

    /** Writes the header, the key and the value behind one another, and zeros up to the alignment. */
    method Write(key: Bytes, value: Bytes) returns (status: Status, size: nat)
      requires Fits(header, key, value) && Writable(address)
      modifies flash
      ensures status == Internal <==> WRITE_BUFFER_SIZE < header.AlignmentBytes()
      ensures status in {Ok, Internal, Unknown}
      ensures status == Ok ==> size == header.Size() && OnFlash(address, key, value)
      ensures SameOutside(old(flash.bytes), flash.bytes, address, address + header.Size())
      ensures flash.reliable ==> status != Unknown
    {
      hide IsMultiple, BlankBetween, Padded;
      var output := new Output(flash, address);
      var chunks := [HeaderBytes(header), key, value];
      ThreeChunks(HeaderBytes(header), key, value);
      AlignUpIsMultiple(header.ContentSize(), header.AlignmentBytes());
      var written;
      written, size := AlignedWrite(WRITE_BUFFER_SIZE, output, header.AlignmentBytes(), chunks, header.Size());
      status := match written case Done => Ok case BufferTooSmall => Internal case Failed => Unknown;
    }

    /** What can be written at an address: there is erased room, aligned as flash wants it. */
    ghost predicate Writable(at: nat)
      reads flash
    {
      && at + header.Size() <= |flash.bytes| && IsMultiple(at, header.AlignmentBytes())
      && 0 < flash.alignment && IsMultiple(header.AlignmentBytes(), flash.alignment)
      && BlankBetween(flash.bytes, at, at + header.Size())
    }

    /** Writes the entry elsewhere, with this header and the key and value that are in flash. */
    method Copy(newAddress: nat) returns (status: Status, size: nat)
      requires Writable(newAddress) && header.AlignmentBytes() <= WRITE_BUFFER_SIZE
      requires address + header.Size() <= newAddress || newAddress + header.Size() <= address
      modifies flash
      ensures status in {Ok, Unknown}
      ensures status == Ok ==> size == header.Size()
      ensures forall key, value :: status == Ok && old(OnFlash(address, key, value)) ==> OnFlash(newAddress, key, value)
      ensures SameOutside(old(flash.bytes), flash.bytes, newAddress, newAddress + header.Size())
      ensures flash.reliable && old(InBounds()) ==> status == Ok
    {
      hide Writable, SameOutside, Padded;
      ghost var before := flash.bytes;
      status, size := WriteCopy(newAddress);
      forall key, value | status == Ok && old(OnFlash(address, key, value))
        ensures OnFlash(newAddress, key, value)
      {
        ContentAt(before, address, header, key, value);
      }
    }

    method WriteCopy(newAddress: nat) returns (status: Status, size: nat)
      requires Writable(newAddress) && header.AlignmentBytes() <= WRITE_BUFFER_SIZE
      requires address + header.Size() <= newAddress || newAddress + header.Size() <= address
      modifies flash
      ensures status in {Ok, Unknown}
      ensures status == Ok ==> size == header.Size() && newAddress + size <= |flash.bytes|
      ensures status == Ok && old(InBounds()) ==>
        flash.bytes[newAddress..newAddress + header.Size()] == Padded(
          HeaderBytes(header) + old(flash.bytes)[address + HEADER_SIZE..address + header.ContentSize()],
          header.AlignmentBytes())
      ensures SameOutside(old(flash.bytes), flash.bytes, newAddress, newAddress + header.Size())
      ensures flash.reliable && old(InBounds()) ==> status == Ok
    {
      hide IsMultiple, BlankBetween, Padded, SameOutside, AlignedWriter.Holding, HeaderBytes;
      ghost var before, at, room := flash.bytes, newAddress, header.Size();
      AlignUpIsMultiple(header.ContentSize(), header.AlignmentBytes());
      var output := new Output(flash, newAddress);
      var writer := new AlignedWriter(WRITE_BUFFER_SIZE, header.AlignmentBytes(), output, room);
      var ok;
      ok, size := CopyContent(writer, before);
      ghost var middle := flash.bytes;
      OutsideSize(before, middle, at, at + room);
      if !ok {
        writer.Destroy();
        OutsideTransitive(before, middle, flash.bytes, at, at + room);
        return Unknown, size;
      }
      ok, size := writer.Flush();
      OutsideTransitive(before, middle, flash.bytes, at, at + room);
      status := if ok then Ok else Unknown;
    }

    method CopyContent(writer: AlignedWriter, ghost before: Bytes) returns (ok: bool, size: nat)
      requires writer.Valid() && writer.output.flash == flash && writer.content == [] && before == flash.bytes
      requires header.ContentSize() <= writer.room
      requires address + header.ContentSize() <= writer.begin || writer.begin + writer.room <= address
      modifies writer`bytesWritten, writer`bytesInBuffer, writer`content, writer.buffer, writer.output, flash
      ensures ok ==> writer.Valid() && |writer.content| == header.ContentSize()
      ensures ok && address + header.ContentSize() <= |before| ==>
        writer.content == HeaderBytes(header) + before[address + HEADER_SIZE..address + header.ContentSize()]
      ensures !ok ==> writer.bytesInBuffer == 0 || writer.Valid()
      ensures SameOutside(before, flash.bytes, writer.begin, writer.begin + writer.room)
      ensures flash.reliable && address + header.ContentSize() <= |before| ==> ok
    {
      hide AlignedWriter.Holding, SameOutside;
      ok, size := writer.Write(HeaderBytes(header));
      if !ok {
        return;
      }
      ghost var middle := flash.bytes;
      var length: nat := header.keyLength + header.ValueBytes();
      ok, size := writer.WriteFrom(address + HEADER_SIZE, length);
      OutsideTransitive(before, middle, flash.bytes, writer.begin, writer.begin + writer.room);
      OutsideSize(before, middle, writer.begin, writer.begin + writer.room);
      if address + header.ContentSize() <= |before| {
        OutsideSlice(before, middle, writer.begin, writer.begin + writer.room, address + HEADER_SIZE, length);
      }
    }

    method ReadKey() returns (status: Status, key: Bytes)
      ensures status ==
        if header.keyLength == 0 || MAX_KEY_LENGTH < header.keyLength then DataLoss
        else if |flash.bytes| < address + HEADER_SIZE + header.keyLength then OutOfRange
        else Ok
      ensures status == Ok ==> key == flash.bytes[address + HEADER_SIZE..address + HEADER_SIZE + header.keyLength]
    {
      if header.keyLength == 0 || header.keyLength > MAX_KEY_LENGTH {
        return DataLoss, [];
      }
      var ok;
      ok, key := flash.Read(address + HEADER_SIZE, header.keyLength);
      status := if ok then Ok else OutOfRange;
    }

    /** Reads the part of the value from an offset that fits in a buffer. */
    method ReadValue(bufferSize: nat, offset: nat) returns (status: Status, bytes: Bytes)
      ensures header.ValueBytes() < offset ==> status == OutOfRange
      ensures InBounds() && offset <= header.ValueBytes() ==>
        var from := address + HEADER_SIZE + header.keyLength + offset;
        var remaining := header.ValueBytes() - offset;
        && status == (if remaining <= bufferSize then Ok else ResourceExhausted)
        && bytes == flash.bytes[from..from + if remaining <= bufferSize then remaining else bufferSize]
    {
      if offset > header.ValueBytes() {
        return OutOfRange, [];
      }
      var remaining := header.ValueBytes() - offset;
      var readSize := if bufferSize < remaining then bufferSize else remaining;
      var ok;
      ok, bytes := flash.Read(address + HEADER_SIZE + header.keyLength + offset, readSize);
      if !ok {
        return OutOfRange, [];
      }
      status := if readSize != remaining then ResourceExhausted else Ok;
    }

    /** Compares the value in flash with another, piece by piece. */
    method ValueMatches(value: Bytes) returns (status: Status)
      ensures |value| != header.ValueBytes() ==> status == NotFound
      ensures InBounds() && |value| == header.ValueBytes() ==>
        var from := address + HEADER_SIZE + header.keyLength;
        status == if flash.bytes[from..from + |value|] == value then Ok else NotFound
    {
      if header.ValueBytes() != |value| {
        return NotFound;
      }
      var from := address + HEADER_SIZE + header.keyLength;
      var done := 0;
      while done < |value|
        invariant done <= |value|
        invariant InBounds() ==> flash.bytes[from..from + done] == value[..done]
      {
        var readSize := if |value| - done < CHUNK_SIZE then |value| - done else CHUNK_SIZE;
        var ok, buffer := flash.Read(from + done, readSize);
        if !ok {
          return OutOfRange;
        }
        if InBounds() {
          OneChunkMore(flash.bytes, from, value, done, readSize);
        }
        if buffer != value[done..done + readSize] {
          return NotFound;
        }
        done := done + readSize;
      }
      assert value[..|value|] == value;
      return Ok;
    }

    /** What the checksum in flash comes to. An entry without an algorithm is only looked at in its first chunk. */
    ghost function Verification(): Status
      reads flash
    {
      var first := if CHUNK_SIZE < header.Size() then CHUNK_SIZE else header.Size();
      if |flash.bytes| < address + first then OutOfRange
      else if ParseHeader(flash.bytes[address..address + HEADER_SIZE]).checksum != header.checksum then DataLoss
      else match algorithm
        case None => if header.checksum == 0 then Ok else DataLoss
        case Some(a) =>
          if !InBounds() then OutOfRange
          else Verified(Digest(a, Blanked(Region())), LittleEndian(header.checksum))
    }

    /** Reads the whole entry back in small pieces, and compares its checksum with that in the header. */
    method VerifyChecksumInFlash() returns (status: Status)
      ensures status == Verification()
    {
      hide Fed, Digest, Verified, HeaderBytes;
      var bytesToRead := header.Size();
      var readSize := if bytesToRead < CHUNK_SIZE then bytesToRead else CHUNK_SIZE;
      var ok, buffer := flash.Read(address, readSize);
      if !ok {
        return OutOfRange;
      }
      SliceOfSlice(flash.bytes, address, readSize, 0, HEADER_SIZE);
      if ParseHeader(buffer[..HEADER_SIZE]).checksum != header.checksum {
        return DataLoss;
      }
      if algorithm == None {
        return if header.checksum == 0 then Ok else DataLoss;
      }
      status := VerifyInChunks(algorithm.value, Blanked(buffer));
    }

    method VerifyInChunks(a: Algorithm, first: Bytes) returns (status: Status)
      requires algorithm == Some(a) && address + |first| <= |flash.bytes|
      requires |first| == if header.Size() < CHUNK_SIZE then header.Size() else CHUNK_SIZE
      requires first == Blanked(flash.bytes[address..address + |first|])
      ensures status ==
        if !InBounds() then OutOfRange else Verified(Digest(a, Blanked(Region())), LittleEndian(header.checksum))
    {
      hide Fed, Verified, Blanked;
      var read := |first|;
      var state := Fed(a, a.initial, first);
      ghost var seen := first;
      if InBounds() {
        SliceOfSlice(flash.bytes, address, header.Size(), 0, read);
        BlankedFront(Region(), read);
      }
      while read < header.Size()
        invariant |first| <= read <= header.Size() && address + read <= |flash.bytes|
        invariant state == Fed(a, a.initial, seen)
        invariant InBounds() ==> seen == Blanked(Region())[..read]
      {
        var readSize := if header.Size() - read < CHUNK_SIZE then header.Size() - read else CHUNK_SIZE;
        var ok, buffer := flash.Read(address + read, readSize);
        if !ok {
          return OutOfRange;
        }
        FedConcat(a, a.initial, seen, buffer);
        state := Fed(a, state, buffer);
        if InBounds() {
          BlankedBehind(flash.bytes, address, header.Size(), read, readSize);
        }
        seen := seen + buffer;
        read := read + readSize;
      }
      assert Blanked(Region())[..read] == Blanked(Region());
      return Verified(a.digest(state), LittleEndian(header.checksum));
    }
  }

  /** A new entry, Entry::Valid or Entry::Tombstone. A tombstone has no value. */
  method Make(flash: Flash, address: nat, format: Format, key: Bytes, value: Bytes, deleted: bool, id: Uint32)
    returns (entry: Entry)
    requires |key| <= MAX_KEY_LENGTH && |value| < DELETED_VALUE_LENGTH && (deleted ==> value == [])
    requires 0 < flash.alignment <= 4096
    ensures fresh(entry) && entry.flash == flash && entry.address == address && entry.algorithm == format.checksum
    ensures var h := entry.header;
      && Fits(h, key, value) && h.Deleted() == deleted && h.magic == format.magic && h.id == id
      && h.AlignmentBytes() == AlignUp(flash.alignment, 16)
      && h.checksum == ChecksumOf(format.checksum, h, key, value)
  {
    hide Image, Digest;
    AlignUpByDivision(flash.alignment, 16);
    var units := (flash.alignment + 15) / 16 - 1;
    var header := Header(format.magic, 0, units, |key|, if deleted then DELETED_VALUE_LENGTH else |value|, id);
    var checksum := 0;
    if format.checksum != None {
      var digest := CalculateChecksum(format.checksum.value, header, key, value);
      checksum := Stored(digest);
    }
    entry := new Entry(flash, address, format.checksum, header.(checksum := checksum));
    assert entry.header.(checksum := 0) == header;
  }

  /** Reads the header of an entry. */
  method Read(flash: Flash, address: nat, formats: seq<Format>) returns (status: Status, entry: Entry?)
    ensures status == Ok <==> entry != null
    ensures |flash.bytes| < address + HEADER_SIZE ==> status == OutOfRange
    ensures address + HEADER_SIZE <= |flash.bytes| ==>
      var h := ParseHeader(flash.bytes[address..address + HEADER_SIZE]);
      var format := FindFormat(formats, h.magic);
      && (status == if h.magic == ERASED_MAGIC then NotFound
                    else if MAX_KEY_LENGTH < h.keyLength || format == None then DataLoss
                    else Ok)
      && (status == Ok ==>
            fresh(entry) && entry.flash == flash && entry.address == address
            && entry.header == h && entry.algorithm == format.value.checksum)
  {
    hide ParseHeader;
    entry := null;
    var ok, bytes := flash.Read(address, HEADER_SIZE);
    if !ok {
      return OutOfRange, null;
    }
    var h := ParseHeader(bytes);
    MagicErased(bytes);
    if AppearsErased(bytes[..4]) {
      return NotFound, null;
    }
    if h.keyLength > MAX_KEY_LENGTH {
      return DataLoss, null;
    }
    var format := FindFormat(formats, h.magic);
    if format == None {
      return DataLoss, null;
    }
    entry := new Entry(flash, address, format.value.checksum, h);
    return Ok, entry;
  }

  // A magic number of nothing but erased bytes.
  const ERASED_MAGIC: Uint32 := 0xFFFF_FFFF

  predicate AppearsErased(data: Bytes) {
    forall i :: 0 <= i < |data| ==> data[i] == ERASED
  }

  lemma MagicErased(bytes: Bytes)
    requires |bytes| == HEADER_SIZE
    ensures AppearsErased(bytes[..4]) <==> ParseHeader(bytes).magic == ERASED_MAGIC
  {
    var m := bytes[..4];
    if ParseHeader(bytes).magic == ERASED_MAGIC {
      assert FromLittleEndian(m) == ERASED_MAGIC;
    }
  }

  /** An entry with zeros for its checksum. */
  function Blanked(bytes: Bytes): (blanked: Bytes)
    requires HEADER_SIZE <= |bytes|
    ensures |blanked| == |bytes|
  {
    bytes[..4] + [0, 0, 0, 0] + bytes[8..]
  }

  lemma BlankedFront(bytes: Bytes, n: nat)
    requires HEADER_SIZE <= n <= |bytes|
    ensures Blanked(bytes[..n]) == Blanked(bytes)[..n]
  {
  }

  lemma BlankedBehind(bytes: Bytes, at: nat, size: nat, from: nat, n: nat)
    requires HEADER_SIZE <= from && from + n <= size && at + size <= |bytes|
    ensures Blanked(bytes[at..at + size])[..from + n] == Blanked(bytes[at..at + size])[..from] + bytes[at + from..at + from + n]
  {
    SliceOfSlice(bytes, at, size, from, from + n);
    var b := Blanked(bytes[at..at + size]);
    assert b[from..from + n] == bytes[at..at + size][from..from + n];
    assert b[..from + n] == b[..from] + b[from..from + n];
  }

  /** Comparing one chunk more. */
  lemma OneChunkMore(bytes: Bytes, from: nat, value: Bytes, done: nat, n: nat)
    requires from + |value| <= |bytes| && done + n <= |value| && bytes[from..from + done] == value[..done]
    ensures bytes[from + done..from + done + n] == value[done..done + n] ==> bytes[from..from + done + n] == value[..done + n]
    ensures bytes[from..from + |value|] == value ==> bytes[from + done..from + done + n] == value[done..done + n]
  {
    SliceOfSlice(bytes, from, |value|, done, done + n);
    assert bytes[from..from + done + n] == bytes[from..from + done] + bytes[from + done..from + done + n];
    assert value[..done + n] == value[..done] + value[done..done + n];
  }

  /** Behind the header of an entry in flash are its key and its value. */
  lemma ContentAt(bytes: Bytes, at: nat, h: Header, key: Bytes, value: Bytes)
    requires Fits(h, key, value) && at + h.Size() <= |bytes| && bytes[at..at + h.Size()] == Image(h, key, value)
    ensures bytes[at..at + HEADER_SIZE] == HeaderBytes(h)
    ensures bytes[at + HEADER_SIZE..at + HEADER_SIZE + |key|] == key
    ensures bytes[at + HEADER_SIZE + |key|..at + h.ContentSize()] == value
    ensures HeaderBytes(h) + bytes[at + HEADER_SIZE..at + h.ContentSize()] == Content(h, key, value)
  {
    hide HeaderBytes, Zeros;
    var image, k := bytes[at..at + h.Size()], HEADER_SIZE + |key|;
    assert image[..HEADER_SIZE] == HeaderBytes(h);
    assert image[HEADER_SIZE..k] == key;
    assert image[k..h.ContentSize()] == value;
    assert image[HEADER_SIZE..h.ContentSize()] == key + value;
    SliceOfSlice(bytes, at, h.Size(), 0, HEADER_SIZE);
    SliceOfSlice(bytes, at, h.Size(), HEADER_SIZE, k);
    SliceOfSlice(bytes, at, h.Size(), k, h.ContentSize());
    SliceOfSlice(bytes, at, h.Size(), HEADER_SIZE, h.ContentSize());
  }

  lemma SliceOfSlice(bytes: Bytes, at: nat, size: nat, lo: nat, hi: nat)
    requires at + size <= |bytes| && lo <= hi <= size
    ensures bytes[at..at + size][lo..hi] == bytes[at + lo..at + hi]
  {
    var left, right := bytes[at..at + size][lo..hi], bytes[at + lo..at + hi];
    assert forall k :: 0 <= k < hi - lo ==> left[k] == right[k];
  }

  lemma ThreeChunks(first: Bytes, second: Bytes, third: Bytes)
    ensures Concatenated([first, second, third]) == first + second + third
  {
    assert [first, second, third][..2] == [first, second] && [first, second][..1] == [first] && [first][..0] == [];
    assert Concatenated([first]) == first;
    assert Concatenated([first, second]) == first + second;
  }

  // ---------------------------------------------------------------- round trips

  lemma ImageBlanked(h: Header, key: Bytes, value: Bytes)
    requires Fits(h, key, value)
    ensures Blanked(Image(h, key, value)) == Image(h.(checksum := 0), key, value)
  {
    hide HeaderBytes, Zeros;
    var h0 := h.(checksum := 0);
    WithoutChecksum(h);
    var rest := key + value + Zeros(AlignUp(h.ContentSize(), h.AlignmentBytes()) - h.ContentSize());
    assert Image(h, key, value) == HeaderBytes(h) + rest;
    assert Image(h0, key, value) == HeaderBytes(h0) + rest;
    assert Blanked(HeaderBytes(h) + rest) == HeaderBytes(h)[..4] + [0, 0, 0, 0] + HeaderBytes(h)[8..] + rest;
  }

  /** Bytes of an entry that carry their own checksum pass, exactly if the digest fits in the header. */
  lemma WrittenVerifies(entry: Entry, key: Bytes, value: Bytes)
    requires entry.OnFlash(entry.address, key, value)
    requires entry.header.checksum == ChecksumOf(entry.algorithm, entry.header, key, value)
    ensures entry.Verification() == if DigestFits(entry.algorithm, entry.header, key, value) then Ok else InvalidArgument
  {
    hide Digest, HeaderBytes, Image, ParseHeader;
    var h, bytes, at := entry.header, entry.flash.bytes, entry.address;
    ContentAt(bytes, at, h, key, value);
    HeaderRoundTrip(h);
    ImageBlanked(h, key, value);
    if entry.algorithm.Some? {
      StoredVerifies(Digest(entry.algorithm.value, Image(h.(checksum := 0), key, value)));
    }
  }

  predicate DigestFits(algorithm: Option<Algorithm>, h: Header, key: Bytes, value: Bytes) {
    algorithm.Some? ==> |Digest(algorithm.value, Image(h.(checksum := 0), key, value))| <= 4
  }

  /** Where an entry with this key and value can be written: erased room, aligned as flash wants it. */
  ghost predicate HasRoomFor(flash: Flash, address: nat, key: Bytes, value: Bytes)
    reads flash
  {
    && 0 < flash.alignment <= WRITE_BUFFER_SIZE
    && var alignment := AlignUp(flash.alignment, 16);
    && var size := AlignUp(HEADER_SIZE + |key| + |value|, alignment);
    && IsMultiple(alignment, flash.alignment) && IsMultiple(address, alignment)
    && address + size <= |flash.bytes| && BlankBetween(flash.bytes, address, address + size)
  }

  /** Makes an entry and writes it. */
  method Store(flash: Flash, address: nat, format: Format, key: Bytes, value: Bytes, deleted: bool, id: Uint32)
    returns (written: bool, entry: Entry)
    requires 0 < |key| <= MAX_KEY_LENGTH && |value| < DELETED_VALUE_LENGTH && (deleted ==> value == [])
    requires HasRoomFor(flash, address, key, value)
    modifies flash
    ensures fresh(entry) && entry.flash == flash && entry.address == address && entry.algorithm == format.checksum
    ensures var h := entry.header;
      && h.magic == format.magic && h.id == id && h.Deleted() == deleted && Fits(h, key, value)
      && h.checksum == ChecksumOf(entry.algorithm, h, key, value)
    ensures entry.header.AlignmentBytes() == AlignUp(flash.alignment, 16)
    ensures SameOutside(old(flash.bytes), flash.bytes, address, address + entry.header.Size())
    ensures written ==> entry.OnFlash(address, key, value)
    ensures flash.reliable ==> written
  {
    hide IsMultiple, BlankBetween, Image;
    MultipleOfItself(16);
    SixteenInBuffer();
    AlignUpIsLeast(flash.alignment, 16, WRITE_BUFFER_SIZE);
    entry := Make(flash, address, format, key, value, deleted, id);
    var status, size := entry.Write(key, value);
    written := status == Ok;
  }

  lemma SixteenInBuffer()
    ensures IsMultiple(WRITE_BUFFER_SIZE, 16)
  {
  }

  /** Reads the parts of an entry that is in flash. */
  method ReadParts(entry: Entry, bufferSize: nat, offset: nat, other: Bytes, ghost key: Bytes, ghost value: Bytes)
    returns (foundKey: Bytes, part: Bytes, matches: Status)
    requires entry.OnFlash(entry.address, key, value) && 0 < |key| <= MAX_KEY_LENGTH && offset <= |value|
    ensures foundKey == key
    ensures part == value[offset..if |value| - offset <= bufferSize then |value| else offset + bufferSize]
    ensures matches == if other == value then Ok else NotFound
  {
    hide Image, HeaderBytes;
    ContentAt(entry.flash.bytes, entry.address, entry.header, key, value);
    var status;
    status, foundKey := entry.ReadKey();
    ghost var from := entry.address + HEADER_SIZE + |key|;
    SliceOfSlice(entry.flash.bytes, from, |value|, offset,
                 if |value| - offset <= bufferSize then |value| else offset + bufferSize);
    status, part := entry.ReadValue(bufferSize, offset);
    matches := entry.ValueMatches(other);
  }

  /**
   An entry that was written is found again: its header, its key, any part of its value and no other value; and
   its checksum passes exactly if the digest fits in the header.
   */
  method WriteThenRead(
    flash: Flash, address: nat, format: Format, formats: seq<Format>, key: Bytes, value: Bytes, deleted: bool, id: Uint32,
    bufferSize: nat, offset: nat, other: Bytes)
    returns (written: bool, header: Header, verified: Status, foundKey: Bytes, part: Bytes, matches: Status)
    requires 0 < |key| <= MAX_KEY_LENGTH && |value| < DELETED_VALUE_LENGTH && (deleted ==> value == [])
    requires HasRoomFor(flash, address, key, value) && offset <= |value|
    requires FindFormat(formats, format.magic) == Some(format) && format.magic != ERASED_MAGIC
    modifies flash
    ensures flash.reliable ==> written
    ensures written ==>
      && Fits(header, key, value) && header.id == id && header.Deleted() == deleted
      && verified == (if DigestFits(format.checksum, header, key, value) then Ok else InvalidArgument)
      && foundKey == key
      && part == value[offset..if |value| - offset <= bufferSize then |value| else offset + bufferSize]
      && matches == if other == value then Ok else NotFound
  {
    hide HasRoomFor, Image, ParseHeader, HeaderBytes, Digest, ChecksumOf;
    var entry;
    written, entry := Store(flash, address, format, key, value, deleted, id);
    header, verified, foundKey, part, matches := entry.header, Unknown, [], [], Unknown;
    if !written {
      return;
    }
    ContentAt(flash.bytes, address, header, key, value);
    HeaderRoundTrip(header);
    var status, back := Read(flash, address, formats);
    header := back.header;
    WrittenVerifies(back, key, value);
    verified := back.VerifyChecksumInFlash();
    foundKey, part, matches := ReadParts(back, bufferSize, offset, other, key, value);
  }

  /** A copy of an entry passes wherever the entry itself does. */
  method CopyThenVerify(entry: Entry, newAddress: nat, ghost key: Bytes, ghost value: Bytes)
    returns (copied: bool, copy: Entry, verified: Status)
    requires entry.OnFlash(entry.address, key, value)
    requires entry.header.checksum == ChecksumOf(entry.algorithm, entry.header, key, value)
    requires entry.Writable(newAddress) && entry.header.AlignmentBytes() <= WRITE_BUFFER_SIZE
    requires entry.address + entry.header.Size() <= newAddress || newAddress + entry.header.Size() <= entry.address
    modifies entry.flash
    ensures copy.flash == entry.flash && copy.header == entry.header && copy.address == newAddress
    ensures copied ==> copy.OnFlash(newAddress, key, value) && entry.OnFlash(entry.address, key, value)
    ensures copied ==> verified == if DigestFits(entry.algorithm, entry.header, key, value) then Ok else InvalidArgument
    ensures entry.flash.reliable ==> copied
  {
    hide Entry.Writable, Image, Digest, ChecksumOf, SameOutside;
    ghost var before := entry.flash.bytes;
    var status, size := entry.Copy(newAddress);
    OutsideSlice(before, entry.flash.bytes, newAddress, newAddress + entry.header.Size(), entry.address, entry.header.Size());
    OutsideSize(before, entry.flash.bytes, newAddress, newAddress + entry.header.Size());
    copied := status == Ok;
    copy := new Entry(entry.flash, newAddress, entry.algorithm, entry.header);
    verified := Unknown;
    if copied {
      WrittenVerifies(copy, key, value);
      verified := copy.VerifyChecksumInFlash();
    }
  }

  // ---------------------------------------------------------------- damage

  /**
   On these states, neither a step nor the digest takes two different ones for the same, and no step takes two different
   bytes for the same; and a digest fits in the header. A cyclic redundancy check is such an algorithm.
   */
  ghost predicate TellsApart(a: Algorithm, states: iset<nat>) {
    && a.initial in states
    && (forall s, b: Byte :: s in states ==> a.step(s, b) in states)
    && (forall s, t, b: Byte :: s in states && t in states && a.step(s, b) == a.step(t, b) ==> s == t)
    && (forall s, b: Byte, c: Byte :: s in states && a.step(s, b) == a.step(s, c) ==> b == c)
    && (forall s, t :: s in states && t in states && a.digest(s) == a.digest(t) ==> s == t)
    && (forall s, t :: s in states && t in states ==> |a.digest(s)| == |a.digest(t)| <= 4)
  }

  lemma {:induction false} FedStays(a: Algorithm, states: iset<nat>, state: nat, data: Bytes)
    requires TellsApart(a, states) && state in states
    ensures Fed(a, state, data) in states
  {
    if data != [] {
      FedStays(a, states, state, data[..|data| - 1]);
    }
  }

  lemma {:induction false} FedApart(a: Algorithm, states: iset<nat>, s: nat, t: nat, data: Bytes)
    requires TellsApart(a, states) && s in states && t in states && Fed(a, s, data) == Fed(a, t, data)
    ensures s == t
  {
    if data != [] {
      var n := |data| - 1;
      FedStays(a, states, s, data[..n]);
      FedStays(a, states, t, data[..n]);
      FedApart(a, states, s, t, data[..n]);
    }
  }

  lemma FedOne(a: Algorithm, state: nat, b: Byte)
    ensures Fed(a, state, [b]) == a.step(state, b)
  {
    assert [b][..0] == [];
  }

  /** Bytes with one of them changed have another digest. */
  lemma DigestsApart(a: Algorithm, states: iset<nat>, data: Bytes, i: nat, b: Byte)
    requires TellsApart(a, states) && i < |data| && b != data[i]
    ensures Digest(a, data[i := b]) != Digest(a, data)
    ensures |Digest(a, data[i := b])| == |Digest(a, data)| <= 4
  {
    hide Fed;
    var front, back := data[..i], data[i + 1..];
    var state := Fed(a, a.initial, front);
    FedStays(a, states, a.initial, front);
    FedStays(a, states, a.initial, data);
    FedStays(a, states, a.initial, data[i := b]);
    FedAround(a, front, data[i], back, data);
    FedAround(a, front, b, back, data[i := b]);
    if Digest(a, data[i := b]) == Digest(a, data) {
      FedApart(a, states, a.step(state, data[i]), a.step(state, b), back);
    }
  }

  lemma FedAround(a: Algorithm, front: Bytes, b: Byte, back: Bytes, data: Bytes)
    requires data == front + [b] + back
    ensures Fed(a, a.initial, data) == Fed(a, a.step(Fed(a, a.initial, front), b), back)
  {
    FedConcat(a, a.initial, front + [b], back);
    FedConcat(a, a.initial, front, [b]);
    FedOne(a, Fed(a, a.initial, front), b);
  }

  lemma HeaderDamaged(bytes: Bytes, i: nat, b: Byte)
    requires |bytes| == HEADER_SIZE && i < HEADER_SIZE && b != bytes[i]
    ensures ParseHeader(bytes[i := b]).checksum == ParseHeader(bytes).checksum <==> !(4 <= i < 8)
  {
    hide LittleEndian, FromLittleEndian;
    var before, after := bytes[4..8], bytes[i := b][4..8];
    FromLittleEndianRoundTrip(before);
    FromLittleEndianRoundTrip(after);
    if 4 <= i < 8 {
      assert after[i - 4] == b && before[i - 4] == bytes[i];
    } else {
      assert after == before;
    }
  }

  lemma BlankedDamaged(bytes: Bytes, i: nat, b: Byte)
    requires HEADER_SIZE <= |bytes| && i < |bytes| && !(4 <= i < 8)
    ensures Blanked(bytes[i := b]) == Blanked(bytes)[i := b] && Blanked(bytes)[i] == bytes[i]
  {
  }

  /** What verification makes of bytes like those of a whole entry but for one of them. */
  lemma DamageFails(a: Algorithm, states: iset<nat>, h: Header, good: Bytes, i: nat, b: Byte)
    requires TellsApart(a, states) && HEADER_SIZE <= |good| && i < |good| && b != good[i]
    requires ParseHeader(good[..HEADER_SIZE]).checksum == h.checksum
    requires Verified(Digest(a, Blanked(good)), LittleEndian(h.checksum)) == Ok
    ensures ParseHeader(good[i := b][..HEADER_SIZE]).checksum != h.checksum
         || Verified(Digest(a, Blanked(good[i := b])), LittleEndian(h.checksum)) == DataLoss
  {
    hide Digest, Blanked, ParseHeader, LittleEndian;
    if 4 <= i < 8 {
      HeaderDamaged(good[..HEADER_SIZE], i, b);
      assert good[i := b][..HEADER_SIZE] == good[..HEADER_SIZE][i := b];
    } else {
      BlankedDamaged(good, i, b);
      DigestsApart(a, states, Blanked(good), i, b);
    }
  }

  /** An entry with one byte of it damaged, whichever it is and whatever it became, does not pass. */
  method DamageThenVerify(entry: Entry, i: nat, b: Byte, ghost key: Bytes, ghost value: Bytes, ghost states: iset<nat>)
    returns (verified: Status)
    requires entry.OnFlash(entry.address, key, value) && i < entry.header.Size() && b != entry.flash.bytes[entry.address + i]
    requires entry.header.checksum == ChecksumOf(entry.algorithm, entry.header, key, value)
    requires entry.algorithm.Some? && TellsApart(entry.algorithm.value, states)
    modifies entry.flash
    ensures entry.flash.bytes == old(entry.flash.bytes)[entry.address + i := b]
    ensures verified == DataLoss
  {
    hide Image, Digest, ChecksumOf, Blanked, ParseHeader, Verified, LittleEndian, TellsApart;
    ghost var a, h, at := entry.algorithm.value, entry.header, entry.address;
    ghost var bytes, good := entry.flash.bytes, entry.Region();
    WrittenVerifies(entry, key, value);
    DigestAlwaysFits(a, states, Image(h.(checksum := 0), key, value));
    SliceOfSlice(bytes, at, h.Size(), 0, HEADER_SIZE);
    DamageFails(a, states, h, good, i, b);
    entry.flash.bytes := entry.flash.bytes[entry.address + i := b];
    assert entry.Region() == good[i := b];
    SliceOfSlice(entry.flash.bytes, at, h.Size(), 0, HEADER_SIZE);
    verified := entry.VerifyChecksumInFlash();
  }

  lemma DigestAlwaysFits(a: Algorithm, states: iset<nat>, data: Bytes)
    requires TellsApart(a, states)
    ensures |Digest(a, data)| <= 4
  {
    FedStays(a, states, a.initial, data);
  }

  // ---------------------------------------------------------------- sizes

  /** What the store takes for the size of an entry with this alignment is the number of its bytes. */
  lemma SizeInStore(g: KvsEntry.Geometry, h: Header, key: Bytes, value: Bytes)
    requires Fits(h, key, value) && g.alignment == h.AlignmentBytes()
    ensures KvsEntry.EntrySize(g, key, value) == |Image(h, key, value)| == h.Size()
  {
  }

  /** The size that Entry::size computes before there is an entry: it does not round the alignment up. */
  function SizeBefore(alignment: nat, contentSize: nat): nat {
    AlignUp(contentSize, if alignment < 16 then 16 else alignment)
  }

  /** Both sizes are the same for every content exactly if the alignment is at most, or a multiple of, 16 bytes. */
  lemma SizesAgree(alignment: nat)
    requires 0 < alignment
    ensures (forall n :: SizeBefore(alignment, n) == AlignUp(n, AlignUp(alignment, 16)))
      <==> alignment <= 16 || IsMultiple(alignment, 16)
  {
    if 16 < alignment {
      AlignUpIsMultiple(alignment, 16);
      if IsMultiple(alignment, 16) {
        AlignUpIsLeast(alignment, 16, alignment);
      } else {
        assert SizeBefore(alignment, 1) == alignment;
        assert AlignUp(1, AlignUp(alignment, 16)) == AlignUp(alignment, 16);
      }
    }
  }
}
