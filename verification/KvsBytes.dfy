/**
 Down to bytes: the sectors of whole entries that the key-value store is modelled on, spelled out in a flash
 partition. Writing an entry, loading one and erasing a sector do to the bytes what they do to the sectors.
 */
module KvsBytes {
  import opened Alignment
  import opened Division
  import opened Stream
  import opened FlashMemory
  import opened KvsEntry
  import opened KvsFlash
  import F = EntryFormat

  function HeaderOf(g: Geometry, f: F.Format, e: Entry): F.Header
    requires Storable(e) && g.alignment <= 4096
  {
    var h := F.Header(f.magic, 0, g.alignment / 16 - 1, |e.key|,
                      if e.deleted then F.DELETED_VALUE_LENGTH else |e.value|, e.id);
    h.(checksum := F.ChecksumOf(f.checksum, h, e.key, e.value))
  }

  /** The bytes of an entry in flash. */
  function ImageOf(g: Geometry, f: F.Format, e: Entry): Bytes
    requires Storable(e) && g.alignment <= 4096
  {
    F.Image(HeaderOf(g, f, e), e.key, e.value)
  }

  lemma ImageOfSize(g: Geometry, f: F.Format, e: Entry)
    requires Storable(e) && g.alignment <= 4096
    ensures F.Fits(HeaderOf(g, f, e), e.key, e.value) && HeaderOf(g, f, e).AlignmentBytes() == g.alignment
    ensures |ImageOf(g, f, e)| == Size(g, e) == HeaderOf(g, f, e).Size()
  {
  }

  ghost predicate Spelled(g: Geometry, f: F.Format, region: Bytes, o: nat, e: Entry) {
    && Storable(e) && g.alignment <= 4096
    && o + Size(g, e) <= |region| && region[o..o + Size(g, e)] == ImageOf(g, f, e)
  }

  /** No entry of the sector holds this byte. */
  ghost predicate Unwritten(g: Geometry, m: Sector, i: nat) {
    forall o :: o in m ==> i < o || After(g, m, o) <= i
  }

  /** A sector's bytes: each of its entries, and nothing but erased bytes elsewhere. */
  ghost predicate Spells(g: Geometry, f: F.Format, region: Bytes, m: Sector) {
    && |region| == g.sectorSize
    && (forall o :: o in m ==> Spelled(g, f, region, o, m[o]))
    && (forall i :: 0 <= i < g.sectorSize && Unwritten(g, m, i) ==> region[i] == ERASED)
  }

  lemma SpellsErased(g: Geometry, f: F.Format, region: Bytes)
    requires |region| == g.sectorSize && BlankBetween(region, 0, g.sectorSize)
    ensures Spells(g, f, region, map[])
  {
  }

  /** An entry stays spelled out when bytes elsewhere change. */
  lemma SpelledElsewhere(g: Geometry, f: F.Format, region: Bytes, region': Bytes, o: nat, e: Entry, lo: nat, hi: nat)
    requires Spelled(g, f, region, o, e) && SameOutside(region, region', lo, hi) && (o + Size(g, e) <= lo || hi <= o)
    ensures Spelled(g, f, region', o, e)
  {
    hide ImageOf, Size;
    OutsideSlice(region, region', lo, hi, o, Size(g, e));
  }

  /** The bytes of one entry more, where they are erased. */
  lemma SpellsOneMore(g: Geometry, f: F.Format, region: Bytes, region': Bytes, m: Sector, at: nat, e: Entry)
    requires Spells(g, f, region, m) && Storable(e) && g.alignment <= 4096 && at + Size(g, e) <= g.sectorSize
    requires Erased(g, m, at, Size(g, e))
    requires SameOutside(region, region', at, at + Size(g, e)) && region'[at..at + Size(g, e)] == ImageOf(g, f, e)
    ensures Spells(g, f, region', Insert(m, at, e))
  {
    hide ImageOf, Size, Storable;
    var m' := Insert(m, at, e);
    forall o | o in m'
      ensures Spelled(g, f, region', o, m'[o])
    {
      if o != at {
        assert After(g, m, o) <= at || at + Size(g, e) <= o;
        SpelledElsewhere(g, f, region, region', o, m[o], at, at + Size(g, e));
      }
    }
    forall i | 0 <= i < g.sectorSize && Unwritten(g, m', i)
      ensures region'[i] == ERASED
    {
      StillUnwritten(g, m, at, e, i);
      OutsideSlice(region, region', at, at + Size(g, e), i, 1);
      assert region[i..i + 1][0] == region'[i..i + 1][0];
    }
  }

  lemma StillUnwritten(g: Geometry, m: Sector, at: nat, e: Entry, i: nat)
    requires Erased(g, m, at, Size(g, e)) && Unwritten(g, Insert(m, at, e), i)
    ensures Unwritten(g, m, i) && (i < at || at + Size(g, e) <= i)
  {
    hide Size;
    var m' := Insert(m, at, e);
    assert at in m' && After(g, m', at) == at + Size(g, e);
    forall o | o in m
      ensures i < o || After(g, m, o) <= i
    {
      assert After(g, m, o) <= at || at + Size(g, e) <= o;
      assert o in m' && After(g, m', o) == After(g, m, o);
    }
  }

  // ---------------------------------------------------------------- the partition

  function Base(g: Geometry, s: nat): nat {
    s * g.sectorSize
  }

  lemma BasesApart(g: Geometry, s: nat, t: nat)
    ensures s < t ==> Base(g, s) + g.sectorSize <= Base(g, t)
  {
    MultipleOrder(s, t, g.sectorSize);
  }

  function Region(g: Geometry, bytes: Bytes, s: nat): Bytes
    requires Base(g, s) + g.sectorSize <= |bytes|
  {
    bytes[Base(g, s)..Base(g, s) + g.sectorSize]
  }

  ghost predicate SpellsSector(g: Geometry, f: F.Format, bytes: Bytes, s: nat, m: Sector) {
    Base(g, s) + g.sectorSize <= |bytes| && Spells(g, f, Region(g, bytes, s), m)
  }

  /** The partition's bytes spell out these sectors. */
  ghost predicate Represents(g: Geometry, f: F.Format, bytes: Bytes, sectors: KvsFlash.Flash) {
    && |sectors| == g.sectorCount && |bytes| == Base(g, g.sectorCount)
    && forall s :: 0 <= s < |sectors| ==> SpellsSector(g, f, bytes, s, sectors[s])
  }

  /** Flash that is aligned as the store takes it to be. */
  predicate Suits(g: Geometry, flash: FlashMemory.Flash) {
    && 0 < flash.alignment <= F.WRITE_BUFFER_SIZE && g.alignment == AlignUp(flash.alignment, 16) <= F.WRITE_BUFFER_SIZE
    && IsMultiple(g.alignment, flash.alignment) && IsMultiple(g.sectorSize, g.alignment)
  }

  /** Changes inside of one sector leave the bytes of the others. */
  lemma OtherRegions(g: Geometry, before: Bytes, after: Bytes, s: nat, lo: nat, hi: nat, t: nat)
    requires SameOutside(before, after, Base(g, s) + lo, Base(g, s) + hi) && hi <= g.sectorSize
    requires Base(g, t) + g.sectorSize <= |before| && s != t
    ensures |after| == |before| && Region(g, after, t) == Region(g, before, t)
  {
    BasesApart(g, s, t);
    BasesApart(g, t, s);
    OutsideSlice(before, after, Base(g, s) + lo, Base(g, s) + hi, Base(g, t), g.sectorSize);
  }

  /** One sector is replaced by another, and its bytes by those of the other. */
  lemma OneSectorChanged(
    g: Geometry, f: F.Format, before: Bytes, after: Bytes, sectors: KvsFlash.Flash, s: nat, m: Sector, lo: nat, hi: nat)
    requires Represents(g, f, before, sectors) && s < |sectors|
    requires SameOutside(before, after, Base(g, s) + lo, Base(g, s) + hi) && hi <= g.sectorSize
    requires SpellsSector(g, f, after, s, m)
    ensures Represents(g, f, after, sectors[s := m])
  {
    hide Spells, SameOutside;
    OutsideSize(before, after, Base(g, s) + lo, Base(g, s) + hi);
    var sectors' := sectors[s := m];
    forall t | 0 <= t < |sectors|
      ensures SpellsSector(g, f, after, t, sectors'[t])
    {
      if t != s {
        assert SpellsSector(g, f, before, t, sectors[t]);
        OtherRegions(g, before, after, s, lo, hi, t);
      }
    }
  }

  /** The bytes of a part of a sector, in the partition and in the sector. */
  lemma InRegion(g: Geometry, bytes: Bytes, s: nat, o: nat, n: nat)
    requires Base(g, s) + g.sectorSize <= |bytes| && o + n <= g.sectorSize
    ensures bytes[Base(g, s) + o..Base(g, s) + o + n] == Region(g, bytes, s)[o..o + n]
  {
    hide Base;
    F.SliceOfSlice(bytes, Base(g, s), g.sectorSize, o, o + n);
  }

  lemma {:induction false} BaseIsMultiple(g: Geometry, s: nat, d: nat)
    requires IsMultiple(g.sectorSize, d)
    ensures IsMultiple(Base(g, s), d)
  {
    if s == 0 {
      MultipleOfItself(d);
    } else {
      BaseIsMultiple(g, s - 1, d);
      SumOfMultiples(Base(g, s - 1), g.sectorSize, d);
      assert Base(g, s) == Base(g, s - 1) + g.sectorSize;
    }
  }

  /** The bytes of sector s after an entry was written into it. */
  lemma SectorOneMore(
    g: Geometry, f: F.Format, before: Bytes, after: Bytes, s: nat, m: Sector, at: nat, e: Entry)
    requires SpellsSector(g, f, before, s, m)
    requires Storable(e) && g.alignment <= 4096 && at + Size(g, e) <= g.sectorSize && Erased(g, m, at, Size(g, e))
    requires SameOutside(before, after, Base(g, s) + at, Base(g, s) + at + Size(g, e))
    requires after[Base(g, s) + at..Base(g, s) + at + Size(g, e)] == ImageOf(g, f, e)
    ensures SpellsSector(g, f, after, s, Insert(m, at, e))
  {
    hide ImageOf, Spells, Size, Erased;
    var lo, hi := Base(g, s) + at, Base(g, s) + at + Size(g, e);
    var region, region' := Region(g, before, s), Region(g, after, s);
    InRegion(g, after, s, at, Size(g, e));
    OutsideSlice(before, after, lo, hi, Base(g, s), at);
    OutsideSlice(before, after, lo, hi, hi, g.sectorSize - at - Size(g, e));
    InRegion(g, before, s, 0, at);
    InRegion(g, after, s, 0, at);
    InRegion(g, before, s, at + Size(g, e), g.sectorSize - at - Size(g, e));
    InRegion(g, after, s, at + Size(g, e), g.sectorSize - at - Size(g, e));
    assert region[..at] == region[0..at] && region'[..at] == region'[0..at];
    assert region[at + Size(g, e)..] == region[at + Size(g, e)..g.sectorSize];
    assert region'[at + Size(g, e)..] == region'[at + Size(g, e)..g.sectorSize];
    assert SameOutside(region, region', at, at + Size(g, e));
    SpellsOneMore(g, f, region, region', m, at, e);
  }

  // ---------------------------------------------------------------- changes

  function ErasedSector(g: Geometry): (bytes: Bytes)
    ensures |bytes| == g.sectorSize
  {
    seq(g.sectorSize, _ => ERASED)
  }

  /** What a change does to the bytes of the device, within what the device asks for. */
  ghost predicate OnDevice(g: Geometry, f: F.Format, before: Bytes, after: Bytes, c: Change) {
    match c
    case Program(a, e) =>
      var at := Base(g, a.sector) + a.offset;
      && Storable(e) && g.alignment <= 4096 && at + Size(g, e) <= |before|
      && IsMultiple(at, g.alignment) && BlankBetween(before, at, at + Size(g, e))
      && |ImageOf(g, f, e)| == Size(g, e) && after == Spliced(before, at, ImageOf(g, f, e))
    case Wipe(s) =>
      && Base(g, s) + g.sectorSize <= |before|
      && after == Spliced(before, Base(g, s), ErasedSector(g))
  }

  /** The erased part of a sector is erased in its bytes. */
  lemma ErasedIsBlank(g: Geometry, f: F.Format, bytes: Bytes, s: nat, m: Sector, at: nat, n: nat)
    requires SpellsSector(g, f, bytes, s, m) && Erased(g, m, at, n) && at + n <= g.sectorSize
    ensures BlankBetween(bytes, Base(g, s) + at, Base(g, s) + at + n)
  {
    hide Base;
    forall i | Base(g, s) + at <= i < Base(g, s) + at + n
      ensures bytes[i] == ERASED
    {
      var k := i - Base(g, s);
      assert Unwritten(g, m, k);
      assert bytes[i] == Region(g, bytes, s)[k];
    }
  }

  lemma AddressIsMultiple(g: Geometry, s: nat, offset: nat)
    requires IsMultiple(g.sectorSize, g.alignment) && IsMultiple(offset, g.alignment)
    ensures IsMultiple(Base(g, s) + offset, g.alignment)
  {
    hide IsMultiple, Base;
    BaseIsMultiple(g, s, g.alignment);
    SumOfMultiples(Base(g, s), offset, g.alignment);
  }

  /** A change that is possible to sectors can be made to their bytes, and spells out the changed sectors. */
  lemma ChangeOnBytes(g: Geometry, f: F.Format, bytes: Bytes, sectors: KvsFlash.Flash, c: Change) returns (after: Bytes)
    requires Represents(g, f, bytes, sectors) && Possible(g, sectors, c)
    requires IsMultiple(g.sectorSize, g.alignment) && g.alignment <= 4096
    ensures OnDevice(g, f, bytes, after, c) && Represents(g, f, after, Changed(g, sectors, c))
  {
    hide Spells, SameOutside, Base, ImageOf, Spliced, IsMultiple, BlankBetween, Erased;
    match c
    case Program(a, e) =>
      var s, at := a.sector, Base(g, a.sector) + a.offset;
      assert SpellsSector(g, f, bytes, s, sectors[s]);
      ImageOfSize(g, f, e);
      AddressIsMultiple(g, s, a.offset);
      ErasedIsBlank(g, f, bytes, s, sectors[s], a.offset, Size(g, e));
      after := Spliced(bytes, at, ImageOf(g, f, e));
      SplicedOutside(bytes, at, ImageOf(g, f, e), at, at + Size(g, e));
      SplicedInside(bytes, at, ImageOf(g, f, e));
      SectorOneMore(g, f, bytes, after, s, sectors[s], a.offset, e);
      OneSectorChanged(g, f, bytes, after, sectors, s, Insert(sectors[s], a.offset, e), a.offset, a.offset + Size(g, e));
    case Wipe(s) =>
      assert SpellsSector(g, f, bytes, s, sectors[s]);
      after := Spliced(bytes, Base(g, s), ErasedSector(g));
      SplicedOutside(bytes, Base(g, s), ErasedSector(g), Base(g, s), Base(g, s) + g.sectorSize);
      SplicedInside(bytes, Base(g, s), ErasedSector(g));
      ErasedSectorIsBlank(g, after, s);
      ErasedRegion(g, f, after, s);
      OneSectorChanged(g, f, bytes, after, sectors, s, map[], 0, g.sectorSize);
  }

  lemma SplicedInside(b: Bytes, at: nat, data: Bytes)
    requires at + |data| <= |b|
    ensures Spliced(b, at, data)[at..at + |data|] == data
  {
  }

  lemma ErasedSectorIsBlank(g: Geometry, bytes: Bytes, s: nat)
    requires Base(g, s) + g.sectorSize <= |bytes|
    requires bytes[Base(g, s)..Base(g, s) + g.sectorSize] == ErasedSector(g)
    ensures BlankBetween(bytes, Base(g, s), Base(g, s) + g.sectorSize)
  {
    hide Base;
    forall i | Base(g, s) <= i < Base(g, s) + g.sectorSize
      ensures bytes[i] == ERASED
    {
      assert bytes[i] == ErasedSector(g)[i - Base(g, s)];
    }
  }

  lemma ErasedRegion(g: Geometry, f: F.Format, bytes: Bytes, s: nat)
    requires Base(g, s) + g.sectorSize <= |bytes| && BlankBetween(bytes, Base(g, s), Base(g, s) + g.sectorSize)
    ensures SpellsSector(g, f, bytes, s, map[])
  {
    SpellsErased(g, f, Region(g, bytes, s));
  }

  /** The states a device goes through when the same changes are made to its bytes. */
  ghost predicate Mirrors(g: Geometry, f: F.Format, history: seq<KvsFlash.Flash>, changes: seq<Change>, states: seq<Bytes>) {
    && |history| == |states| == |changes| + 1
    && (forall i :: 0 <= i < |states| ==> Represents(g, f, states[i], history[i]))
    && (forall i :: 0 <= i < |changes| ==> OnDevice(g, f, states[i], states[i + 1], changes[i]))
  }

  /** Every history of sectors is one of bytes. */
  lemma {:induction false} HistoryOnBytes(
    g: Geometry, f: F.Format, history: seq<KvsFlash.Flash>, changes: seq<Change>, bytes: Bytes) returns (states: seq<Bytes>)
    requires Traced(g, history, changes) && Represents(g, f, bytes, history[0])
    requires IsMultiple(g.sectorSize, g.alignment) && g.alignment <= 4096
    ensures Mirrors(g, f, history, changes, states) && states[0] == bytes
  {
    hide Represents, OnDevice, Possible, IsMultiple;
    if changes == [] {
      states := [bytes];
    } else {
      var n := |changes| - 1;
      assert Traced(g, history[..n + 1], changes[..n]);
      var shorter := HistoryOnBytes(g, f, history[..n + 1], changes[..n], bytes);
      assert Possible(g, history[n], changes[n]) && history[n + 1] == Changed(g, history[n], changes[n]);
      assert Represents(g, f, shorter[n], history[..n + 1][n]);
      var after := ChangeOnBytes(g, f, shorter[n], history[n], changes[n]);
      states := shorter + [after];
      MirrorsOneMore(g, f, history, changes, shorter, after);
    }
  }

  lemma MirrorsOneMore(
    g: Geometry, f: F.Format, history: seq<KvsFlash.Flash>, changes: seq<Change>, states: seq<Bytes>, after: Bytes)
    requires 0 < |changes| && |history| == |changes| + 1
    requires var n := |changes| - 1;
      && Mirrors(g, f, history[..n + 1], changes[..n], states)
      && Represents(g, f, after, history[n + 1]) && OnDevice(g, f, states[n], after, changes[n])
    ensures Mirrors(g, f, history, changes, states + [after])
  {
    hide Represents, OnDevice;
    var n, states' := |changes| - 1, states + [after];
    forall i | 0 <= i < |states'|
      ensures Represents(g, f, states'[i], history[i])
    {
      if i <= n {
        assert history[i] == history[..n + 1][i];
      }
    }
    forall i | 0 <= i < |changes|
      ensures OnDevice(g, f, states'[i], states'[i + 1], changes[i])
    {
      if i < n {
        assert changes[i] == changes[..n][i];
      }
    }
  }

  // ---------------------------------------------------------------- the device

  /** FlashPartition.Write, on bytes: an entry is written where the sector is erased. */
  method WriteEntry(
    flash: FlashMemory.Flash, g: Geometry, f: F.Format, ghost sectors: KvsFlash.Flash, a: Address, e: Entry)
    returns (written: bool)
    requires Suits(g, flash) && Represents(g, f, flash.bytes, sectors) && Writable(g, sectors, a, e)
    modifies flash
    ensures written ==> OnDevice(g, f, old(flash.bytes), flash.bytes, Program(a, e))
    ensures written ==> Represents(g, f, flash.bytes, Put(sectors, a, e))
    ensures flash.reliable ==> written
  {
    hide Base, Spells, IsMultiple, SameOutside, Spliced, BlankBetween, ImageOf, Erased;
    ghost var before, s, m := flash.bytes, a.sector, sectors[a.sector];
    assert SpellsSector(g, f, before, s, m);
    AddressIsMultiple(g, s, a.offset);
    ErasedIsBlank(g, f, before, s, m, a.offset, Size(g, e));
    written := StoreEntry(flash, g, f, a, e);
    if written {
      SectorOneMore(g, f, before, flash.bytes, s, m, a.offset, e);
      OneSectorChanged(g, f, before, flash.bytes, sectors, s, Insert(m, a.offset, e), a.offset, a.offset + Size(g, e));
      ImageOfSize(g, f, e);
      SplicedFrom(before, flash.bytes, Base(g, s) + a.offset, ImageOf(g, f, e));
    }
  }

  lemma SplicedFrom(before: Bytes, after: Bytes, at: nat, data: Bytes)
    requires SameOutside(before, after, at, at + |data|) && after[at..at + |data|] == data
    ensures after == Spliced(before, at, data)
  {
    assert after == after[..at] + after[at..at + |data|] + after[at + |data|..];
  }

  method StoreEntry(flash: FlashMemory.Flash, g: Geometry, f: F.Format, a: Address, e: Entry) returns (written: bool)
    requires Suits(g, flash) && Storable(e)
    requires Base(g, a.sector) + a.offset + Size(g, e) <= |flash.bytes|
    requires IsMultiple(Base(g, a.sector) + a.offset, g.alignment)
    requires BlankBetween(flash.bytes, Base(g, a.sector) + a.offset, Base(g, a.sector) + a.offset + Size(g, e))
    modifies flash
    ensures var at := Base(g, a.sector) + a.offset;
      && SameOutside(old(flash.bytes), flash.bytes, at, at + Size(g, e))
      && (written ==> flash.bytes[at..at + Size(g, e)] == ImageOf(g, f, e))
    ensures flash.reliable ==> written
  {
    hide Base, F.Image, IsMultiple, SameOutside, BlankBetween;
    var entry;
    written, entry := F.Store(flash, Base(g, a.sector) + a.offset, f, e.key, e.value, e.deleted, e.id);
    SameHeader(g, f, e, entry.header);
  }

  /** A header is determined by format, alignment and entry. */
  lemma SameHeader(g: Geometry, f: F.Format, e: Entry, h: F.Header)
    requires Storable(e) && g.alignment <= 4096 && h.AlignmentBytes() == g.alignment
    requires h.magic == f.magic && h.id == e.id && h.Deleted() == e.deleted && F.Fits(h, e.key, e.value)
    requires h.checksum == F.ChecksumOf(f.checksum, h, e.key, e.value)
    ensures h == HeaderOf(g, f, e) && h.Size() == Size(g, e)
  {
    assert h.(checksum := 0) == HeaderOf(g, f, e).(checksum := 0);
  }

  /** FlashPartition.Erase, on bytes. */
  method EraseSector(flash: FlashMemory.Flash, g: Geometry, f: F.Format, ghost sectors: KvsFlash.Flash, s: nat)
    returns (erased: bool)
    requires Represents(g, f, flash.bytes, sectors) && s < |sectors|
    modifies flash
    ensures erased ==> OnDevice(g, f, old(flash.bytes), flash.bytes, Wipe(s))
    ensures erased ==> Represents(g, f, flash.bytes, Wiped(sectors, s))
    ensures flash.reliable ==> erased
  {
    hide SameOutside, Spells, Base, Spliced, BlankBetween;
    assert SpellsSector(g, f, flash.bytes, s, sectors[s]);
    ghost var before := flash.bytes;
    erased := flash.Erase(Base(g, s), g.sectorSize);
    if erased {
      OutsideSize(before, flash.bytes, Base(g, s), Base(g, s) + g.sectorSize);
      ErasedRegion(g, f, flash.bytes, s);
      OneSectorChanged(g, f, before, flash.bytes, sectors, s, map[], 0, g.sectorSize);
      BlankIsErasedSector(g, flash.bytes, s);
      SplicedFrom(before, flash.bytes, Base(g, s), ErasedSector(g));
    }
  }

  lemma BlankIsErasedSector(g: Geometry, bytes: Bytes, s: nat)
    requires Base(g, s) + g.sectorSize <= |bytes| && BlankBetween(bytes, Base(g, s), Base(g, s) + g.sectorSize)
    ensures bytes[Base(g, s)..Base(g, s) + g.sectorSize] == ErasedSector(g)
  {
  }

  /** The formats of the store know this one, and the digest of the entry fits its header. */
  ghost predicate Readable(g: Geometry, f: F.Format, formats: seq<F.Format>, e: Entry) {
    && F.FindFormat(formats, f.magic) == F.Some(f) && f.magic != F.ERASED_MAGIC
    && Storable(e) && g.alignment <= 4096
    && F.DigestFits(f.checksum, HeaderOf(g, f, e), e.key, e.value)
  }

  /**
   LoadEntry, on bytes: at the offset of an entry that very entry is read, passes its check, and says where the
   next one begins; where the erased tail begins nothing is found.
   */
  method LoadEntry(
    flash: FlashMemory.Flash, g: Geometry, f: F.Format, formats: seq<F.Format>, ghost m: Sector, s: nat, o: nat, ghost end: nat)
    returns (status: F.Status, e: Entry, next: nat)
    requires SpellsSector(g, f, flash.bytes, s, m) && Tiled(g, m, end)
    requires o in m || (o == end && end + HEADER_SIZE <= g.sectorSize)
    requires o in m ==> Readable(g, f, formats, m[o])
    ensures o in m ==> status == F.Ok && e == m[o] && next == After(g, m, o)
    ensures o !in m ==> status == F.NotFound
  {
    hide F.Image, Base, F.ParseHeader, F.HeaderBytes, F.DigestFits, F.ChecksumOf, Spells;
    e, next := Entry([], [], true, 0), o;
    var address := Base(g, s) + o;
    if o in m {
      EntryThere(g, f, flash.bytes, s, m, o);
    } else {
      NothingThere(g, f, flash.bytes, s, m, end);
    }
    var back;
    status, back := F.Read(flash, address, formats);
    if status != F.Ok {
      return;
    }
    var key, value;
    status, key, value := ReadBack(back, m[o].key, m[o].value);
    e := Entry(key, value, back.header.Deleted(), back.header.id);
    next := o + back.header.Size();
  }

  method ReadBack(entry: F.Entry, ghost key: Bytes, ghost value: Bytes) returns (verified: F.Status, key': Bytes, value': Bytes)
    requires entry.OnFlash(entry.address, key, value) && 0 < |key| <= MAX_KEY_LENGTH
    requires entry.header.checksum == F.ChecksumOf(entry.algorithm, entry.header, key, value)
    requires F.DigestFits(entry.algorithm, entry.header, key, value)
    ensures verified == F.Ok && key' == key && value' == value
  {
    hide F.Image, F.ParseHeader, F.HeaderBytes, F.DigestFits, F.ChecksumOf;
    F.WrittenVerifies(entry, key, value);
    F.ContentAt(entry.flash.bytes, entry.address, entry.header, key, value);
    var readStatus;
    readStatus, key' := entry.ReadKey();
    verified := entry.VerifyChecksumInFlash();
    readStatus, value' := entry.ReadValue(entry.header.ValueBytes(), 0);
  }

  lemma EntryThere(g: Geometry, f: F.Format, bytes: Bytes, s: nat, m: Sector, o: nat)
    requires SpellsSector(g, f, bytes, s, m) && o in m
    ensures Storable(m[o]) && g.alignment <= 4096
    ensures var h := HeaderOf(g, f, m[o]);
      && F.Fits(h, m[o].key, m[o].value) && h.Size() == Size(g, m[o]) && Base(g, s) + o + h.Size() <= |bytes|
      && h.checksum == F.ChecksumOf(f.checksum, h, m[o].key, m[o].value)
      && bytes[Base(g, s) + o..Base(g, s) + o + h.Size()] == F.Image(h, m[o].key, m[o].value)
      && F.ParseHeader(bytes[Base(g, s) + o..Base(g, s) + o + HEADER_SIZE]) == h
  {
    hide F.Image, F.ParseHeader, F.HeaderBytes;
    assert Spelled(g, f, Region(g, bytes, s), o, m[o]);
    ImageOfSize(g, f, m[o]);
    InRegion(g, bytes, s, o, Size(g, m[o]));
    F.ContentAt(bytes, Base(g, s) + o, HeaderOf(g, f, m[o]), m[o].key, m[o].value);
    F.HeaderRoundTrip(HeaderOf(g, f, m[o]));
  }

  lemma NothingThere(g: Geometry, f: F.Format, bytes: Bytes, s: nat, m: Sector, end: nat)
    requires SpellsSector(g, f, bytes, s, m) && Tiled(g, m, end)
    requires end + HEADER_SIZE <= g.sectorSize
    ensures F.ParseHeader(bytes[Base(g, s) + end..Base(g, s) + end + HEADER_SIZE]).magic == F.ERASED_MAGIC
  {
    hide F.ParseHeader, Base;
    TiledIsFreeBehind(g, m, end, HEADER_SIZE);
    ErasedIsBlank(g, f, bytes, s, m, end, HEADER_SIZE);
    var header := bytes[Base(g, s) + end..Base(g, s) + end + HEADER_SIZE];
    F.MagicErased(header);
    forall i | 0 <= i < 4
      ensures header[..4][i] == ERASED
    {
      assert header[..4][i] == bytes[Base(g, s) + end + i];
    }
  }
}
