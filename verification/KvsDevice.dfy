/**
 The key-value store on the bytes of its device: a run of the store is a run of the device, and the bytes a lookup
 compares are those of the device.
 */
module KvsDevice {
  import opened Division
  import opened KvsEntry
  import opened KvsFlash
  import opened KvsLookup
  import opened KvsCache
  import opened KvsRecovery
  import opened KvsQuiet
  import opened KvsRebuild
  import opened KvsStore
  import opened KvsBytes
  import opened KvsRuns
  import F = EntryFormat
  import FlashMemory

  /** The headers of this format are what the store's parameters say. */
  ghost predicate HeadersAgree(g: Geometry, f: F.Format) {
    g.alignment <= 4096 && forall e :: Storable(e) ==> KvsLookup.HeaderBytes(g, e) == F.HeaderBytes(HeaderOf(g, f, e))
  }

  lemma ImagesAgree(g: Geometry, f: F.Format, e: Entry)
    requires HeadersAgree(g, f) && Storable(e)
    ensures KvsLookup.Image(g, e) == ImageOf(g, f, e)
  {
    hide F.HeaderBytes;
    ImageOfSize(g, f, e);
  }

  /** The bytes of a sector from an entry on. */
  lemma {:induction false} SectorFromIsRegion(g: Geometry, f: F.Format, region: Bytes, m: Sector, end: nat, o: nat)
    requires HeadersAgree(g, f) && Spells(g, f, region, m) && Tiled(g, m, end) && end <= g.sectorSize
    requires o in m || o == end
    ensures SectorFrom(g, m, o) == region[o..]
    decreases if o in m then end - o else 0
  {
    hide ImageOf, KvsLookup.Image, Storable, HeadersAgree, Tiled, Size;
    if o in m {
      NextTile(g, m, end, o);
      assert Spelled(g, f, region, o, m[o]);
      ImagesAgree(g, f, m[o]);
      var next := After(g, m, o);
      if next < g.sectorSize {
        SectorFromIsRegion(g, f, region, m, end, next);
      }
      assert region[o..] == region[o..next] + region[next..];
    } else {
      TailIsErased(g, f, region, m, end);
    }
  }

  lemma NextTile(g: Geometry, m: Sector, end: nat, o: nat)
    requires Tiled(g, m, end) && o in m
    ensures o < After(g, m, o) <= end && (After(g, m, o) in m || After(g, m, o) == end)
  {
    BelowEnd(g, m, end, o);
  }

  lemma TailIsErased(g: Geometry, f: F.Format, region: Bytes, m: Sector, end: nat)
    requires Spells(g, f, region, m) && Tiled(g, m, end) && end <= g.sectorSize
    ensures end !in m
    ensures region[end..] == seq(g.sectorSize - end, _ => FlashMemory.ERASED)
  {
    hide Tiled, Spelled, Size;
    TiledIsFreeBehind(g, m, end, 1);
    forall k | end <= k < g.sectorSize
      ensures region[k] == FlashMemory.ERASED
    {
      NothingBehind(g, m, end, k);
    }
  }

  lemma NothingBehind(g: Geometry, m: Sector, end: nat, k: nat)
    requires Tiled(g, m, end) && end <= k
    ensures Unwritten(g, m, k)
  {
  }

  /** The bytes of the partition from a sector on. */
  lemma {:induction false} SectorsFromAreBytes(g: Geometry, f: F.Format, bytes: Bytes, flash: Flash, s: nat)
    requires HeadersAgree(g, f) && Represents(g, f, bytes, flash) && s <= |flash|
    requires forall t :: 0 <= t < |flash| ==> TiledSector(g, flash[t])
    ensures Base(g, s) <= |bytes| && SectorsFrom(g, flash, s) == bytes[Base(g, s)..]
    decreases |flash| - s
  {
    hide SectorFrom, Spells, Tiled, HeadersAgree;
    if s < |flash| {
      SectorsFromAreBytes(g, f, bytes, flash, s + 1);
      assert SpellsSector(g, f, bytes, s, flash[s]) && TiledSector(g, flash[s]);
      var end :| 0 <= end <= g.sectorSize && Tiled(g, flash[s], end);
      FromTheStart(g, f, Region(g, bytes, s), flash[s], end);
      assert Base(g, s + 1) == Base(g, s) + g.sectorSize;
      assert bytes[Base(g, s)..] == Region(g, bytes, s) + bytes[Base(g, s + 1)..];
    }
  }

  lemma FromTheStart(g: Geometry, f: F.Format, region: Bytes, m: Sector, end: nat)
    requires HeadersAgree(g, f) && Spells(g, f, region, m) && Tiled(g, m, end) && end <= g.sectorSize
    ensures SectorFrom(g, m, 0) == region
  {
    SectorFromIsRegion(g, f, region, m, end, 0);
    assert region[0..] == region;
  }

  /** The stored bytes of an entry and all that follow are the bytes of the device from its address on. */
  lemma StoredBytes(g: Geometry, f: F.Format, bytes: Bytes, flash: Flash, a: Address)
    requires HeadersAgree(g, f) && Represents(g, f, bytes, flash) && Has(flash, a)
    requires forall t :: 0 <= t < |flash| ==> TiledSector(g, flash[t])
    ensures Base(g, a.sector) + a.offset <= |bytes|
    ensures FlashFrom(g, flash, a) == bytes[Base(g, a.sector) + a.offset..]
  {
    hide SectorFrom, SectorsFrom, Spells, HeadersAgree;
    var s := a.sector;
    assert SpellsSector(g, f, bytes, s, flash[s]) && TiledSector(g, flash[s]);
    var end :| 0 <= end <= g.sectorSize && Tiled(g, flash[s], end);
    BelowEnd(g, flash[s], end, a.offset);
    SectorFromIsRegion(g, f, Region(g, bytes, s), flash[s], end, a.offset);
    SectorsFromAreBytes(g, f, bytes, flash, s + 1);
    JoinsUp(g, bytes, s, a.offset);
  }

  lemma JoinsUp(g: Geometry, bytes: Bytes, s: nat, o: nat)
    requires Base(g, s + 1) <= |bytes| && o <= g.sectorSize
    ensures Base(g, s + 1) == Base(g, s) + g.sectorSize
    ensures Region(g, bytes, s)[o..] + bytes[Base(g, s + 1)..] == bytes[Base(g, s) + o..]
  {
  }

  /** The key a lookup compares is read from the device, or lies behind its end. */
  lemma KeyReadFromDevice(g: Geometry, f: F.Format, bytes: Bytes, flash: Flash, a: Address, n: nat, stray: Bytes)
    requires HeadersAgree(g, f) && Represents(g, f, bytes, flash) && Has(flash, a) && 0 < n <= MAX_KEY_LENGTH
    requires forall t :: 0 <= t < |flash| ==> TiledSector(g, flash[t])
    ensures var at := Base(g, a.sector) + a.offset + HEADER_SIZE;
      KeyRead(g, flash, a, n, stray) == if at + n <= |bytes| then bytes[at..at + n] else stray
  {
    hide FlashFrom, Base, HeadersAgree, Represents;
    StoredBytes(g, f, bytes, flash, a);
  }

  /**
   A run of the store on a device whose bytes spell out its sectors. The device goes through states that follow from
   one another by aligned writes of entries onto erased bytes and by erasing sectors; each of them spells out what
   the store takes its flash to be at that point.
   */
  method RunOnDevice(store: KeyValueStore, ops: seq<Operation>, f: F.Format, ghost bytes: Bytes)
    returns (statuses: seq<Status>, ghost states: seq<Bytes>)
    requires store.Valid() && store.initialized == Ready
    requires KeysApart(store.g) && forall op :: op in ops ==> op.Allowed(store.g)
    requires store.lastTransactionId + |ops| <= MAX_TRANSACTION_ID
    requires IsMultiple(store.g.sectorSize, store.g.alignment) && store.g.alignment <= 4096
    requires Represents(store.g, f, bytes, store.partition.sectors)
    modifies store`lastTransactionId, store.partition, store.sectors, store.cache
    ensures store.Valid() && |statuses| == |ops| && Ran(store.g, old(store.Now()), store.Now(), ops, statuses)
    ensures var from := |old(store.partition.history)| - 1;
      && old(store.partition.history) <= store.partition.history && from <= |store.partition.changes|
      && Mirrors(store.g, f, store.partition.history[from..], store.partition.changes[from..], states)
    ensures states[0] == bytes && Represents(store.g, f, states[|states| - 1], store.partition.sectors)
  {
    hide KeysApart, Represents, Effects, IsMultiple, Ran, KeyValueStore.Valid, FullyCopied, Traced, Mirrors;
    ValidIsTraced(store);
    ghost var before, from := store.Now(), |store.partition.history| - 1;
    statuses := Run(store, ops);
    ghost var history, changes := store.partition.history, store.partition.changes;
    ValidIsTraced(store);
    RanGrows(store.g, before, store.Now(), ops, statuses);
    assert history[from] == before.flash;
    TracedFrom(store.g, history, changes, from);
    states := HistoryOnBytes(store.g, f, history[from..], changes[from..], bytes);
    MirrorsEnd(store.g, f, history[from..], changes[from..], states);
  }

  lemma ValidIsTraced(store: KeyValueStore)
    requires store.Valid()
    ensures store.partition.g == store.g && Traced(store.g, store.partition.history, store.partition.changes)
    ensures |store.partition.history| == |store.partition.changes| + 1
    ensures store.partition.history[|store.partition.history| - 1] == store.partition.sectors
  {
    hide Possible, KeyValueStore.Healthy;
  }

  lemma RanGrows(g: Geometry, a: Moment, b: Moment, ops: seq<Operation>, statuses: seq<Status>)
    requires |ops| == |statuses| && Ran(g, a, b, ops, statuses)
    ensures a.history <= b.history
  {
  }

  lemma MirrorsEnd(g: Geometry, f: F.Format, history: seq<Flash>, changes: seq<Change>, states: seq<Bytes>)
    requires Mirrors(g, f, history, changes, states)
    ensures |history| == |states| == |changes| + 1
    ensures Represents(g, f, states[|states| - 1], history[|history| - 1])
  {
    hide Represents, OnDevice;
  }

  lemma TracedFrom(g: Geometry, history: seq<Flash>, changes: seq<Change>, from: nat)
    requires Traced(g, history, changes) && from < |history|
    ensures Traced(g, history[from..], changes[from..])
  {
    hide Possible;
    var history', changes' := history[from..], changes[from..];
    forall i | 0 <= i < |changes'|
      ensures Possible(g, history'[i], changes'[i]) && history'[i + 1] == Changed(g, history'[i], changes'[i])
    {
      assert history'[i] == history[from + i] && history'[i + 1] == history[from + i + 1] && changes'[i] == changes[from + i];
    }
  }
}
