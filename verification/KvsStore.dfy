/** The key-value store itself: pw_kvs/key_value_store.cc. */
module KvsStore {
  import opened Alignment
  import opened KvsEntry
  import opened KvsFlash
  import opened KvsContents
  import opened KvsSectors
  import opened KvsAccounting
  import opened KvsIndex
  import opened KvsCache
  import opened KvsLookup
  import opened KvsSteps
  import opened KvsRecovery
  import opened KvsProgress
  import opened KvsQuiet
  import opened KvsReclaim
  import opened KvsWrites
  import opened KvsScan
  import opened KvsRebuild

  datatype Initialization = NotInitialized | NeedsMaintenance | Ready

  class KeyValueStore {
    const g: Geometry
    const partition: FlashPartition
    const sectors: Sectors
    const cache: EntryCache
    const gcOnWrite: GarbageCollectOnWrite
    var lastTransactionId: nat
    var initialized: Initialization

    ghost predicate Wired()
      reads this, partition, sectors
    {
      && partition.g == g && sectors.g == g && cache.g == g
      && partition.Valid()
      && |sectors.descriptors| == g.sectorCount
      && sectors.lastNew < g.sectorCount
    }

    ghost predicate Healthy()
      reads this, partition, sectors, cache
    {
      Wired() && HealthyAt(g, Now(), lastTransactionId)
    }

    ghost function Now(): Moment
      reads partition, sectors, cache
    {
      Moment(partition.sectors, sectors.descriptors, cache.entries, partition.history)
    }

    // The store before Init has scanned the partition.
    constructor (g: Geometry, partition: FlashPartition, gcOnWrite: GarbageCollectOnWrite)
      requires partition.g == g && partition.Valid()
      ensures Wired() && initialized == NotInitialized
      ensures this.g == g && this.partition == partition && this.gcOnWrite == gcOnWrite
      ensures fresh(sectors) && fresh(cache)
    {
      this.g := g;
      this.partition := partition;
      this.gcOnWrite := gcOnWrite;
      sectors := new Sectors(g);
      cache := new EntryCache(g);
      lastTransactionId := 0;
      initialized := NotInitialized;
    }

    /** AppendEntry and CopyEntryToSector: write a whole entry and account for it. */
    method AppendEntry(e: Entry, a: Address)
      requires Wired() && Writable(g, partition.sectors, a, e)
      modifies partition, sectors`descriptors
      ensures Wired()
      ensures partition.sectors == Put(old(partition.sectors), a, e)
      ensures partition.history == old(partition.history) + [partition.sectors]
      ensures sectors.descriptors ==
        old(sectors.descriptors)[a.sector := Appended(old(sectors.descriptors)[a.sector], Size(g, e))]
      ensures partition.Erasures() == old(partition.Erasures())
    {
      partition.Write(a, e);
      var d := sectors.descriptors[a.sector];
      sectors.descriptors := sectors.descriptors[a.sector := d.RemoveWritable(Size(g, e)).AddValid(Size(g, e))];
    }

    /** Copies an entry to another sector and points address j of its descriptor there. */
    method RelocateEntry(i: nat, j: nat, reserved: seq<Address>) returns (status: Status, ghost target: Option<nat>)
      requires Healthy() && i < |cache.entries| && j < |cache.entries[i].addresses|
      modifies partition, sectors, cache
      ensures Wired()
      ensures Sound(g, old(partition.sectors), old(cache.entries)[i]) && AllSane(g, old(sectors.descriptors))
      ensures Answer(g, old(sectors.descriptors),
                     Request(true, Size(g, EntryOf(old(partition.sectors), old(cache.entries)[i])),
                             old(cache.entries)[i].addresses + reserved),
                     old(sectors.lastNew), target, sectors.lastNew)
      ensures partition.Erasures() == old(partition.Erasures())
      ensures target == None ==> status == ResourceExhausted && Now() == old(Now())
      ensures target.Some? ==>
        && status == Ok && !InSector(target.value, reserved)
        && partition.history == old(partition.history) + [partition.sectors]
        && Relocation(g, old(partition.sectors), old(sectors.descriptors), old(cache.entries), i, j, target.value,
                      partition.sectors, sectors.descriptors, cache.entries)
    {
      ghost var flash, ds, index := partition.sectors, sectors.descriptors, cache.entries;
      assert Sound(g, flash, index[i]);
      var m := cache.entries[i];
      var e := partition.sectors[m.addresses[0].sector][m.addresses[0].offset];
      AccountsAreSane(g, flash, ds, Live(index));
      var request := Request(true, Size(g, e), m.addresses + reserved);
      var found := sectors.Find(request);
      target := found;
      if found == None {
        return ResourceExhausted, target;
      }
      LiveFits(g, flash, ds, index, i);
      AnswerFits(g, ds, request, old(sectors.lastNew), found, sectors.lastNew);
      SkipsBoth(found.value, m.addresses, reserved);
      RoomAtNextWritable(g, flash, ds, Live(index), found.value, e);
      var a, b := m.addresses[j], NextWritable(g, sectors.descriptors, found.value);
      AppendEntry(e, b);
      sectors.descriptors := sectors.descriptors[a.sector := sectors.descriptors[a.sector].RemoveValid(Size(g, e))];
      cache.SetAddress(i, j, b);
      status := Ok;
    }

    /** Moves address j of a descriptor out of sector s if it is there. */
    method MoveOut(ghost start: Moment, s: nat, i: nat, j: nat, reserved: seq<Address>) returns (status: Status)
      requires Healthy() && s < g.sectorCount && !InSector(s, reserved)
      requires MovingOut(g, reserved, start, Now(), s, i, j) && j < |cache.entries[i].addresses|
      modifies partition, sectors, cache
      ensures Healthy() && status in {Ok, ResourceExhausted}
      ensures MovingOut(g, reserved, start, Now(), s, i, if status == Ok then j + 1 else j)
      ensures |cache.entries| == old(|cache.entries|)
      ensures i < |cache.entries| && |cache.entries[i].addresses| == old(|cache.entries[i].addresses|)
      ensures reserved == [] && Draining(g, start.ds, s) ==> status == Ok
      ensures Emptying(g, old(sectors.descriptors), sectors.descriptors, s)
      ensures partition.Erasures() == old(partition.Erasures())
      ensures status != Ok ==> StuckAt(g, Now(), reserved, i)
    {
      hide Accounts, Agrees, Draining, Drained, Quiet, Relocation, Answer, Emptying, StuckAt;
      ghost var before, lastNew := Now(), sectors.lastNew;
      HealthyIsSane(g, before, lastTransactionId);
      EmptyingBegins(g, before.ds, s);
      if cache.entries[i].addresses[j].sector == s {
        ghost var target;
        status, target := RelocateEntry(i, j, reserved);
        if status == Ok {
          RelocationStepEmpties(g, before, Now(), s, i, j, target.value, lastTransactionId);
        } else {
          NoTargetIsStuck(g, before, reserved, i, j, lastNew, sectors.lastNew);
        }
        if reserved == [] && Draining(g, start.ds, s) {
          MovingOutFinds(g, reserved, start, before, s, i, j, lastNew, target, sectors.lastNew);
        }
        if status == Ok {
          MovingOutMoves(g, reserved, start, before, Now(), s, i, j, target, lastTransactionId);
        }
      } else {
        MovingOutSkips(g, reserved, start, Now(), s, i, j);
        status := Ok;
      }
    }

    /** Moves the copies of one entry out of a sector. */
    method RelocateKeyAddressesInSector(s: nat, i: nat, reserved: seq<Address>)
      returns (status: Status, ghost reached: nat)
      requires Healthy() && i < |cache.entries| && s < g.sectorCount && !InSector(s, reserved)
      modifies partition, sectors, cache
      ensures Healthy() && MovingOut(g, reserved, old(Now()), Now(), s, i, reached)
      ensures i < |cache.entries| && |cache.entries| == old(|cache.entries|)
      ensures status == if reached == |cache.entries[i].addresses| then Ok else ResourceExhausted
      ensures reserved == [] && Draining(g, old(sectors.descriptors), s) ==> status == Ok
      ensures Emptying(g, old(sectors.descriptors), sectors.descriptors, s)
      ensures partition.Erasures() == old(partition.Erasures())
      ensures status != Ok ==> StuckAt(g, Now(), reserved, i)
    {
      hide Accounts, Agrees, MovingOut, Draining, Emptying, StuckAt;
      ghost var start := Now();
      MovingOutBegins(g, reserved, start, s, i);
      HealthyIsSane(g, start, lastTransactionId);
      EmptyingBegins(g, start.ds, s);
      var n := |cache.entries[i].addresses|;
      reached := 0;
      for j := 0 to n
        invariant j == reached
        invariant Healthy() && MovingOut(g, reserved, start, Now(), s, i, j)
        invariant |cache.entries| == |start.index| && |cache.entries[i].addresses| == n
        invariant Emptying(g, start.ds, sectors.descriptors, s) && partition.Erasures() == old(partition.Erasures())
      {
        ghost var before := sectors.descriptors;
        status := MoveOut(start, s, i, j, reserved);
        EmptyingTransitive(g, start.ds, before, sectors.descriptors, s);
        if status != Ok {
          return;
        }
        reached := reached + 1;
      }
      status := Ok;
    }

    /** The first step of GarbageCollectSector: moves the entries of every key. */
    method RelocateAll(ghost start: Moment, s: nat, reserved: seq<Address>) returns (status: Status)
      requires Healthy() && s < g.sectorCount && !InSector(s, reserved)
      requires Collecting(g, reserved, start, Now(), s, 0)
      modifies partition, sectors, cache
      ensures Healthy() && Quiet(g, reserved, start, Now())
      ensures status in {Ok, ResourceExhausted}
      ensures status == Ok ==> Collecting(g, reserved, start, Now(), s, |cache.entries|)
      ensures reserved == [] && Draining(g, start.ds, s) ==> status == Ok
      ensures Emptying(g, old(sectors.descriptors), sectors.descriptors, s)
      ensures partition.Erasures() == old(partition.Erasures())
      ensures status != Ok ==> Stuck(g, Now(), reserved)
    {
      hide Accounts, Agrees, MovingOut, Draining, Quiet, Emptying, StuckAt;
      var n := |cache.entries|;
      HealthyIsSane(g, Now(), lastTransactionId);
      EmptyingBegins(g, sectors.descriptors, s);
      for i := 0 to n
        invariant Healthy() && Collecting(g, reserved, start, Now(), s, i) && |cache.entries| == n
        invariant Emptying(g, old(sectors.descriptors), sectors.descriptors, s)
        invariant partition.Erasures() == old(partition.Erasures())
      {
        ghost var before, reached := Now(), 0;
        status, reached := RelocateKeyAddressesInSector(s, i, reserved);
        EmptyingTransitive(g, old(sectors.descriptors), before.ds, sectors.descriptors, s);
        if status != Ok {
          CollectingStops(g, reserved, start, before, Now(), s, i, reached);
          return;
        }
        HasAddresses(g, Now(), i, lastTransactionId);
        CollectingStep(g, reserved, start, before, Now(), s, i);
      }
      status := Ok;
    }

    /** Moves every live entry out of a sector, then erases it. */
    method GarbageCollectSector(s: nat, reserved: seq<Address>) returns (status: Status)
      requires Healthy() && s < g.sectorCount && !InSector(s, reserved)
      modifies partition, sectors, cache
      ensures Healthy() && Swept(g, reserved, old(Now()), Now())
      ensures status in {Ok, ResourceExhausted}
      ensures status == Ok ==> sectors.descriptors[s].Empty(g)
      ensures reserved == [] && old(Tidy(g, sectors.descriptors)) ==> status == Ok
      ensures status == Ok && !old(sectors.descriptors)[s].Empty(g) ==>
        && Reclaimed(g, old(sectors.descriptors), sectors.descriptors, s)
        && partition.Erasures() == old(partition.Erasures()) + 1
      ensures status != Ok ==> Stuck(g, Now(), reserved) && partition.Erasures() == old(partition.Erasures())
    {
      hide Accounts, Agrees, MovingOut, Draining, DrainingSingly, Collecting, Quiet, Swept, StaysTidy, Single, UniqueIds;
      hide Traced, Regular, Emptying, Reclaimed, Stuck, Tidy;
      ghost var start := Now();
      HealthyIsSane(g, start, lastTransactionId);
      SweptStart(g, reserved, start, lastTransactionId);
      QuietStart(g, reserved, start);
      EmptyingBegins(g, start.ds, s);
      ghost var tidy := reserved == [] && Tidy(g, start.ds);
      if sectors.descriptors[s].validBytes != 0 {
        CollectingBegins(g, reserved, start, s);
        if tidy {
          DrainBegins(g, start.flash, start.ds, start.index, s);
        }
        status := RelocateAll(start, s, reserved);
        if status != Ok {
          QuietIsSwept(g, reserved, start, Now());
          return;
        }
        CollectedHasNoValidBytes(g, reserved, start, Now(), s, lastTransactionId);
      }
      status := Ok;
      EmptyingKeepsTail(g, start.ds, sectors.descriptors, s);
      if !sectors.descriptors[s].Empty(g) {
        ghost var before := Now();
        ErasureReclaims(g, start.ds, before.ds, s);
        Reinitialize(s);
        ErasureIsSwept(g, reserved, start, before, Now(), s, lastTransactionId);
      }
    }

    /** The second step of GarbageCollectSector: erases the sector, which counts as corrupt until that is done. */
    method Reinitialize(s: nat)
      requires Wired() && s < g.sectorCount && sectors.descriptors[s].validBytes == 0
      modifies partition, sectors`descriptors
      ensures Wired() && partition.Erasures() == old(partition.Erasures()) + 1
      ensures Now() == Moment(Wiped(old(partition.sectors), s),
                              old(sectors.descriptors)[s := SectorDescriptor(g.sectorSize, 0)],
                              cache.entries, old(partition.history) + [partition.sectors])
    {
      sectors.descriptors := sectors.descriptors[s := sectors.descriptors[s].Corrupted()];
      partition.Erase(s);
      sectors.descriptors := sectors.descriptors[s := sectors.descriptors[s].(tailFree := g.sectorSize)];
    }

    /** Garbage collects one sector that holds no reserved address, if any is worth it. */
    method GarbageCollect(reserved: seq<Address>) returns (status: Status)
      requires Healthy()
      modifies partition, sectors, cache
      ensures Healthy() && Swept(g, reserved, old(Now()), Now())
      ensures status in {Ok, NotFound, ResourceExhausted}
      ensures status == NotFound ==> Now() == old(Now())
      ensures status == NotFound ==> NothingToCollect(g, sectors.descriptors, reserved)
      ensures reserved == [] && old(Tidy(g, sectors.descriptors)) ==> status != ResourceExhausted
      ensures status == Ok ==> Collected(g, old(sectors.descriptors), sectors.descriptors, reserved)
      ensures status == ResourceExhausted ==> Stuck(g, Now(), reserved)
      ensures partition.Erasures() == old(partition.Erasures()) + if status == Ok then 1 else 0
    {
      hide Accounts, Agrees, Quiet, Single, Victim, Stuck, Reclaimed, AnyStale;
      HealthyIsSane(g, Now(), lastTransactionId);
      SweptStart(g, reserved, Now(), lastTransactionId);
      var sectorToGc := sectors.FindSectorToGarbageCollect(reserved);
      VictimIsWorthwhile(g, sectors.descriptors, reserved, sectors.lastNew, sectorToGc);
      if sectorToGc == None {
        return NotFound;
      }
      VictimIsWorst(g, sectors.descriptors, reserved, sectors.lastNew, sectorToGc.value);
      status := GarbageCollectSector(sectorToGc.value, reserved);
    }

    /**
     Finds a sector for a new entry, garbage collecting as far as the policy allows. It fails only for the reasons that
     GaveUp lists, and in a tidy store with enough to be gained it does not fail at all.
     */
    method GetSectorForWrite(size: nat, reserved: seq<Address>) returns (status: Status, sector: nat)
      requires Healthy() && size <= g.sectorSize
      modifies partition, sectors, cache
      ensures Healthy() && Swept(g, reserved, old(Now()), Now())
      ensures status in {Ok, ResourceExhausted}
      ensures status == Ok ==> RoomFound(g, sectors.descriptors, reserved, size, sector)
      ensures old(RoomAtOnce(g, sectors.descriptors, reserved, size)) ==>
        status == Ok && Now() == old(Now()) && partition.Erasures() == old(partition.Erasures())
      ensures gcOnWrite == Disabled && !old(RoomAtOnce(g, sectors.descriptors, reserved, size)) ==> status == ResourceExhausted
      ensures status == ResourceExhausted ==>
        GaveUp(g, gcOnWrite, Now(), reserved, size, partition.Erasures() - old(partition.Erasures()))
      ensures reserved == [] && old(CertainRoom(g, gcOnWrite, sectors.descriptors, size)) ==> status == Ok
      ensures old(partition.Erasures()) <= partition.Erasures() <= old(partition.Erasures()) + MostCollections(g, gcOnWrite)
    {
      hide Accounts, Agrees, Quiet, Single, Tidy, Swept, RoomAtOnce, RoomFound, Searching, CertainRoom, Stuck, Collected;
      hide GaveUp, MostCollections, NothingToCollect, HealthyAt, Wipes, KeyValueStore.Wired;
      ghost var start, erasures := Now(), partition.Erasures();
      var result, collected := None, 0;
      var doAutoGc := gcOnWrite != Disabled;
      result := FindSpace(size, reserved);
      SearchBegins(g, gcOnWrite, start, reserved, size, result.Some?, lastTransactionId);
      while result == None && doAutoGc
        invariant Healthy()
        invariant result.Some? ==> RoomFound(g, sectors.descriptors, reserved, size, result.value)
        invariant collected <= g.sectorCount + 2 && partition.Erasures() == erasures + collected
        invariant Searching(g, gcOnWrite, start, Now(), reserved, size, result.Some?, collected, doAutoGc)
        decreases g.sectorCount + 3 - collected
      {
        ghost var before := Now();
        SearchCollects(g, gcOnWrite, start, before, reserved, size, collected);
        if gcOnWrite == OneSector {
          doAutoGc := false;
        }
        var gcStatus := GarbageCollect(reserved);
        if gcStatus != Ok {
          SearchBreaksOff(g, gcOnWrite, start, before, Now(), reserved, size, collected);
          return ResourceExhausted, 0;
        }
        result := FindSpace(size, reserved);
        SearchStep(g, gcOnWrite, start, before, Now(), reserved, size, result.Some?, collected, lastTransactionId);
        collected := collected + 1;
        if g.sectorCount + 2 < collected {
          return ResourceExhausted, 0;
        }
      }
      SearchEnds(g, gcOnWrite, start, Now(), reserved, size, result.Some?, collected, doAutoGc);
      if result == None {
        return ResourceExhausted, 0;
      }
      return Ok, result.value;
    }

    /** Sectors::FindSpace. */
    method FindSpace(size: nat, reserved: seq<Address>) returns (found: Option<nat>)
      requires Healthy() && size <= g.sectorSize
      modifies sectors`lastNew
      ensures Healthy() && Now() == old(Now())
      ensures found.Some? ==> RoomFound(g, sectors.descriptors, reserved, size, found.value)
      ensures found.Some? <==> RoomAtOnce(g, sectors.descriptors, reserved, size)
    {
      hide Accounts, Agrees, Answer, RoomAtOnce;
      HealthyIsSane(g, Now(), lastTransactionId);
      found := sectors.Find(Request(false, size, reserved));
      RoomAtOnceIsFound(g, sectors.descriptors, reserved, size, old(sectors.lastNew), found, sectors.lastNew);
      if found.Some? {
        AnswerIsRoom(g, Now(), reserved, size, old(sectors.lastNew), found, sectors.lastNew, lastTransactionId);
      }
    }

    /** Reserves an address for each copy of a new entry, in pairwise distinct sectors. */
    method GetAddressesForWrite(size: nat) returns (status: Status, addresses: seq<Address>)
      requires Healthy() && size <= g.sectorSize
      modifies partition, sectors, cache
      ensures Healthy() && Swept(g, [], old(Now()), Now())
      ensures status in {Ok, ResourceExhausted}
      ensures status == Ok ==>
        && |addresses| == g.redundancy && DistinctSectors(addresses)
        && Awaiting(g, sectors.descriptors, addresses, 0, size)
      ensures status == Ok && old(Tidy(g, sectors.descriptors)) ==>
        exists t :: 0 <= t < |sectors.descriptors| && sectors.descriptors[t].Empty(g) && !InSector(t, addresses)
      ensures g.redundancy == 1 && old(RoomAtOnce(g, sectors.descriptors, [], size)) ==> status == Ok && Now() == old(Now())
      ensures status == ResourceExhausted ==>
        NoPlace(g, gcOnWrite, Now(), size, partition.Erasures() - old(partition.Erasures()))
      ensures old(CertainRoom(g, gcOnWrite, sectors.descriptors, size)) ==> status == Ok
    {
      hide Accounts, Agrees, Quiet, Single, RoomAtOnce, GaveUp, NoPlace, CertainRoom, MostCollections, Wipes;
      ghost var start, erasures := Now(), partition.Erasures();
      OneCopyIfCertain(g, gcOnWrite, start.ds, size);
      ghost var tidy := Tidy(g, start.ds);
      SweptStart(g, [], start, lastTransactionId);
      addresses := [];
      for i := 0 to g.redundancy
        invariant Healthy() && Swept(g, [], start, Now())
        invariant |addresses| == i && DistinctSectors(addresses)
        invariant Awaiting(g, sectors.descriptors, addresses, 0, size)
        invariant g.redundancy == 1 && RoomAtOnce(g, start.ds, [], size) ==> Now() == start
        invariant erasures <= partition.Erasures() && (i == 0 ==> partition.Erasures() == erasures && Now() == start)
        invariant tidy && 0 < i ==>
          exists t :: 0 <= t < |sectors.descriptors| && sectors.descriptors[t].Empty(g) && !InSector(t, addresses)
      {
        ghost var before, own := Now(), partition.Erasures();
        var sector;
        status, sector := GetSectorForWrite(size, addresses);
        if status != Ok {
          GivenUpFor(g, gcOnWrite, Now(), addresses, size, partition.Erasures() - own, partition.Erasures() - erasures);
        }
        ReserveOneMore(g, start, before, Now(), addresses, sector, size, status == Ok, lastTransactionId);
        if status != Ok {
          return;
        }
        addresses := addresses + [NextWritable(g, sectors.descriptors, sector)];
      }
      status := Ok;
    }

    /** CreateOrUpdateKeyDescriptor: points the index at a new entry; the copies of the prior one go stale. */
    method CreateOrUpdateKeyDescriptor(e: Entry, a: Address, i: nat, priorSize: nat)
      requires Wired() && i <= |cache.entries|
      requires i < |cache.entries| ==>
        forall k :: 0 <= k < |cache.entries[i].addresses| ==> cache.entries[i].addresses[k].sector < |sectors.descriptors|
      modifies sectors`descriptors, cache
      ensures Wired()
      ensures cache.entries == Reindexed(g, old(cache.entries), i, e, a)
      ensures i == |old(cache.entries)| ==> sectors.descriptors == old(sectors.descriptors)
      ensures i < |old(cache.entries)| ==>
        sectors.descriptors == Discounted(old(sectors.descriptors), old(cache.entries)[i].addresses,
                                          |old(cache.entries)[i].addresses|, priorSize)
    {
      if i == |cache.entries| {
        cache.AddNew(Descriptor(g, e, []), a);
      } else {
        var addresses := cache.entries[i].addresses;
        for k := 0 to |addresses|
          invariant Wired() && cache.entries == old(cache.entries) && addresses == cache.entries[i].addresses
          invariant |sectors.descriptors| == |old(sectors.descriptors)|
          invariant sectors.descriptors == Discounted(old(sectors.descriptors), addresses, k, priorSize)
        {
          var s := addresses[k].sector;
          sectors.descriptors := sectors.descriptors[s := sectors.descriptors[s].RemoveValid(priorSize)];
        }
        cache.Reset(i, Descriptor(g, e, []), a);
      }
    }

    /** Writes the first copy of e at an address with room and indexes it. */
    method WriteFirstCopy(e: Entry, a: Address, i: nat, priorSize: nat)
      requires Healthy() && PlaceFor(g, partition.sectors, cache.entries, i, e.key)
      requires AwaitingAt(g, sectors.descriptors, a, Size(g, e)) && Storable(e) && g.inUse(e.key)
      requires i < |cache.entries| ==> priorSize == Size(g, EntryOf(partition.sectors, cache.entries[i]))
      modifies partition, sectors`descriptors, cache
      ensures Wired() && FirstCopied(g, old(Now()), Now(), i, e, a.sector)
    {
      ghost var before := Now();
      HealthyIsSane(g, before, lastTransactionId);
      RoomAtNextWritable(g, before.flash, before.ds, Live(before.index), a.sector, e);
      if i < |cache.entries| {
        LiveFits(g, before.flash, before.ds, before.index, i);
      }
      AppendEntry(e, a);
      CreateOrUpdateKeyDescriptor(e, a, i, priorSize);
    }

    method WriteEntry(key: Key, value: Bytes, deleted: bool, i: nat) returns (status: Status)
      requires Healthy() && NoneMissing(g, cache.entries) && lastTransactionId < MAX_TRANSACTION_ID
      requires EntrySize(g, key, value) <= g.sectorSize && !InvalidKey(key) && g.inUse(key) && (deleted ==> value == [])
      requires PlaceFor(g, partition.sectors, cache.entries, i, key)
      modifies this`lastTransactionId, partition, sectors, cache
      ensures Healthy() && NoneMissing(g, cache.entries) && status in {Ok, ResourceExhausted}
      ensures lastTransactionId <= old(lastTransactionId) + 1
      ensures status == Ok ==> exists id :: Written(g, old(Now()), Now(), Entry(key, value, deleted, id))
      ensures FullyCopied(g, partition.sectors)
      ensures status != Ok ==> Swept(g, [], old(Now()), Now())
      ensures g.redundancy == 1 && old(RoomAtOnce(g, sectors.descriptors, [], EntrySize(g, key, value))) ==> status == Ok
      ensures status == ResourceExhausted ==>
        NoPlace(g, gcOnWrite, Now(), EntrySize(g, key, value), partition.Erasures() - old(partition.Erasures()))
      ensures old(CertainRoom(g, gcOnWrite, sectors.descriptors, EntrySize(g, key, value))) ==> status == Ok
      ensures old(IsWritten(partition.sectors, cache.entries, i, value, deleted)) ==>
        status == Ok && Now() == old(Now()) && lastTransactionId == old(lastTransactionId)
      ensures status == Ok && !old(IsWritten(partition.sectors, cache.entries, i, value, deleted)) ==>
        lastTransactionId == old(lastTransactionId) + 1
    {
      hide Agrees, Written, Swept, Tidy, Copying, FirstCopied, ExtraCopied, RoomAtOnce, Awaiting, Accounts, Moved;
      hide NoneMissing, FullyCopied, CertainRoom, NoPlace, Traced, Wipes, Consistent, Quiet;
      ghost var start := Now();
      var priorSize := 0;
      if i < |cache.entries| {
        var m := cache.entries[i];
        var prior := partition.sectors[m.addresses[0].sector][m.addresses[0].offset];
        priorSize := Size(g, prior);
        // The new value matches the prior one: nothing needs to be written.
        if prior.value == value && m.deleted == deleted {
          SameValueIsWritten(g, start, i, Entry(key, value, deleted, 0), lastTransactionId);
          NothingIsMissing(g, start, lastTransactionId);
          return Ok;
        }
      }
      var e := Entry(key, value, deleted, lastTransactionId + 1);
      assert Size(g, e) == EntrySize(g, key, value);
      var addresses;
      status, addresses := GetAddressesForWrite(Size(g, e));
      ghost var before := Now();
      SweptMoves(g, [], start, before);
      MovedKeepsCopies(g, start.flash, start.index, before.flash, before.index);
      if status != Ok {
        NothingIsMissing(g, before, lastTransactionId);
        return;
      }
      PlaceForMoved(g, start, before, i, key);
      WriteCopies(start, e, addresses, i, priorSize);
      NothingIsMissing(g, Now(), lastTransactionId);
    }

    /** Writes the copies of e at the reserved addresses, the first of which makes it count. */
    method WriteCopies(ghost start: Moment, e: Entry, addresses: seq<Address>, i: nat, priorSize: nat)
      requires Healthy() && Swept(g, [], start, Now()) && NoneMissing(g, start.index)
      requires lastTransactionId < MAX_TRANSACTION_ID && e.id == lastTransactionId + 1 && Storable(e) && g.inUse(e.key)
      requires PlaceFor(g, partition.sectors, cache.entries, i, e.key)
      requires i < |cache.entries| ==> priorSize == Size(g, EntryOf(partition.sectors, cache.entries[i]))
      requires |addresses| == g.redundancy && DistinctSectors(addresses)
      requires Awaiting(g, sectors.descriptors, addresses, 0, Size(g, e))
      requires Tidy(g, start.ds) ==>
        exists t :: 0 <= t < |sectors.descriptors| && sectors.descriptors[t].Empty(g) && !InSector(t, addresses)
      modifies this`lastTransactionId, partition, sectors`descriptors, cache
      ensures Healthy() && NoneMissing(g, cache.entries) && Written(g, start, Now(), e)
      ensures lastTransactionId == old(lastTransactionId) + 1
    {
      hide Agrees, Written, Swept, Tidy, Copying, FirstCopied, ExtraCopied, Awaiting, Accounts, NoneMissing;
      ghost var before := Now();
      AwaitingFirst(g, sectors.descriptors, addresses, Size(g, e));
      WriteFirstCopy(e, addresses[0], i, priorSize);
      lastTransactionId := lastTransactionId + 1;
      CopyingBegins(g, start, before, Now(), i, e, addresses, lastTransactionId - 1);
      for k := 1 to g.redundancy
        invariant Wired() && Copying(g, start, Now(), i, e, addresses, k, lastTransactionId)
        invariant lastTransactionId == old(lastTransactionId) + 1
      {
        WriteExtraCopy(start, i, e, addresses, k);
      }
      CopyingIsWritten(g, start, Now(), i, e, addresses, g.redundancy, lastTransactionId);
    }

    method WriteExtraCopy(ghost start: Moment, i: nat, e: Entry, addresses: seq<Address>, k: nat)
      requires Wired() && k < |addresses|
      requires Copying(g, start, Now(), i, e, addresses, k, lastTransactionId)
      modifies partition, sectors`descriptors, cache
      ensures Wired() && Copying(g, start, Now(), i, e, addresses, k + 1, lastTransactionId)
    {
      hide Written, HealthyAt, Sound, DistinctSectors, Awaiting, Erased;
      ghost var before := Now();
      CopyingFits(g, start, before, i, e, addresses, k, lastTransactionId);
      AppendEntry(e, addresses[k]);
      cache.AddNewAddress(i, addresses[k]);
      CopyingStep(g, start, before, Now(), i, e, addresses, k, lastTransactionId);
    }

    // ---------------------------------------------------------------- operations

    /** What holds between operations. Only a store that is ready may be written to. */
    ghost predicate Valid()
      reads this, partition, sectors, cache
    {
      && Wired()
      && (initialized != NotInitialized ==>
            Agrees(g, partition.sectors, cache.entries) && Regular(g, partition.sectors, lastTransactionId))
      && (initialized == Ready ==> Healthy() && NoneMissing(g, cache.entries))
    }

    /**
     EntryCache::Find: looks a key up by its hash, then compares the bytes stored from where the key begins. What
     the buffer for them holds before is not determined. On a healthy flash the first copy answers, for as an
     entry it is valid.
     */
    method FindEntry(key: Key) returns (status: Status, i: nat)
      requires Wired() && Agrees(g, partition.sectors, cache.entries)
      ensures exists stray :: status == Found(g, partition.sectors, cache.entries, key, stray)
      ensures !InvalidKey(key) && !Confused(g, partition.sectors, cache.entries, key) ==>
        && (status == Ok <==> Knows(partition.sectors, key))
        && (status == AlreadyExists <==> Collides(g, partition.sectors, key))
        && (status == Ok ==>
              && i < |cache.entries| && Sound(g, partition.sectors, cache.entries[i])
              && EntryOf(partition.sectors, cache.entries[i]).key == key)
      ensures status == NotFound ==> i == |cache.entries| && forall k :: 0 <= k < i ==> cache.entries[k].hash != g.hash(key)
      ensures status != NotFound ==> i == IndexOf(cache.entries, g.hash(key)) && Sound(g, partition.sectors, cache.entries[i])
    {
      hide Knows, Collides, Confused, FlashFrom;
      if !InvalidKey(key) {
        FoundIsRight(g, partition.sectors, cache.entries, key);
      }
      var stray: Bytes :| true;
      var index := cache.FindIndex(g.hash(key));
      if index == -1 {
        NoSuchHash(g, partition.sectors, cache.entries, key);
        status, i := NotFound, |cache.entries|;
      } else {
        i := index;
        HashFound(g, partition.sectors, cache.entries, i, key);
        assert Sound(g, partition.sectors, cache.entries[i]);
        var read := KeyRead(g, partition.sectors, cache.entries[i].addresses[0], |key|, stray);
        status := if read == key then Ok else AlreadyExists;
      }
      assert status == Found(g, partition.sectors, cache.entries, key, stray);
    }

    /** FindExisting: keys with a colliding hash and deleted keys are not found. */
    method FindExisting(key: Key) returns (status: Status, i: nat)
      requires Wired() && Agrees(g, partition.sectors, cache.entries)
      ensures exists stray :: status == if Exists(g, partition.sectors, cache.entries, key, stray) then Ok else NotFound
      ensures status == Ok ==> i == IndexOf(cache.entries, g.hash(key)) && Sound(g, partition.sectors, cache.entries[i])
      ensures !InvalidKey(key) && !Confused(g, partition.sectors, cache.entries, key) ==>
        && (status == Ok <==> key in Contents(partition.sectors))
        && (status == Ok ==>
              EntryOf(partition.sectors, cache.entries[i]) ==
              Entry(key, Contents(partition.sectors)[key], false, cache.entries[i].id))
    {
      hide Contents, Confused, Found, RightAnswer;
      status, i := FindEntry(key);
      ghost var stray :| status == Found(g, partition.sectors, cache.entries, key, stray);
      if !InvalidKey(key) && !Confused(g, partition.sectors, cache.entries, key) {
        ExistsIsRight(g, partition.sectors, cache.entries, key, stray);
      }
      status := if status == Ok && !cache.entries[i].deleted then Ok else NotFound;
      assert status == if Exists(g, partition.sectors, cache.entries, key, stray) then Ok else NotFound;
    }

    /** Reads up to `size` bytes of a value, starting at `offset`. */
    method Get(key: Key, size: nat, offset: nat) returns (status: Status, bytes: Bytes)
      requires Valid()
      ensures status == InvalidArgument <==> InvalidKey(key)
      ensures status == FailedPrecondition <==> !InvalidKey(key) && initialized == NotInitialized
      ensures !InvalidKey(key) && initialized != NotInitialized ==>
        exists stray :: (status, bytes) == Retrieved(g, partition.sectors, cache.entries, key, size, offset, stray)
      ensures !InvalidKey(key) && initialized != NotInitialized && !Confused(g, partition.sectors, cache.entries, key) ==>
        (status, bytes) == ReadFrom(Contents(partition.sectors), key, size, offset)
      ensures status !in {Ok, ResourceExhausted} ==> bytes == []
    {
      hide Accounts, Contents, Confused, Exists;
      if InvalidKey(key) {
        return InvalidArgument, [];
      }
      if initialized == NotInitialized {
        return FailedPrecondition, [];
      }
      RetrievedIsRight(g, partition.sectors, cache.entries, key, size, offset);
      var i;
      status, i := FindExisting(key);
      ghost var stray :| status == if Exists(g, partition.sectors, cache.entries, key, stray) then Ok else NotFound;
      bytes := [];
      if status == Ok {
        var a := cache.entries[i].addresses[0];
        status, bytes := ReadEntry(partition.sectors[a.sector][a.offset], key, size, offset);
      }
      assert (status, bytes) == Retrieved(g, partition.sectors, cache.entries, key, size, offset, stray);
    }

    /** Entry::ReadValue and, if the value was read whole, Entry::VerifyChecksum over the key asked for. */
    method ReadEntry(e: Entry, key: Key, size: nat, offset: nat) returns (status: Status, bytes: Bytes)
      ensures (status, bytes) == ReadOf(g, e, key, size, offset)
      ensures status in {Ok, OutOfRange, ResourceExhausted, DataLoss}
      ensures status !in {Ok, ResourceExhausted} ==> bytes == []
    {
      if |e.value| < offset {
        return OutOfRange, [];
      }
      var remaining := |e.value| - offset;
      var readSize := if size < remaining then size else remaining;
      bytes := e.value[offset..offset + readSize];
      if readSize != remaining {
        assert bytes == e.value[offset..][..size];
        return ResourceExhausted, bytes;
      }
      assert bytes == e.value[offset..];
      if offset == 0 && e.key != key && !g.verifies(e, key) {
        return DataLoss, [];
      }
      status := Ok;
    }

    /** Sets a key. */
    method PutBytes(key: Key, value: Bytes) returns (status: Status)
      requires Valid() && lastTransactionId < MAX_TRANSACTION_ID
      requires g.inUse(key)
      requires initialized == Ready && !InvalidKey(key) ==> !Confused(g, partition.sectors, cache.entries, key)
      modifies this`lastTransactionId, partition, sectors, cache
      ensures Valid() && lastTransactionId <= old(lastTransactionId) + 1
      ensures status in {Ok, InvalidArgument, FailedPrecondition, AlreadyExists, ResourceExhausted}
      ensures status == InvalidArgument <==>
        InvalidKey(key) || (initialized == Ready && g.sectorSize < EntrySize(g, key, value))
      ensures status == FailedPrecondition <==> !InvalidKey(key) && initialized != Ready
      ensures status == AlreadyExists <==>
        && !InvalidKey(key) && initialized == Ready && EntrySize(g, key, value) <= g.sectorSize
        && old(Collides(g, partition.sectors, key))
      ensures status == Ok ==>
        Became(g, old(Now()), Now(), old(Contents(partition.sectors))[key := value])
      ensures status != Ok ==> Became(g, old(Now()), Now(), old(Contents(partition.sectors)))
      ensures status !in {Ok, ResourceExhausted} ==> Now() == old(Now())
      ensures status == ResourceExhausted ==>
        || (!old(Knows(partition.sectors, key)) && |old(cache.entries)| == g.maxEntries && Now() == old(Now()))
        || (NoPlace(g, gcOnWrite, Now(), EntrySize(g, key, value), partition.Erasures() - old(partition.Erasures()))
            && (1 < g.redundancy || !old(RoomAtOnce(g, sectors.descriptors, [], EntrySize(g, key, value)))))
      ensures !old(Knows(partition.sectors, key)) && |old(cache.entries)| == g.maxEntries ==> status != Ok
      ensures status == ResourceExhausted && old(CertainRoom(g, gcOnWrite, sectors.descriptors, EntrySize(g, key, value))) ==>
        !old(Knows(partition.sectors, key)) && |old(cache.entries)| == g.maxEntries
      ensures old(Reads(partition.sectors, key, value)) && status !in {InvalidArgument, FailedPrecondition} ==>
        status == Ok && Now() == old(Now()) && lastTransactionId == old(lastTransactionId)
    {
      hide Accounts, Agrees, Became, Written, Swept, RoomAtOnce, Confused, Found, NoneMissing, Regular, Retrieved;
      hide Traced, Contents, NoPlace, CertainRoom, Wipes, IsWritten, Reads;
      ghost var before := Now();
      NothingBecame(g, before);
      if InvalidKey(key) {
        return InvalidArgument;
      }
      if initialized != Ready {
        return FailedPrecondition;
      }
      if g.sectorSize < EntrySize(g, key, value) {
        return InvalidArgument;
      }
      var i;
      status, i := FindEntry(key);
      ReadsIsWritten(g, before.flash, before.index, i, key, value);
      if status == AlreadyExists {
        return;
      }
      status := WriteEntryForKey(key, value, i);
    }

    /** WriteEntryForExistingKey, or WriteEntryForNewKey, which needs a place in the index. */
    method WriteEntryForKey(key: Key, value: Bytes, i: nat) returns (status: Status)
      requires Valid() && initialized == Ready && lastTransactionId < MAX_TRANSACTION_ID
      requires EntrySize(g, key, value) <= g.sectorSize && !InvalidKey(key) && g.inUse(key)
      requires i <= |cache.entries|
      requires i == |cache.entries| ==> forall k :: 0 <= k < i ==> cache.entries[k].hash != g.hash(key)
      requires i < |cache.entries| ==>
        Sound(g, partition.sectors, cache.entries[i]) && EntryOf(partition.sectors, cache.entries[i]).key == key
      modifies this`lastTransactionId, partition, sectors, cache
      ensures Valid() && lastTransactionId <= old(lastTransactionId) + 1
      ensures status in {Ok, ResourceExhausted}
      ensures status == Ok ==> Became(g, old(Now()), Now(), old(Contents(partition.sectors))[key := value])
      ensures status != Ok ==> Became(g, old(Now()), Now(), old(Contents(partition.sectors)))
      ensures i == |old(cache.entries)| == g.maxEntries ==> status != Ok && Now() == old(Now())
      ensures status != Ok && i < g.maxEntries ==>
        && NoPlace(g, gcOnWrite, Now(), EntrySize(g, key, value), partition.Erasures() - old(partition.Erasures()))
        && (1 < g.redundancy || !old(RoomAtOnce(g, sectors.descriptors, [], EntrySize(g, key, value))))
        && !old(CertainRoom(g, gcOnWrite, sectors.descriptors, EntrySize(g, key, value)))
      ensures |old(cache.entries)| <= g.maxEntries
      ensures i < |old(cache.entries)| && old(IsWritten(partition.sectors, cache.entries, i, value, false)) ==>
        status == Ok && Now() == old(Now()) && lastTransactionId == old(lastTransactionId)
    {
      hide Accounts, Became, Written, Swept, RoomAtOnce, NoneMissing, Regular, Traced, Contents, NoPlace, CertainRoom, Wipes;
      hide IsWritten, Agrees;
      ghost var before := Now();
      HealthyIsSane(g, before, lastTransactionId);
      IndexWithin(g, before.flash, before.index);
      NothingBecame(g, before);
      if i == |cache.entries| && |cache.entries| == g.maxEntries {
        return ResourceExhausted;
      }
      PlaceIsFree(g, before.flash, before.index, i, key);
      status := WriteEntry(key, value, false, i);
      if status == Ok {
        WrittenBecame(g, before, Now(), key, value, false);
      } else {
        SweptBecame(g, before, Now());
      }
    }

    /** Removes a key by writing a tombstone, which always fits a sector. */
    method Delete(key: Key) returns (status: Status)
      requires Valid() && lastTransactionId < MAX_TRANSACTION_ID
      requires g.inUse(key)
      requires initialized == Ready && !InvalidKey(key) ==> !Confused(g, partition.sectors, cache.entries, key)
      modifies this`lastTransactionId, partition, sectors, cache
      ensures Valid() && lastTransactionId <= old(lastTransactionId) + 1
      ensures status in {Ok, InvalidArgument, FailedPrecondition, NotFound, ResourceExhausted}
      ensures status == InvalidArgument <==> InvalidKey(key)
      ensures status == FailedPrecondition <==> !InvalidKey(key) && initialized != Ready
      ensures status == NotFound <==>
        !InvalidKey(key) && initialized == Ready && key !in old(Contents(partition.sectors))
      ensures status == Ok ==> Became(g, old(Now()), Now(), Without(old(Contents(partition.sectors)), key))
      ensures status != Ok ==> Became(g, old(Now()), Now(), old(Contents(partition.sectors)))
      ensures status !in {Ok, ResourceExhausted} ==> Now() == old(Now())
      ensures status == ResourceExhausted ==>
        && NoPlace(g, gcOnWrite, Now(), EntrySize(g, key, []), partition.Erasures() - old(partition.Erasures()))
        && (1 < g.redundancy || !old(RoomAtOnce(g, sectors.descriptors, [], EntrySize(g, key, []))))
        && !old(CertainRoom(g, gcOnWrite, sectors.descriptors, EntrySize(g, key, [])))
    {
      hide Accounts, Agrees, Became, Written, Swept, RoomAtOnce, Confused, Found, NoneMissing, Regular, Exists, IndexOf;
      hide Contents, Without, Traced, NoPlace, CertainRoom, Wipes, IsWritten;
      ghost var before := Now();
      NothingBecame(g, before);
      if InvalidKey(key) {
        return InvalidArgument;
      }
      if initialized != Ready {
        return FailedPrecondition;
      }
      var i;
      status, i := FindExisting(key);
      if status != Ok {
        return;
      }
      LiveFits(g, before.flash, before.ds, before.index, i);
      TombstoneIsSmaller(g, key, EntryOf(before.flash, before.index[i]).value);
      status := WriteEntry(key, [], true, i);
      if status == Ok {
        WrittenBecame(g, before, Now(), key, [], true);
      } else {
        SweptBecame(g, before, Now());
      }
    }

    /** PartialMaintenance of a store without detected errors: garbage collects one sector. */
    method PartialMaintenance() returns (status: Status)
      requires Valid() && initialized != NeedsMaintenance
      modifies partition, sectors, cache
      ensures Valid()
      ensures status in {Ok, FailedPrecondition, NotFound, ResourceExhausted}
      ensures status == FailedPrecondition <==> initialized == NotInitialized
      ensures Became(g, old(Now()), Now(), old(Contents(partition.sectors)))
      ensures status == NotFound ==> forall s :: 0 <= s < |sectors.descriptors| ==> sectors.descriptors[s].Empty(g)
      ensures old(Tidy(g, sectors.descriptors)) ==> status != ResourceExhausted
      ensures status == Ok ==> Collected(g, old(sectors.descriptors), sectors.descriptors, [])
      ensures status == ResourceExhausted ==> Stuck(g, Now(), [])
      ensures partition.Erasures() == old(partition.Erasures()) + if status == Ok then 1 else 0
    {
      hide Accounts, Agrees, Became, Swept, Tidy, Collected, Stuck, Wipes;
      ghost var before := Now();
      NothingBecame(g, before);
      if initialized == NotInitialized {
        return FailedPrecondition;
      }
      status := GarbageCollect([]);
      SweptBecame(g, before, Now());
      SweptKeepsCopies(g, before, Now());
      NoneReserved(sectors.descriptors);
    }

    // ---------------------------------------------------------------- initialization

    /** Reads and indexes the entry at an address, if there is one. */
    method LoadEntry(a: Address) returns (status: Status, next: nat)
      requires Wired() && a.sector < |partition.sectors|
      modifies cache
      ensures !Has(partition.sectors, a) ==> status == NotFound && cache.entries == old(cache.entries)
      ensures Has(partition.sectors, a) ==>
        && next == After(g, partition.sectors[a.sector], a.offset)
        && (cache.entries, status) == LoadedAtAddress(g, partition.sectors, old(cache.entries), a)
    {
      if a.offset !in partition.sectors[a.sector] {
        return NotFound, 0;
      }
      var e := partition.sectors[a.sector][a.offset];
      next := a.offset + Size(g, e);
      status := cache.AddNewOrUpdateExisting(Descriptor(g, e, []), a);
    }

    /** Looks for the next entry of a sector at aligned offsets. */
    method ScanForEntry(s: nat, start: nat) returns (found: Option<nat>)
      requires Wired() && s < |partition.sectors| && start % 16 == 0
      ensures found.Some? ==> found.value in partition.sectors[s] && start <= found.value < g.sectorSize
      ensures forall p :: p in partition.sectors[s] && p % 16 == 0 && start <= p < g.sectorSize ==>
        found.Some? && found.value <= p
    {
      var offset := AlignUp(start, 16);
      AlignUpAligned(start / 16);
      while offset < g.sectorSize
        invariant start <= offset && offset % 16 == 0
        invariant forall p :: p in partition.sectors[s] && p % 16 == 0 && start <= p < g.sectorSize ==> offset <= p
      {
        if offset in partition.sectors[s] {
          return Some(offset);
        }
        offset := offset + 16;
      }
      return None;
    }

    /** The first pass over one sector: indexes its entries and measures its erased tail. */
    method ScanSector(s: nat) returns (corrupt: bool)
      requires Wired() && s < g.sectorCount && Recoverable(g, partition.sectors)
      requires Scanned(g, partition.sectors, cache.entries, s, 0)
      requires sectors.descriptors[s] == SectorDescriptor(g.sectorSize, 0)
      modifies sectors`descriptors, cache
      ensures Wired() && Scanned(g, partition.sectors, cache.entries, s + 1, 0)
      ensures sectors.descriptors == old(sectors.descriptors)[s := sectors.descriptors[s]]
      ensures corrupt ==> !Clean(partition.sectors)
      ensures !corrupt ==> Measured(g, partition.sectors[s], sectors.descriptors[s])
    {
      hide Scanned, Recoverable, Clean, Tiled, Loaded, Traced, LoadedAtAddress, Size;
      ghost var m := partition.sectors[s];
      ghost var end := EndOfSector(g, partition.sectors, s);
      var o, corruptBytes := 0, 0;
      StartOfSector(g, m, end);
      while o < g.sectorSize
        invariant Wired() && Position(g, m, o, end) && o <= end <= g.sectorSize
        invariant Scanned(g, partition.sectors, cache.entries, s, o)
        invariant sectors.descriptors == old(sectors.descriptors)[s := SectorDescriptor(g.sectorSize - o, 0)]
        invariant 0 <= corruptBytes && (0 < corruptBytes ==> !Clean(partition.sectors))
      {
        if o in m {
          ScanStep(g, partition.sectors, cache.entries, s, o, end);
          NextPosition(g, m, o, end);
        }
        var status, next := LoadEntry(Address(s, o));
        if status == NotFound {
          break;
        }
        if status != Ok {
          var found := ScanForEntry(s, o + 16);
          ScanFinds(g, m, o, end, found);
          if found == None {
            corruptBytes := corruptBytes + g.sectorSize - o;
            break;
          }
          next := found.value;
          corruptBytes := corruptBytes + next - o;
        }
        o := next;
        sectors.descriptors := sectors.descriptors[s := sectors.descriptors[s].(tailFree := g.sectorSize - o)];
      }
      ScanNextSector(g, partition.sectors, cache.entries, s, end);
      corrupt := 0 < corruptBytes;
      assert !corrupt ==> Used(g, sectors.descriptors[s]) == end;
      if corrupt {
        sectors.descriptors := sectors.descriptors[s := sectors.descriptors[s].Corrupted()];
      }
    }

    /** The first pass over all sectors. */
    method ScanSectors() returns (corrupt: bool, emptyFound: bool)
      requires Wired() && Recoverable(g, partition.sectors)
      modifies sectors, cache
      ensures Wired() && Agrees(g, partition.sectors, cache.entries)
      ensures forall a :: Has(partition.sectors, a) ==> ListedInAll(g, partition.sectors, cache.entries, a)
      ensures corrupt ==> !Clean(partition.sectors)
      ensures !corrupt ==> Accounts(g, partition.sectors, sectors.descriptors, {})
      ensures !corrupt ==> (emptyFound <==> HasErasedSector(partition.sectors))
    {
      hide Scanned, Clean, Tiled, Accounts, Agrees, Recoverable, ListedInAll;
      sectors.descriptors := seq(g.sectorCount, _ => SectorDescriptor(g.sectorSize, 0));
      sectors.lastNew := 0;
      cache.entries := [];
      corrupt, emptyFound := false, false;
      ScanStarts(g, partition.sectors);
      for s := 0 to g.sectorCount
        invariant Wired() && Scanned(g, partition.sectors, cache.entries, s, 0)
        invariant forall t :: s <= t < g.sectorCount ==> sectors.descriptors[t] == SectorDescriptor(g.sectorSize, 0)
        invariant corrupt ==> !Clean(partition.sectors)
        invariant !corrupt ==> MeasuredBefore(g, partition.sectors, sectors.descriptors, s)
        invariant !corrupt ==> (emptyFound <==> exists t :: 0 <= t < s && partition.sectors[t] == map[])
      {
        var corruptHere := ScanSector(s);
        corrupt := corrupt || corruptHere;
        if !corrupt {
          EmptyIsErased(g, partition.sectors[s], sectors.descriptors[s]);
        }
        emptyFound := emptyFound || sectors.descriptors[s].Empty(g);
      }
      RecoverableHasUniqueIds(g, partition.sectors);
      ScanDone(g, partition.sectors, cache.entries);
      if !corrupt {
        MeasuredIsExact(g, partition.sectors, sectors.descriptors);
      }
    }

    /** The valid bytes of one descriptor's copies. */
    method CountDescriptor(i: nat, ghost exact: bool)
      requires Wired() && Indexed(g, partition.sectors, cache.entries) && i < |cache.entries|
      requires exact ==> Accounts(g, partition.sectors, sectors.descriptors, CountedTo(cache.entries, i, 0))
      modifies sectors`descriptors
      ensures Wired()
      ensures exact ==> Accounts(g, partition.sectors, sectors.descriptors, CountedTo(cache.entries, i + 1, 0))
      ensures forall t :: 0 <= t < |sectors.descriptors| ==>
        sectors.descriptors[t].tailFree == old(sectors.descriptors[t].tailFree)
    {
      hide Accounts, CountedTo;
      var addresses := cache.entries[i].addresses;
      for j := 0 to |addresses|
        invariant Wired()
        invariant exact ==> Accounts(g, partition.sectors, sectors.descriptors, CountedTo(cache.entries, i, j))
        invariant forall t :: 0 <= t < |sectors.descriptors| ==>
          sectors.descriptors[t].tailFree == old(sectors.descriptors[t].tailFree)
      {
        var a := addresses[j];
        CountNextAddress(g, partition.sectors, cache.entries, i, j);
        if exact {
          AccountsCount(g, partition.sectors, sectors.descriptors, CountedTo(cache.entries, i, j), a);
        }
        var size := Size(g, partition.sectors[a.sector][a.offset]);
        sectors.descriptors := sectors.descriptors[a.sector := sectors.descriptors[a.sector].AddValid(size)];
      }
      CountNextDescriptor(cache.entries, i);
    }

    /** The second pass: counts valid bytes and missing copies, and finds the highest transaction id. */
    method CountValidBytes(ghost exact: bool) returns (copiesMissing: nat)
      requires Wired() && Agrees(g, partition.sectors, cache.entries) && lastTransactionId == 0
      requires exact ==> Accounts(g, partition.sectors, sectors.descriptors, {})
      modifies sectors, this`lastTransactionId
      ensures Wired()
      ensures exact ==> Accounts(g, partition.sectors, sectors.descriptors, Live(cache.entries))
      ensures copiesMissing == 0 <==> NoneMissing(g, cache.entries)
      ensures Highest(cache.entries, |cache.entries|, lastTransactionId)
      ensures NewestIn(cache.entries, lastTransactionId, sectors.lastNew)
      ensures forall t :: 0 <= t < |sectors.descriptors| ==>
        sectors.descriptors[t].tailFree == old(sectors.descriptors[t].tailFree)
    {
      hide Accounts, CountedTo, Live, Highest, NoneMissing, NewestIn, Traced, Indexed, Covered, UniqueIds;
      NothingNewest(cache.entries);
      copiesMissing := 0;
      var newestKey := Address(0, 0);
      CountBegins(g, cache.entries);
      for i := 0 to |cache.entries|
        invariant Wired() && newestKey.sector < g.sectorCount
        invariant exact ==> Accounts(g, partition.sectors, sectors.descriptors, CountedTo(cache.entries, i, 0))
        invariant copiesMissing == 0 <==> NoneMissing(g, cache.entries[..i])
        invariant Highest(cache.entries, i, lastTransactionId)
        invariant NewestIn(cache.entries, lastTransactionId, newestKey.sector)
        invariant forall t :: 0 <= t < |sectors.descriptors| ==>
          sectors.descriptors[t].tailFree == old(sectors.descriptors[t].tailFree)
      {
        var m := cache.entries[i];
        LastAddressWithin(g, partition.sectors, cache.entries, i);
        if |m.addresses| < g.redundancy {
          copiesMissing := copiesMissing + 1;
        }
        CountDescriptor(i, exact);
        NoneMissingStep(g, cache.entries, i);
        HighestStep(cache.entries, i, lastTransactionId);
        if lastTransactionId < m.id {
          lastTransactionId := m.id;
          newestKey := m.addresses[|m.addresses| - 1];
          NewestAt(cache.entries, i);
        }
      }
      assert cache.entries[..|cache.entries|] == cache.entries;
      sectors.lastNew := newestKey.sector;
    }

    /** InitializeMetadata: rebuilds index and accounting from flash, and says whether anything is amiss. */
    method InitializeMetadata() returns (errorDetected: bool)
      requires Wired() && Recoverable(g, partition.sectors) && lastTransactionId == 0
      modifies sectors, cache, this`lastTransactionId
      ensures Wired() && Agrees(g, partition.sectors, cache.entries)
      ensures Regular(g, partition.sectors, lastTransactionId)
      ensures lastTransactionId == 0 || exists a :: Has(partition.sectors, a) && At(partition.sectors, a).id == lastTransactionId
      ensures !errorDetected ==> Healthy() && NoneMissing(g, cache.entries)
      ensures !errorDetected ==> HasErasedSector(partition.sectors) && FullyCopied(g, partition.sectors)
      ensures Clean(partition.sectors) && HasErasedSector(partition.sectors) && FullyCopied(g, partition.sectors) ==> !errorDetected
      ensures !errorDetected && g.redundancy == 1 ==> Tidy(g, sectors.descriptors)
      ensures NewestIn(cache.entries, lastTransactionId, sectors.lastNew)
    {
      hide Scanned, Clean, Tiled, Accounts, Agrees, ListedInAll, FullyCopied, NoneMissing, Recoverable, Regular, Single;
      hide HasEmpty, NewestIn;
      var corrupt, emptyFound := ScanSectors();
      var copiesMissing := CountValidBytes(!corrupt);
      RecoverableHasUniqueIds(g, partition.sectors);
      HighestId(g, partition.sectors, cache.entries, lastTransactionId);
      errorDetected := corrupt || !emptyFound || 0 < copiesMissing;
      if NoneMissing(g, cache.entries) {
        FullIndexMeansCopied(g, partition.sectors, cache.entries);
      }
      if FullyCopied(g, partition.sectors) {
        CopiedMeansFullIndex(g, partition.sectors, cache.entries);
      }
      if !errorDetected {
        ErasedIsEmpty(g, partition.sectors, sectors.descriptors, Live(cache.entries));
      }
    }

    /**
     Init, without automatic repair: from every recoverable flash the store comes up meaning what the flash
     means, and it is ready for writing exactly when, besides, flash is in order.
     */
    method Init() returns (status: Status)
      requires Wired() && Recoverable(g, partition.sectors)
      modifies this`initialized, this`lastTransactionId, sectors, cache
      ensures Valid() && initialized != NotInitialized
      ensures status == if initialized == Ready then Ok else DataLoss
      ensures Regular(g, partition.sectors, lastTransactionId)
      ensures lastTransactionId == 0 || exists a :: Has(partition.sectors, a) && At(partition.sectors, a).id == lastTransactionId
      ensures initialized == Ready ==> HasErasedSector(partition.sectors) && FullyCopied(g, partition.sectors)
      ensures Clean(partition.sectors) && HasErasedSector(partition.sectors) && FullyCopied(g, partition.sectors) ==>
        initialized == Ready
      ensures initialized == Ready && g.redundancy == 1 ==> Tidy(g, sectors.descriptors)
    {
      hide Clean, Accounts, FullyCopied, Recoverable, Regular, Single, HasEmpty, HasErasedSector;
      initialized := NotInitialized;
      lastTransactionId := 0;
      var errorDetected := InitializeMetadata();
      if errorDetected {
        initialized := NeedsMaintenance;
        return DataLoss;
      }
      initialized := Ready;
      return Ok;
    }
  }

  /** The entry of descriptor i has this value, or is a tombstone as this one would be. */
  ghost predicate IsWritten(flash: Flash, index: Index, i: nat, value: Bytes, deleted: bool) {
    && i < |index| && 0 < |index[i].addresses| && Has(flash, index[i].addresses[0])
    && EntryOf(flash, index[i]).value == value && index[i].deleted == deleted
  }

  lemma RecoverableHasUniqueIds(g: Geometry, flash: Flash)
    requires Recoverable(g, flash)
    ensures UniqueIds(flash) && Regular(g, flash, MAX_TRANSACTION_ID)
  {
  }

  lemma EndOfSector(g: Geometry, flash: Flash, s: nat) returns (end: nat)
    requires Recoverable(g, flash) && s < |flash|
    ensures end <= g.sectorSize && Tiled(g, flash[s], end)
  {
    assert TiledSector(g, flash[s]);
    end :| 0 <= end <= g.sectorSize && Tiled(g, flash[s], end);
  }

  /** The entry that a scan for aligned offsets finds is the next one. */
  lemma ScanFinds(g: Geometry, m: Sector, o: nat, end: nat, found: Option<nat>)
    requires Position(g, m, o, end) && o in m && end <= g.sectorSize
    requires found.Some? ==> found.value in m && o + 16 <= found.value
    requires forall p :: p in m && p % 16 == 0 && o + 16 <= p < g.sectorSize ==> found.Some? && found.value <= p
    ensures found == if After(g, m, o) in m then Some(After(g, m, o)) else None
    ensures found == None ==> After(g, m, o) == end
  {
    NextPosition(g, m, o, end);
    if After(g, m, o) in m {
      BelowEnd(g, m, end, After(g, m, o));
    }
    if found.Some? {
      BelowEnd(g, m, end, found.value);
    }
  }

  lemma StartOfSector(g: Geometry, m: Sector, end: nat)
    requires Tiled(g, m, end)
    ensures Position(g, m, 0, end)
  {
  }

  /** Sector s is that of the last copy of an entry with this id, or the first one if there is no entry yet. */
  ghost predicate NewestIn(index: Index, id: nat, s: nat) {
    if id == 0 then s == 0
    else exists i :: 0 <= i < |index| && index[i].id == id && EndsIn(index[i].addresses, s)
  }

  predicate EndsIn(addresses: seq<Address>, s: nat) {
    addresses != [] && addresses[|addresses| - 1].sector == s
  }

  lemma LastAddressWithin(g: Geometry, flash: Flash, index: Index, i: nat)
    requires Indexed(g, flash, index) && i < |index|
    ensures 0 < |index[i].addresses| <= g.redundancy
    ensures index[i].addresses[|index[i].addresses| - 1].sector < |flash|
  {
    assert Sound(g, flash, index[i]);
  }

  lemma NothingNewest(index: Index)
    ensures NewestIn(index, 0, 0)
  {
  }

  lemma NewestAt(index: Index, i: nat)
    requires i < |index| && 0 < |index[i].addresses| && 0 < index[i].id
    ensures NewestIn(index, index[i].id, index[i].addresses[|index[i].addresses| - 1].sector)
  {
  }

  lemma ErasedIsEmpty(g: Geometry, flash: Flash, ds: Descriptors, live: set<Address>)
    requires Accounts(g, flash, ds, live) && HasErasedSector(flash)
    ensures HasEmpty(g, ds)
  {
    var s :| 0 <= s < |flash| && flash[s] == map[];
    assert Exact(g, flash[s], ds[s], s, live);
    EmptyIsErased(g, flash[s], ds[s]);
    assert ds[s].Empty(g);
  }

  lemma ReserveOneMore(
    g: Geometry, start: Moment, a: Moment, b: Moment, reserved: seq<Address>, s: nat, size: nat, found: bool, lastId: nat)
    requires Swept(g, [], start, a) && Swept(g, reserved, a, b) && HealthyAt(g, a, lastId)
    requires |reserved| < g.redundancy && DistinctSectors(reserved) && Awaiting(g, a.ds, reserved, 0, size)
    requires found ==> RoomFound(g, b.ds, reserved, size, s)
    ensures Swept(g, [], start, b)
    ensures found ==>
      && s < |b.ds| && b.ds[s].tailFree <= g.sectorSize
      && var more := reserved + [NextWritable(g, b.ds, s)];
      && DistinctSectors(more) && Awaiting(g, b.ds, more, 0, size)
      && (Tidy(g, start.ds) ==> exists t :: 0 <= t < |b.ds| && b.ds[t].Empty(g) && !InSector(t, more))
  {
    hide Accounts, Agrees, Moved, Single;
    HealthyIsSane(g, a, lastId);
    QuietForFewer(g, reserved, a, b);
    ReservedStayAwaiting(g, reserved, a, b, size);
    SweptTransitive(g, [], start, a, b);
    if found {
      AwaitingOneMore(g, b.ds, reserved, s, size);
      if Tidy(g, start.ds) {
        assert reserved == [] && Tidy(g, b.ds);
        var t :| 0 <= t < |b.ds| && t != s && b.ds[t].Empty(g);
        assert !InSector(t, [NextWritable(g, b.ds, s)]);
        assert reserved + [NextWritable(g, b.ds, s)] == [NextWritable(g, b.ds, s)];
      }
    }
  }

  lemma SkipsBoth(s: nat, a: seq<Address>, b: seq<Address>)
    requires !InSector(s, a + b)
    ensures !InSector(s, a) && !InSector(s, b)
  {
    forall k | 0 <= k < |a|
      ensures a[k].sector != s
    {
      assert (a + b)[k] == a[k];
    }
    forall k | 0 <= k < |b|
      ensures b[k].sector != s
    {
      assert (a + b)[|a| + k] == b[k];
    }
  }

  /** A live entry is no larger than a sector. */
  lemma LiveFits(g: Geometry, flash: Flash, ds: Descriptors, index: Index, i: nat)
    requires Consistent(g, flash, ds, index) && i < |index|
    ensures Sound(g, flash, index[i])
    ensures Size(g, EntryOf(flash, index[i])) <= g.sectorSize
    ensures forall j :: 0 <= j < |index[i].addresses| ==> index[i].addresses[j].sector < |ds|
  {
    assert Sound(g, flash, index[i]);
    assert index[i].addresses[0] in Live(index);
    AccountsRemove(g, flash, ds, Live(index), index[i].addresses[0]);
    AccountsAreSane(g, flash, ds, Live(index));
  }

  /**
   From a to b the contents became `after`. Every state flash was in on the way is recoverable and means
   the one or the other, and a tidy store stays tidy.
   */
  ghost predicate Became(g: Geometry, a: Moment, b: Moment, after: imap<Key, Bytes>) {
    && a.history <= b.history
    && Contents(b.flash) == after
    && Passed(g, b.history, |a.history|, Contents(a.flash), after)
    && StaysTidy(g, a, b)
  }

  lemma NothingBecame(g: Geometry, m: Moment)
    ensures Became(g, m, m, Contents(m.flash))
  {
  }

  lemma SweptBecame(g: Geometry, a: Moment, b: Moment)
    requires Swept(g, [], a, b)
    ensures Became(g, a, b, Contents(a.flash))
  {
  }

  /** A healthy store whose index misses no copy has all copies of every newest entry on flash. */
  lemma NothingIsMissing(g: Geometry, m: Moment, lastId: nat)
    requires HealthyAt(g, m, lastId) && NoneMissing(g, m.index)
    ensures FullyCopied(g, m.flash)
  {
    FullIndexMeansCopied(g, m.flash, m.index);
  }

  lemma SweptKeepsCopies(g: Geometry, a: Moment, b: Moment)
    requires Swept(g, [], a, b)
    ensures NoneMissing(g, a.index) ==> NoneMissing(g, b.index)
  {
    if NoneMissing(g, a.index) {
      MovedKeepsCopies(g, a.flash, a.index, b.flash, b.index);
    }
  }

  lemma WrittenBecame(g: Geometry, a: Moment, b: Moment, key: Key, value: Bytes, deleted: bool)
    requires exists id :: Written(g, a, b, Entry(key, value, deleted, id))
    ensures Became(g, a, b, if deleted then Without(Contents(a.flash), key) else Contents(a.flash)[key := value])
  {
    var id :| Written(g, a, b, Entry(key, value, deleted, id));
  }

  /** The contents have this value for the key. */
  ghost predicate Reads(flash: Flash, key: Key, value: Bytes) {
    key in Contents(flash) && Contents(flash)[key] == value
  }

  /** Then the descriptor found for the key has it too. */
  lemma ReadsIsWritten(g: Geometry, flash: Flash, index: Index, i: nat, key: Key, value: Bytes)
    requires Agrees(g, flash, index)
    ensures Reads(flash, key, value) ==> Knows(flash, key)
    ensures Reads(flash, key, value) && i < |index| && Sound(g, flash, index[i]) && EntryOf(flash, index[i]).key == key ==>
      IsWritten(flash, index, i, value, false)
  {
    if i < |index| {
      LookupIsContents(g, flash, index, i);
    }
  }

  lemma IndexWithin(g: Geometry, flash: Flash, index: Index)
    requires Agrees(g, flash, index)
    ensures |index| <= g.maxEntries
  {
  }

  lemma PlaceIsFree(g: Geometry, flash: Flash, index: Index, i: nat, key: Key)
    requires Agrees(g, flash, index) && i <= |index|
    requires i == |index| ==> |index| != g.maxEntries && forall k :: 0 <= k < |index| ==> index[k].hash != g.hash(key)
    requires i < |index| ==> Sound(g, flash, index[i]) && EntryOf(flash, index[i]).key == key
    ensures PlaceFor(g, flash, index, i, key)
  {
  }

  lemma TombstoneIsSmaller(g: Geometry, key: Key, value: Bytes)
    ensures EntrySize(g, key, []) <= EntrySize(g, key, value)
  {
    AlignUpMonotone(HEADER_SIZE + |key|, HEADER_SIZE + |key| + |value|, g.alignment);
  }

  lemma NoneReserved(ds: Descriptors)
    ensures forall s :: 0 <= s < |ds| ==> !InSector(s, [])
  {
  }
}
