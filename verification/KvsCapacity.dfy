/** How much a store takes for certain: with as many keys and as large entries as these, it is never full. */
module KvsCapacity {
  import opened KvsEntry
  import opened KvsFlash
  import opened KvsContents
  import opened KvsSectors
  import opened KvsCache
  import opened KvsLookup
  import opened KvsAccounting
  import opened KvsIndex
  import opened KvsSteps
  import opened KvsRecovery
  import opened KvsProgress
  import opened KvsQuiet
  import opened KvsReclaim
  import opened KvsScan
  import opened KvsStore
  import opened KvsRuns

  /** All sectors but one hold as many entries of this size as there are keys, each sector one less than it might. */
  predicate Sufficient(g: Geometry, bound: nat) {
    && g.redundancy == 1 && bound <= g.sectorSize
    && g.maxEntries * bound <= (g.sectorCount - 1) * (g.sectorSize - bound)
  }

  /** The users' keys are no more than the index has places, and even their tombstones are within the bound. */
  ghost predicate FewKeys(g: Geometry, keys: set<Key>, bound: nat) {
    && |keys| <= g.maxEntries
    && forall key :: g.inUse(key) ==> key in keys && EntrySize(g, key, []) <= bound
  }

  ghost predicate Modest(g: Geometry, m: imap<Key, Bytes>, bound: nat) {
    forall key :: key in m ==> EntrySize(g, key, m[key]) <= bound
  }

  predicate ModestOperation(g: Geometry, op: Operation, bound: nat) {
    op.Put? ==> EntrySize(g, op.key, op.value) <= bound
  }

  lemma EffectIsModest(g: Geometry, m: imap<Key, Bytes>, op: Operation, status: Status, bound: nat)
    requires Modest(g, m, bound) && ModestOperation(g, op, bound)
    ensures Modest(g, Effect(m, op, status), bound)
  {
  }

  // ---------------------------------------------------------------- live bytes

  lemma NothingLive(g: Geometry, flash: Flash, ds: Descriptors)
    requires Accounts(g, flash, ds, {})
    ensures TotalValid(ds) == 0
  {
    forall s | 0 <= s < |ds|
      ensures ds[s].validBytes == 0
    {
      ValidBytesZero(g, flash, ds, {}, s);
    }
    NoneValid(ds);
  }

  lemma {:induction false} NoneValid(ds: Descriptors)
    requires forall s :: 0 <= s < |ds| ==> ds[s].validBytes == 0
    ensures TotalValid(ds) == 0
  {
    if ds != [] {
      NoneValid(ds[..|ds| - 1]);
    }
  }

  /** The live bytes of all sectors are those of the live entries. */
  lemma {:induction false} TotalOfLive(g: Geometry, flash: Flash, ds: Descriptors, live: set<Address>, bound: nat)
    requires Accounts(g, flash, ds, live)
    requires forall a :: a in live && Has(flash, a) ==> Size(g, At(flash, a)) <= bound
    ensures TotalValid(ds) <= |live| * bound
    decreases |live|
  {
    hide Accounts, TotalValid;
    if live == {} {
      NothingLive(g, flash, ds);
    } else {
      var a :| a in live;
      AccountsRemove(g, flash, ds, live, a);
      var size := Size(g, At(flash, a));
      WithinDescriptors(g, flash, ds, live, a);
      var removed := ds[a.sector := ds[a.sector].RemoveValid(size)];
      TotalAfterUpdate(ds, a.sector, ds[a.sector].RemoveValid(size));
      TotalOfLive(g, flash, removed, live - {a}, bound);
      OneMore(|live|, bound);
    }
  }

  lemma WithinDescriptors(g: Geometry, flash: Flash, ds: Descriptors, live: set<Address>, a: Address)
    requires Accounts(g, flash, ds, live) && a in live
    ensures a.sector < |ds|
  {
  }

  lemma OneMore(n: nat, x: nat)
    requires 0 < n
    ensures (n - 1) * x + x == n * x
  {
  }

  /** With one copy of each entry there are as many live addresses as descriptors, at most. */
  lemma {:induction false} LiveCount(index: Index)
    requires forall i :: 0 <= i < |index| ==> |index[i].addresses| == 1
    ensures |Live(index)| <= |index|
  {
    if index == [] {
      assert Live(index) == {};
    } else {
      var n := |index| - 1;
      LiveCount(index[..n]);
      assert Live(index) == Live(index[..n]) + {index[n].addresses[0]};
    }
  }

  lemma LiveIsModest(g: Geometry, m: Moment, keys: set<Key>, bound: nat, lastId: nat, a: Address)
    requires HealthyAt(g, m, lastId) && Modest(g, Contents(m.flash), bound) && FewKeys(g, keys, bound)
    requires a in Live(m.index) && Has(m.flash, a)
    ensures Size(g, At(m.flash, a)) <= bound
  {
    hide Contents, Accounts, Size, Covered, UniqueIds;
    var i, j :| 0 <= i < |m.index| && 0 <= j < |m.index[i].addresses| && a == m.index[i].addresses[j];
    LookupIsContents(g, m.flash, m.index, i);
    assert At(m.flash, a) == EntryOf(m.flash, m.index[i]);
    SizeOf(g, At(m.flash, a));
    assert RegularEntry(g, At(m.flash, a), lastId);
  }

  lemma SizeOf(g: Geometry, e: Entry)
    ensures Size(g, e) == EntrySize(g, e.key, e.value)
  {
  }

  lemma ProductGrows(n: nat, m: nat, x: nat)
    requires n <= m
    ensures n * x <= m * x
  {
  }

  lemma RoomShrinks(n: nat, sectorSize: nat, bound: nat, size: nat)
    requires size <= bound <= sectorSize
    ensures n * (sectorSize - bound) <= n * (sectorSize - size)
  {
  }

  /** A modest store always has certain room for a modest entry. */
  lemma ModestHasRoom(g: Geometry, m: Moment, keys: set<Key>, bound: nat, size: nat, lastId: nat)
    requires HealthyAt(g, m, lastId) && NoneMissing(g, m.index) && Tidy(g, m.ds)
    requires Sufficient(g, bound) && FewKeys(g, keys, bound) && Modest(g, Contents(m.flash), bound) && size <= bound
    ensures CertainRoom(g, AsManySectorsNeeded, m.ds, size)
  {
    hide HealthyAt, Contents, Tidy, FewKeys, Modest, TotalValid;
    LiveFacts(g, m, lastId);
    forall a | a in Live(m.index) && Has(m.flash, a)
      ensures Size(g, At(m.flash, a)) <= bound
    {
      LiveIsModest(g, m, keys, bound, lastId, a);
    }
    TotalOfLive(g, m.flash, m.ds, Live(m.index), bound);
    LiveCount(m.index);
    ProductGrows(|Live(m.index)|, g.maxEntries, bound);
    RoomShrinks(g.sectorCount - 1, g.sectorSize, bound, size);
  }

  lemma LiveFacts(g: Geometry, m: Moment, lastId: nat)
    requires HealthyAt(g, m, lastId)
    ensures Accounts(g, m.flash, m.ds, Live(m.index)) && |m.index| <= g.maxEntries
  {
  }

  /** The index has a place for a key in use that no entry on flash has. */
  lemma IndexHasPlace(g: Geometry, m: Moment, keys: set<Key>, bound: nat, key: Key, lastId: nat)
    requires HealthyAt(g, m, lastId) && FewKeys(g, keys, bound) && g.inUse(key) && !Knows(m.flash, key)
    ensures |m.index| < g.maxEntries
  {
    hide Accounts, Covered, UniqueIds;
    var list := KeysOf(g, m.flash, m.index) + [key];
    forall i | 0 <= i < |list|
      ensures list[i] in keys
    {
      if i < |m.index| {
        assert Sound(g, m.flash, m.index[i]);
        assert RegularEntry(g, At(m.flash, m.index[i].addresses[0]), lastId);
      }
    }
    forall i, k | 0 <= i < k < |list|
      ensures list[i] != list[k]
    {
      assert Sound(g, m.flash, m.index[i]);
      if k < |m.index| {
        assert Sound(g, m.flash, m.index[k]);
        assert m.index[i].hash != m.index[k].hash;
      } else {
        assert Has(m.flash, m.index[i].addresses[0]);
      }
    }
    DistinctFits(list, keys);
  }

  // ---------------------------------------------------------------- runs

  /** One operation of a modest store with an empty sector: it does not run out of resources. */
  method PerformModestly(store: KeyValueStore, op: Operation, ghost keys: set<Key>, ghost bound: nat) returns (status: Status)
    requires store.Valid() && store.initialized == Ready && store.lastTransactionId < MAX_TRANSACTION_ID
    requires KeysApart(store.g) && op.Allowed(store.g) && store.gcOnWrite == AsManySectorsNeeded
    requires Tidy(store.g, store.sectors.descriptors) && Sufficient(store.g, bound) && FewKeys(store.g, keys, bound)
    requires Modest(store.g, Contents(store.partition.sectors), bound) && ModestOperation(store.g, op, bound)
    modifies store`lastTransactionId, store.partition, store.sectors, store.cache
    ensures store.Valid() && store.lastTransactionId <= old(store.lastTransactionId) + 1
    ensures Became(store.g, old(store.Now()), store.Now(), Effect(old(Contents(store.partition.sectors)), op, status))
    ensures status != ResourceExhausted
  {
    hide Became, Contents, Without, Confused, Agrees, HealthyAt, NoneMissing, Collides, NoPlace, CertainRoom, Sufficient;
    hide FewKeys, Modest, Tidy, RoomAtOnce, EntrySize;
    NeverConfused(store);
    ghost var m, lastId := store.Now(), store.lastTransactionId;
    match op
    case Put(key, value) =>
      ModestHasRoom(store.g, m, keys, bound, EntrySize(store.g, key, value), lastId);
      status := store.PutBytes(key, value);
      if status == ResourceExhausted {
        IndexHasPlace(store.g, m, keys, bound, key, lastId);
        assert false;
      }
    case Delete(key) =>
      TombstoneIsModest(store.g, keys, bound, key);
      ModestHasRoom(store.g, m, keys, bound, EntrySize(store.g, key, []), lastId);
      status := store.Delete(key);
    case Maintain =>
      status := store.PartialMaintenance();
  }

  lemma TombstoneIsModest(g: Geometry, keys: set<Key>, bound: nat, key: Key)
    requires FewKeys(g, keys, bound) && g.inUse(key)
    ensures EntrySize(g, key, []) <= bound
  {
  }

  /**
   A store that may collect as many sectors as it needs, for no more keys than its index has places and no entry larger than
   the bound: over any run of puts, deletes and collections none ever answers that resources are exhausted.
   */
  method NeverFull(store: KeyValueStore, ops: seq<Operation>, ghost keys: set<Key>, ghost bound: nat)
    returns (statuses: seq<Status>)
    requires store.Valid() && store.initialized == Ready
    requires KeysApart(store.g) && forall op :: op in ops ==> op.Allowed(store.g) && ModestOperation(store.g, op, bound)
    requires store.lastTransactionId + |ops| <= MAX_TRANSACTION_ID
    requires store.gcOnWrite == AsManySectorsNeeded && Tidy(store.g, store.sectors.descriptors)
    requires Sufficient(store.g, bound) && FewKeys(store.g, keys, bound)
    requires Modest(store.g, Contents(store.partition.sectors), bound)
    modifies store`lastTransactionId, store.partition, store.sectors, store.cache
    ensures store.Valid() && store.initialized == Ready && Tidy(store.g, store.sectors.descriptors)
    ensures |statuses| == |ops| && Ran(store.g, old(store.Now()), store.Now(), ops, statuses)
    ensures ResourceExhausted !in statuses
  {
    hide Ran, Effect, Agrees, HealthyAt, KeysApart, NoneMissing, Regular, Sufficient, FewKeys, Modest, Contents, Tidy, Passed;
    hide ModestOperation;
    ghost var start := store.Now();
    RanNothing(store.g, start);
    statuses := [];
    for i := 0 to |ops|
      invariant store.Valid() && store.initialized == Ready && Tidy(store.g, store.sectors.descriptors)
      invariant store.lastTransactionId <= old(store.lastTransactionId) + i
      invariant |statuses| == i && Ran(store.g, start, store.Now(), ops[..i], statuses)
      invariant Modest(store.g, Contents(store.partition.sectors), bound) && ResourceExhausted !in statuses
    {
      ghost var before := store.Now();
      var status := PerformModestly(store, ops[i], keys, bound);
      RanOneMore(store.g, start, before, store.Now(), ops[..i], statuses, ops[i], status);
      EffectIsModest(store.g, Contents(before.flash), ops[i], status, bound);
      assert ops[..i] + [ops[i]] == ops[..i + 1];
      statuses := statuses + [status];
    }
    assert ops[..|ops|] == ops;
  }
}
