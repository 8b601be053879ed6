/**
 Whole runs of the key-value store: the contents after a run are the fold of the operations that succeeded,
 and every flash state on the way is recoverable and means the fold of a prefix of the run.
 */
module KvsRuns {
  import opened KvsEntry
  import opened KvsFlash
  import opened KvsContents
  import opened KvsIndex
  import opened KvsCache
  import opened KvsLookup
  import opened KvsAccounting
  import opened KvsSteps
  import opened KvsRecovery
  import opened KvsProgress
  import opened KvsQuiet
  import opened KvsReclaim
  import opened KvsRebuild
  import opened KvsStore

  datatype Operation =
    | Put(key: Key, value: Bytes)
    | Delete(key: Key)
    | Maintain
  {
    /** The operation is for a key in use, if for any. */
    predicate Allowed(g: Geometry) {
      Maintain? || g.inUse(key)
    }
  }

  /** What one operation with this status does to a map. */
  ghost function Effect(m: imap<Key, Bytes>, op: Operation, status: Status): imap<Key, Bytes> {
    if status != Ok then m
    else match op
      case Put(key, value) => m[key := value]
      case Delete(key) => Without(m, key)
      case Maintain => m
  }

  ghost function Effects(m: imap<Key, Bytes>, ops: seq<Operation>, statuses: seq<Status>): imap<Key, Bytes>
    requires |ops| == |statuses|
  {
    if ops == [] then m
    else
      var n := |ops| - 1;
      Effect(Effects(m, ops[..n], statuses[..n]), ops[n], statuses[n])
  }

  /** The flash means what the first k operations of the run make of m. */
  ghost predicate MeansPrefix(flash: Flash, m: imap<Key, Bytes>, ops: seq<Operation>, statuses: seq<Status>, k: nat)
    requires |ops| == |statuses| && k <= |ops|
  {
    Contents(flash) == Effects(m, ops[..k], statuses[..k])
  }

  /** A power cut at this state leaves a flash to recover from that means some prefix of the run. */
  ghost predicate SafeCut(g: Geometry, flash: Flash, m: imap<Key, Bytes>, ops: seq<Operation>, statuses: seq<Status>)
    requires |ops| == |statuses|
  {
    Recoverable(g, flash) && exists k :: 0 <= k <= |ops| && MeansPrefix(flash, m, ops, statuses, k)
  }

  /** From a to b the operations ran, with these statuses. */
  ghost predicate Ran(g: Geometry, a: Moment, b: Moment, ops: seq<Operation>, statuses: seq<Status>)
    requires |ops| == |statuses|
  {
    && a.history <= b.history
    && Contents(b.flash) == Effects(Contents(a.flash), ops, statuses)
    && (forall i :: |a.history| <= i < |b.history| ==> SafeCut(g, b.history[i], Contents(a.flash), ops, statuses))
    && StaysTidy(g, a, b)
  }

  lemma SafeCutLater(
    g: Geometry, flash: Flash, m: imap<Key, Bytes>, ops: seq<Operation>, statuses: seq<Status>, op: Operation, status: Status)
    requires |ops| == |statuses| && SafeCut(g, flash, m, ops, statuses)
    ensures SafeCut(g, flash, m, ops + [op], statuses + [status])
  {
    var k :| 0 <= k <= |ops| && MeansPrefix(flash, m, ops, statuses, k);
    assert (ops + [op])[..k] == ops[..k] && (statuses + [status])[..k] == statuses[..k];
    assert MeansPrefix(flash, m, ops + [op], statuses + [status], k);
  }

  lemma EffectsOneMore(m: imap<Key, Bytes>, ops: seq<Operation>, statuses: seq<Status>, op: Operation, status: Status)
    requires |ops| == |statuses|
    ensures Effects(m, ops + [op], statuses + [status]) == Effect(Effects(m, ops, statuses), op, status)
  {
    assert (ops + [op])[..|ops|] == ops && (statuses + [status])[..|ops|] == statuses;
  }

  lemma CutInLastStep(
    g: Geometry, flash: Flash, m: imap<Key, Bytes>, ops: seq<Operation>, statuses: seq<Status>, op: Operation, status: Status)
    requires |ops| == |statuses| && Recoverable(g, flash)
    requires Contents(flash) == Effects(m, ops, statuses)
          || Contents(flash) == Effect(Effects(m, ops, statuses), op, status)
    ensures SafeCut(g, flash, m, ops + [op], statuses + [status])
  {
    var ops', statuses' := ops + [op], statuses + [status];
    EffectsOneMore(m, ops, statuses, op, status);
    assert ops'[..|ops|] == ops && statuses'[..|ops|] == statuses;
    assert ops'[..|ops'|] == ops' && statuses'[..|ops'|] == statuses';
    assert MeansPrefix(flash, m, ops', statuses', |ops|) || MeansPrefix(flash, m, ops', statuses', |ops'|);
  }

  /** One operation more. */
  lemma RanOneMore(
    g: Geometry, a: Moment, b: Moment, c: Moment, ops: seq<Operation>, statuses: seq<Status>, op: Operation, status: Status)
    requires |ops| == |statuses| && Ran(g, a, b, ops, statuses)
    requires Became(g, b, c, Effect(Contents(b.flash), op, status))
    ensures Ran(g, a, c, ops + [op], statuses + [status])
  {
    hide Recoverable, Tidy, Clean, Effect, Contents;
    var m := Contents(a.flash);
    EffectsOneMore(m, ops, statuses, op, status);
    forall i | |a.history| <= i < |c.history|
      ensures SafeCut(g, c.history[i], m, ops + [op], statuses + [status])
    {
      if i < |b.history| {
        assert c.history[i] == b.history[i];
        SafeCutLater(g, c.history[i], m, ops, statuses, op, status);
      } else {
        CutInLastStep(g, c.history[i], m, ops, statuses, op, status);
      }
    }
    StaysTidyTransitive(g, a, b, c);
  }

  lemma RanNothing(g: Geometry, m: Moment)
    ensures Ran(g, m, m, [], [])
  {
  }

  /** Keys in use are not taken for one another. */
  lemma NeverConfused(store: KeyValueStore)
    requires store.Valid() && store.initialized != NotInitialized && KeysApart(store.g)
    ensures forall key :: store.g.inUse(key) && !InvalidKey(key) ==>
      !Confused(store.g, store.partition.sectors, store.cache.entries, key)
  {
    hide Confused, Agrees, KeysApart, HealthyAt, NoneMissing;
    forall key | store.g.inUse(key) && !InvalidKey(key)
      ensures !Confused(store.g, store.partition.sectors, store.cache.entries, key)
    {
      ApartIsNotConfused(store.g, store.partition.sectors, store.cache.entries, key);
    }
  }

  method Perform(store: KeyValueStore, op: Operation) returns (status: Status)
    requires store.Valid() && store.initialized == Ready && store.lastTransactionId < MAX_TRANSACTION_ID
    requires KeysApart(store.g) && op.Allowed(store.g)
    modifies store`lastTransactionId, store.partition, store.sectors, store.cache
    ensures store.Valid() && store.lastTransactionId <= old(store.lastTransactionId) + 1
    ensures Became(store.g, old(store.Now()), store.Now(), Effect(old(Contents(store.partition.sectors)), op, status))
  {
    hide Became, Contents, Without, Confused, Agrees, HealthyAt, NoneMissing, Knows, Collides;
    NeverConfused(store);
    match op
    case Put(key, value) =>
      status := store.PutBytes(key, value);
    case Delete(key) =>
      status := store.Delete(key);
    case Maintain =>
      status := store.PartialMaintenance();
  }

  /**
   Any run of puts, deletes and garbage collections on a ready store, of keys that cannot be taken for one
   another. Afterwards a read of any of them answers from the fold of the successful operations.
   */
  method Run(store: KeyValueStore, ops: seq<Operation>) returns (statuses: seq<Status>)
    requires store.Valid() && store.initialized == Ready
    requires KeysApart(store.g) && forall op :: op in ops ==> op.Allowed(store.g)
    requires store.lastTransactionId + |ops| <= MAX_TRANSACTION_ID
    modifies store`lastTransactionId, store.partition, store.sectors, store.cache
    ensures store.Valid() && store.initialized == Ready
    ensures |statuses| == |ops| && Ran(store.g, old(store.Now()), store.Now(), ops, statuses)
    ensures FullyCopied(store.g, store.partition.sectors)
  {
    hide Ran, Became, Effect, Agrees, HealthyAt, KeysApart, NoneMissing, Regular;
    ghost var start := store.Now();
    RanNothing(store.g, start);
    statuses := [];
    for i := 0 to |ops|
      invariant store.Valid() && store.initialized == Ready
      invariant store.lastTransactionId <= old(store.lastTransactionId) + i
      invariant |statuses| == i && Ran(store.g, start, store.Now(), ops[..i], statuses)
    {
      ghost var before := store.Now();
      var status := Perform(store, ops[i]);
      RanOneMore(store.g, start, before, store.Now(), ops[..i], statuses, ops[i], status);
      assert ops[..i] + [ops[i]] == ops[..i + 1];
      statuses := statuses + [status];
    }
    assert ops[..|ops|] == ops;
    NothingIsMissing(store.g, store.Now(), store.lastTransactionId);
  }

  lemma EmptySectorIsErased(g: Geometry, m: Moment, lastId: nat)
    requires HealthyAt(g, m, lastId) && HasEmpty(g, m.ds)
    ensures HasErasedSector(m.flash)
  {
    var t :| 0 <= t < |m.ds| && m.ds[t].Empty(g);
    assert Exact(g, m.flash[t], m.ds[t], t, Live(m.index));
    EmptyIsErased(g, m.flash[t], m.ds[t]);
  }

  /** The flash of a ready store is one to restart from, and its meaning is all that counts. */
  lemma ReadyIsRecoverable(store: KeyValueStore)
    requires store.Valid() && store.initialized == Ready
    ensures Recoverable(store.g, store.partition.sectors)
    ensures Tidy(store.g, store.sectors.descriptors) ==> HasErasedSector(store.partition.sectors)
  {
    var m := store.Now();
    ConsistentIsRecoverable(store.g, m.flash, m.ds, m.index, store.lastTransactionId);
    if Tidy(store.g, m.ds) {
      EmptySectorIsErased(store.g, m, store.lastTransactionId);
    }
  }

  /**
   A run, and a restart afterwards. No copy is missing, so a store comes up ready unless a sector holds two copies of
   one entry or no sector is erased; with one copy of each entry it always does, and means the same.
   */
  method RunThenRestart(store: KeyValueStore, ops: seq<Operation>, gcOnWrite: GarbageCollectOnWrite)
    returns (statuses: seq<Status>, again: KeyValueStore, status: Status)
    requires store.Valid() && store.initialized == Ready
    requires KeysApart(store.g) && forall op :: op in ops ==> op.Allowed(store.g)
    requires store.lastTransactionId + |ops| <= MAX_TRANSACTION_ID
    modifies store`lastTransactionId, store.partition, store.sectors, store.cache
    ensures fresh(again) && again.Valid() && again.g == store.g && again.partition.sectors == store.partition.sectors
    ensures |statuses| == |ops|
    ensures Contents(again.partition.sectors) == Effects(old(Contents(store.partition.sectors)), ops, statuses)
    ensures status == if again.initialized == Ready then Ok else DataLoss
    ensures Clean(again.partition.sectors) && HasErasedSector(again.partition.sectors) ==> status == Ok
    ensures old(Tidy(store.g, store.sectors.descriptors) && Single(store.partition.sectors)) ==> status == Ok
  {
    hide Contents, Effects, KeysApart, Agrees, HealthyAt, NoneMissing, FullyCopied, Recoverable, HasErasedSector, Clean, Single;
    ghost var g, start := store.g, store.Now();
    statuses := Run(store, ops);
    ReadyIsRecoverable(store);
    if Tidy(g, start.ds) && Single(start.flash) {
      SingleIsClean(store.partition.sectors);
    }
    var partition := new FlashPartition(store.g, store.partition.sectors);
    again := new KeyValueStore(store.g, partition, gcOnWrite);
    status := again.Init();
  }

  /** A run, then a read of `size` bytes from `offset` of a key. */
  method RunThenGet(store: KeyValueStore, ops: seq<Operation>, key: Key, size: nat, offset: nat)
    returns (statuses: seq<Status>, status: Status, bytes: Bytes)
    requires store.Valid() && store.initialized == Ready
    requires KeysApart(store.g) && forall op :: op in ops ==> op.Allowed(store.g)
    requires store.lastTransactionId + |ops| <= MAX_TRANSACTION_ID
    modifies store`lastTransactionId, store.partition, store.sectors, store.cache
    ensures |statuses| == |ops|
    ensures !InvalidKey(key) && store.g.inUse(key) ==>
      (status, bytes) == ReadFrom(Effects(old(Contents(store.partition.sectors)), ops, statuses), key, size, offset)
  {
    hide ReadFrom, InvalidKey, Retrieved, Confused, KeysApart, Contents, Effects, Agrees, HealthyAt, NoneMissing, Regular;
    statuses := Run(store, ops);
    NeverConfused(store);
    status, bytes := store.Get(key, size, offset);
  }

  /**
   The power fails at any one of the flash states of a run. The store that comes up from what is left reads
   every key in use as some prefix of the run left it, and gives out only ids above all those on flash.
   */
  method RestartAfterCut(
    g: Geometry, left: Flash, gcOnWrite: GarbageCollectOnWrite, key: Key, size: nat, offset: nat,
    ghost m: imap<Key, Bytes>, ghost ops: seq<Operation>, ghost statuses: seq<Status>)
    returns (store: KeyValueStore, status: Status, bytes: Bytes)
    requires |ops| == |statuses| && SafeCut(g, left, m, ops, statuses)
    requires KeysApart(g) && g.inUse(key) && !InvalidKey(key)
    ensures fresh(store) && store.Valid() && store.initialized != NotInitialized
    ensures store.partition.sectors == left && Regular(g, left, store.lastTransactionId)
    ensures exists k :: 0 <= k <= |ops| && ReadAfterPrefix(m, ops, statuses, k, key, size, offset, status, bytes)
  {
    hide Contents, Effects, ReadFrom, InvalidKey, Retrieved, Confused, KeysApart, Agrees, HealthyAt, NoneMissing;
    ghost var k :| 0 <= k <= |ops| && MeansPrefix(left, m, ops, statuses, k);
    var partition := new FlashPartition(g, left);
    store := new KeyValueStore(g, partition, gcOnWrite);
    status := store.Init();
    NeverConfused(store);
    status, bytes := store.Get(key, size, offset);
    assert ReadAfterPrefix(m, ops, statuses, k, key, size, offset, status, bytes);
  }

  ghost predicate ReadAfterPrefix(
    m: imap<Key, Bytes>, ops: seq<Operation>, statuses: seq<Status>, k: nat,
    key: Key, size: nat, offset: nat, status: Status, bytes: Bytes)
    requires |ops| == |statuses| && k <= |ops|
  {
    (status, bytes) == ReadFrom(Effects(m, ops[..k], statuses[..k]), key, size, offset)
  }

  /**
   A put, then a read of another key, which the contents do not have. It answers with the value put if the checksum of the
   entry passes for that key or reads are not verified, and with DATA_LOSS if not.
   */
  method PutThenGetShorter(store: KeyValueStore, key: Key, value: Bytes)
    returns (stored: Status, status: Status, bytes: Bytes)
    requires store.Valid() && store.initialized == Ready && store.lastTransactionId < MAX_TRANSACTION_ID
    requires HashesAsSource(store.g) && 0 < |key| < MAX_KEY_LENGTH && store.g.inUse(key + [0])
    requires forall a :: Has(store.partition.sectors, a) ==>
      store.g.hash(At(store.partition.sectors, a).key) != store.g.hash(key)
    modifies store`lastTransactionId, store.partition, store.sectors, store.cache
    ensures stored == Ok ==> key !in Contents(store.partition.sectors)
    ensures stored == Ok ==> exists id :: (status, bytes) == AnswerFor(store.g, Entry(key + [0], value, false, id), key)
  {
    hide Contents, Passed, StaysTidy, Agrees, HealthyAt, NoneMissing, Retrieved, Regular, HashesAsSource, Confused;
    ghost var g := store.g;
    NoHashOnFlash(g, store.partition.sectors, store.cache.entries, key);
    stored := store.PutBytes(key + [0], value);
    status, bytes := store.Get(key, |value|, 0);
    if stored == Ok {
      ghost var id := ReadsTheLonger(store, key, value);
      assert (status, bytes) == AnswerFor(g, Entry(key + [0], value, false, id), key);
    }
  }

  /** What a whole read of an entry answers for a key that is not its own. */
  ghost function AnswerFor(g: Geometry, e: Entry, key: Key): (Status, Bytes) {
    if g.verifies(e, key) then (Ok, e.value) else (DataLoss, [])
  }

  lemma NoHashOnFlash(g: Geometry, flash: Flash, index: Index, key: Key)
    requires HashesAsSource(g) && Agrees(g, flash, index)
    requires forall a :: Has(flash, a) ==> g.hash(At(flash, a).key) != g.hash(key)
    ensures !Confused(g, flash, index, key + [0])
  {
    NulAddsNothing(key, HASH_COEFFICIENT);
    forall k | 0 <= k < |index|
      ensures index[k].hash != g.hash(key)
    {
      assert Sound(g, flash, index[k]);
    }
  }

  lemma ReadsTheLonger(store: KeyValueStore, key: Key, value: Bytes) returns (id: nat)
    requires store.Valid() && store.initialized == Ready && HashesAsSource(store.g) && 0 < |key| < MAX_KEY_LENGTH
    requires key + [0] in Contents(store.partition.sectors) && Contents(store.partition.sectors)[key + [0]] == value
    ensures key !in Contents(store.partition.sectors)
    ensures forall stray ::
      Retrieved(store.g, store.partition.sectors, store.cache.entries, key, |value|, 0, stray)
      == AnswerFor(store.g, Entry(key + [0], value, false, id), key)
  {
    hide Contents, HealthyAt, NoneMissing, Regular, Found, Confused;
    var g, flash, index := store.g, store.partition.sectors, store.cache.entries;
    if !Knows(flash, key + [0]) {
      UnknownIsAbsent(flash, key + [0]);
      assert false;
    }
    TrailingNulIsLost(g, flash, index, key, []);
    var i := IndexOf(index, g.hash(key));
    id := index[i].id;
    LookupIsContents(g, flash, index, i);
    assert EntryOf(flash, index[i]) == Entry(key + [0], value, false, id);
    forall stray
      ensures Retrieved(g, flash, index, key, |value|, 0, stray) == AnswerFor(g, Entry(key + [0], value, false, id), key)
    {
      TrailingNulIsLost(g, flash, index, key, stray);
      assert value[0..] == value && key != key + [0];
    }
  }
}
