# Pigweed, modelled and proved in Dafny

Pigweed is a collection of small modules for embedded systems. This project models the ones that keep
state in tricky ways, and proves that they keep their promises over every input and every run:

- **pw_kvs**, a log-structured key-value store on flash: entries are appended to sectors that are erased as a
  whole, an index in memory points at the newest copies of each key, garbage collection moves live entries, and
  a restart rebuilds everything by scanning flash. The model works on sectors of whole entries, for any
  redundancy, any alignment and any hash function. Three more layers go down to bytes: the aligned writer, the
  format of an entry with its checksum, and the bytes of a device that spell out the sectors.
- **pw_ring_buffer** and **pw_multisink**, a ring of entries for many readers, with drop accounting on top.
- **pw_hdlc** with **pw_checksum**, framing and escaping as in sections 4.1 and 4.2 of RFC 1662.
- **pw_allocator**, a heap of blocks with bucketed free lists.
- **pw_protobuf** with **pw_stream** and **pw_varint**, messages that are nested in place, and the decoder.
- **pw_blob_store**, a write buffer in front of a flash partition.
- **pw_sync_freertos**, notifications between tasks, as a step machine over all interleavings.
- **pw_string**, integer printing.

What the source updates in place is a class here, with loops where the source has loops. Every method is
proved against a meaning that does not mention how it works: the map that a flash denotes, the history of
pushes that a reader still has to read, the tiling of a heap, the encoding of a message, the numeral of a
number. The main results are these:

- *The store is a map.* `KvsContents.Contents` gives the meaning of a flash with no index in sight: the newest
  entry of each key counts. `KvsRuns.Run` shows that over any run of Put, Delete and maintenance the meaning is
  the fold of the operations that succeeded, `KvsRuns.RunThenGet` that Get reads it, and `KvsRuns.RestartAfterCut`
  that a restart on any flash state passed on the way, between two writes or erases, finds the meaning of some
  prefix of the run. After an uncut run no copy is missing (`KvsRuns.RunThenRestart`), and every run is one of the
  bytes of a device (`KvsDevice.RunOnDevice`).
- *Unless keys are confused.* A lookup compares hashes, and then as many stored bytes as the key asked for has.
  `KvsLookup.FoundIsRight` says exactly when that is right, for every state and key, and `KvsLookup.RetrievedIsRight`
  exactly when Get is. With the hash function of the source a NUL at the end of a key gets lost
  (`KvsLookup.TrailingNulIsLost`). So the results above are for stores in which keys in use that have one hash have
  one length (`KvsLookup.KeysApart`); without any collision that is so.
- *Garbage collection does not get stuck.* With one copy of each entry and one empty sector, collecting any
  sector succeeds and leaves one empty (`KvsStore.KeyValueStore.GarbageCollectSector`), and so does any run.
- *And it is enough.* A collection loses no live byte and reclaims all stale ones of its sector. What it takes for the
  search for room to fail, `KvsStore.KeyValueStore.GetSectorForWrite` says for each policy. A store that may collect
  as much as it needs never runs out of resources, if its entries and keys are within bounds that can be computed
  from its parameters (`KvsCapacity.NeverFull`).
- *Wear is even.* Empty sectors are opened in turn (`KvsWear.WearIsEven`).
- *Readers see the history.* In every state of the ring buffer each attached reader has exactly its last
  entries of the push history to read, byte for byte, across the wrap and although index 0 and index N are
  one place; eviction takes no more than it must. A read into too small a destination writes behind its end exactly
  when the first piece of an entry that wraps fits and the whole does not
  (`RingBuffer.PrefixedEntryRingBuffer.InternalRead`).
- *Drops add up.* What a drain is told of is what was handled or dropped, modulo 2^32, whatever room it reads into
  (`Multisink.RunCaughtUp`). Which of it was dropped on the way in it is told exactly under the condition of
  `MultisinkHistory.IngressGapTold`, which always holds for a drain that was caught up before
  (`Multisink.PopAfterDrops`).
- *Frames survive noise, and damage does not get through.* From every decoder state and after any noise all frames
  sent are reported in order (`HdlcRoundTrip.SendThenReceive`). The decoder reports each piece between two flags by
  itself (`HdlcSegments.StreamJudged`), delivers nothing but content with its own checksum, and loses exactly the
  frame that has one byte damaged (`HdlcSegments.DamageCostsOneFrame`).
- *The heap stays a tiling*, coalesced, with exact lists. Allocate fails exactly when no listed block is
  large enough, and takes no more than it has to; no free byte is lost.
- *Messages are built in place as if apart* (`ProtobufEncoder.EncodeMessage`), and read back
  (`ProtobufRoundTrip.EncodeThenRead`).
- *A blob is what was written* (`BlobStore.WriteThenRead`), also after a restart (`BlobStore.Restart`).
  What a restart finds while one is being written, `BlobStore.RestartWhileWriting` says. One that was damaged is not
  found (`BlobStore.RestartAfterDamage`), as an entry of the key-value store that was damaged does not pass
  (`EntryFormat.DamageThenVerify`).
- *No release is lost* (`Notification.NoReleaseLost`), whatever races with a timeout, and no wait ends early
  (`Notification.FalseMeansExpired`).
- *Numbers print as their numerals* (`IntPrint.IntToString`).

`dafny verify dfyconfig.toml` checks the whole project.

## How to read the model

- `KvsQuiet.Moment` bundles flash, sector descriptors, index and the history of flash states. `Swept`, `Written`
  and `Became` relate two moments: what collecting, writing and an operation may do in between. `Consistent` is
  the invariant of a store that is ready, `Agrees` the part of it that reading needs, `Accounts` the exact
  accounting, and `Recoverable` what a rebuild needs.
- `KvsReclaim.CertainRoom` is when the search for room cannot fail, and `GaveUp` why it may have. A store is `Tidy` if
  it keeps one copy of each entry and has an empty sector.
- `KvsLookup.Confused` is about the newest entry with the hash of the key asked for: it has another key, and what a
  lookup reads from it is the key asked for, or may be. `KvsFlash.Change` is a write or an erasure, and `Traced`
  a history of them; `KvsBytes.Represents` says that the bytes of a device spell out sectors.
- `RingLayout.Follows` says that a reader's unread bytes are the encoded end of the history of pushes, and that
  the writer stands right behind them.
- `MultisinkHistory.Fates` says what became of each sequence id, and `Standing` how many of them a drain has handled,
  and which ingress drops count as reported to it.
- `HdlcProtocol` is an automaton over unescaped contents. The decoder's class refines it.
- `HeapLayout.Tiled`, `Coalesced` and `Linked`, and `HeapChunks.Matches`, make up the invariant of the heap.
- `Notification` keeps the history of events; the sending of a task notification, a wake-up and a timeout are
  steps of their own.
- `FlashMemory.Flash` may fail at any operation unless it is `reliable`. Operations of the blob store and of
  entries are proved to be safe on any flash, and to succeed on a reliable one.

## Where the code and its comments differ

The model follows the code.

- A comment in `pw_kvs/sectors.cc:94-97` says that the third tier picks the sector with the least recoverable
  bytes. The comparison at `pw_kvs/sectors.cc:115-119` keeps the one with the most.
- `pw_kvs/public/pw_kvs/format.h:44-47` speaks of keys of up to 64 characters; the limit is 63.
- The size computed before there is an entry does not round its alignment up to a multiple of 16, as the entry
  does. `EntryFormat.SizesAgree` says exactly for which alignments that makes no difference.
- `Encoder::MaxEncodedSize` does not count the two flags of a frame, but counts every byte of address and checksum
  twice. `HdlcProtocol.FrameSize` says exactly which frames are longer, `HdlcProtocol.LongerThanMaxEncodedSize` shows
  one, and `Hdlc.WriteUIFrame` says exactly when a frame is written.
- A comment at `pw_kvs/entry_cache.cc:86-88` has in mind keys of different sizes that collide. The comparison at
  `pw_kvs/entry_cache.cc:107` is with the bytes read, though, and those are cut to the size of the key asked for.
- The lambda of `GetOutput` at `pw_ring_buffer/prefixed_entry_ring_buffer.cc:131-141` takes the size of the whole
  destination for the room that is left, also for the second piece of an entry that wraps.
- The comments at `pw_multisink/multisink.cc:111-122` speak of reporting the drops found and no more, and of a check
  whether all were reported. The code keeps the total less the number just reported, though, and not what was
  reported so far. So ingress drops can be told as other drops and the other way round:
  `Multisink.IngressDropToldAsOther` and `Multisink.OtherDropToldAsIngress` show it, and `MultisinkHistory.IngressGapTold`
  says exactly when a gap of ingress drops is told right.
- A writer that is full refuses even an empty write, which the space check of the protobuf encoder does not
  know: a bytes field without bytes that fits exactly is begun and then fails. The contract of
  `ProtobufEncoder.MemoryEncoder.WriteBytes` has that case.

## Model

| member | source | states |
|---|---|---|
| KvsContents.ContentsAfterWrite | pw_kvs/key_value_store.cc:646-690 | Writing an entry whose id is above every id on flash changes what flash means in exactly one key: to the new value, or to absence for a tombstone |
| KvsContents.ContentsAfterCopy | pw_kvs/key_value_store.cc:820-842 | One more copy of an entry that is on flash changes the meaning of no key |
| KvsContents.ContentsAfterErase | pw_kvs/key_value_store.cc:1004-1009 | Erasing a sector every entry of which is outdone by, or copied to, another sector changes the meaning of no key |
| KvsFlash.FlashPartition.Write | pw_kvs/fake_flash_memory.cc:94-127 | A whole entry may be written only at an aligned address, in bounds and onto erased bytes; it appears there, nothing else changes, and the change and the state after it are recorded |
| KvsFlash.FlashPartition.Erase | pw_kvs/fake_flash_memory.cc:60-80 | Erases one whole sector and no other, and records the state |
| KvsIndex.LookupIsContents | pw_kvs/key_value_store.cc:538-558 | In a store whose index agrees with flash, what the index says of a key is what flash means by it: present exactly if the descriptor is not deleted, and then with that value |
| KvsIndex.MissIsAbsent | pw_kvs/entry_cache.cc:62-118 | If no descriptor has the hash of a key, or the one that has it describes an entry with another key, then no entry on flash has the key, and it is absent |
| KvsIndex.AgreesAfterWrite | pw_kvs/key_value_store.cc:692-718 | Agreement of index and flash is kept when the first copy of a new entry is written and its descriptor reset or added |
| KvsIndex.AgreesAfterCopy | pw_kvs/key_value_store.cc:820-842 | Agreement is kept by a copy that is not indexed yet |
| KvsIndex.AgreesAfterReaddress | pw_kvs/key_value_store.cc:844-869 | Agreement is kept when one address of a descriptor is moved to another copy of its entry |
| KvsIndex.AgreesAfterWipe | pw_kvs/key_value_store.cc:1004-1009 | Erasing a sector with no live copy keeps agreement and the meaning of every key, because the index covers everything on flash |
| KvsCache.EntryCache.AddNewOrUpdateExisting | pw_kvs/entry_cache.cc:132-181 | The cache after loading one scanned entry is that of the specification function: a new descriptor, or RESOURCE_EXHAUSTED when the cache is full; a reset by a higher id; a further address for the same id; nothing for a stale one; DATA_LOSS for a second copy in one sector. The other DATA_LOSS of the source, for one id with two hashes, cannot come up, since the descriptor was found by the hash |
| KvsCache.EntryCache.FindIndex | pw_kvs/entry_cache.cc:195-202 | Finds the first descriptor with a hash, and none exactly if there is none |
| KvsLookup.KeyReadBack | pw_kvs/entry.cc:64-74 | Read back at its own length, the key of an entry is itself, whatever lies behind it |
| KvsLookup.FoundIsRight | pw_kvs/entry_cache.cc:62-118 | A search finds a key exactly if it is on flash, and a collision exactly if another key with its hash is, whatever its buffer held: if and only if the newest entry with that hash does not have another key with stored bytes that begin with the key asked for, or that end before it does |
| KvsLookup.ExistsIsRight | pw_kvs/key_value_store.cc:526-536 | Unless it can be so confused, a key exists for the store exactly if the contents have it, and its descriptor leads to its value |
| KvsLookup.RetrievedIsRight | pw_kvs/key_value_store.cc:403-412 | Get answers as the contents say, whatever the buffer of the search held, if and only if the key cannot be confused or the entry it is taken for is a tombstone |
| KvsLookup.ApartIsNotConfused | pw_kvs/entry_cache.cc:74-115 | If keys in use that have one hash have one length, in particular if no two have one hash, then none of them is ever taken for another |
| KvsLookup.ConfusedWriteIsLost | pw_kvs/key_value_store.cc:414-444 | Writing a key that is taken for another leaves two keys of one hash on flash, which no index agrees with |
| KvsLookup.NulAddsNothing | pw_kvs/public/pw_kvs/internal/hash.h:25-35 | A NUL at the end of a key does not change its hash |
| KvsLookup.TrailingNulIsLost | pw_kvs/entry_cache.cc:74-115 | With the hash function of the source: in any state in which a key with a NUL at its end is stored, the key without the NUL is found, and is led to the entry of the other, although the contents do not have it |
| KvsLookup.TrailingNulReads | pw_kvs/entry_cache.cc:74-115 | One flash, with an entry of key 97 0, on which a read of key 97 does not answer NOT_FOUND: it returns the value of that entry if reads are not verified, or its checksum passes for the key asked for as well, and answers DATA_LOSS otherwise, as a store that verifies its reads does by default |
| KvsLookup.PaddingIsTaken | pw_kvs/entry_cache.cc:74-115 | The other way round: a key stored without a value is found with a NUL at its end, because its padding is zeros |
| KvsSectors.Sectors.Find | pw_kvs/sectors.cc:36-159 | Answers from the first of three tiers that has an answer: the first sector in rotation that has room and may be used; else the first empty one, if the last empty one may be taken or two are left, moving the start of the rotation there; else, in garbage collection, the one that the comparison prefers, which is the one with the most recoverable bytes; else none |
| KvsSectors.RotationVisitsAll | pw_kvs/sectors.cc:72-107 | The wear-levelling rotation visits every sector |
| KvsWear.WearIsEven | pw_kvs/sectors.cc:75-147 | No sector is opened a second time before another one has been, if that was empty and might be used whenever one was opened in between |
| KvsSectors.Sectors.FindSectorToGarbageCollect | pw_kvs/sectors.cc:166-232 | The victim of garbage collection: most recoverable bytes among sectors with nothing valid; else most recoverable; else most valid; never one with a reserved address, first in rotation among equals |
| KvsSectors.VictimIsWorthwhile | pw_kvs/sectors.cc:166-232 | A victim is never empty or reserved, and none is found only if every sector that is not reserved is empty |
| KvsAccounting.AccountsAreSane | pw_kvs/public/pw_kvs/internal/sectors.h:44-82 | In exact accounts valid, recoverable and writable bytes of each sector add up to its size, so no 16-bit subtraction underflows |
| KvsAccounting.AccountsAppend | pw_kvs/key_value_store.cc:796-818 | Appending an entry and adding its padded size keeps every account exact: valid bytes are the summed sizes of the live copies, writable bytes are the erased tail |
| KvsAccounting.AccountsRemove | pw_kvs/key_value_store.cc:706-718 | Discounting a copy that is no longer live keeps every account exact, and cannot underflow |
| KvsAccounting.AccountsWipe | pw_kvs/key_value_store.cc:1004-1009 | Erasing a sector without live copies and resetting its descriptor keeps every account exact |
| KvsAccounting.RoomAtNextWritable | pw_kvs/public/pw_kvs/internal/sectors.h:154-157 | Where the accounts say there is space, the next writable address lies on erased bytes and in the sector |
| KvsAccounting.ValidBytesZero | pw_kvs/key_value_store.cc:983-990 | A sector has no valid bytes exactly if it holds no live copy |
| KvsSteps.RelocateStep | pw_kvs/key_value_store.cc:844-869 | Moving one live copy to another sector keeps index, accounts and flash consistent and changes no meaning; every descriptor still describes the entry it did |
| KvsSteps.FirstCopyStep | pw_kvs/key_value_store.cc:692-718 | Writing and indexing the first copy, with all prior copies discounted, keeps the store consistent and sets exactly the key of the entry |
| KvsSteps.ExtraCopyStep | pw_kvs/key_value_store.cc:683-688 | Each further copy, in a sector the key is not in yet, keeps the store consistent and changes no meaning |
| KvsSteps.WipeStep | pw_kvs/key_value_store.cc:1004-1009 | Erasing a sector with no valid bytes keeps the store consistent and changes no meaning |
| KvsSteps.MovedKeepsCopies | pw_kvs/key_value_store.cc:844-869 | Where entries only move, no copy of any is lost |
| KvsProgress.MoveKeepsRoom | pw_kvs/sectors.cc:98-159 | While one sector is drained, if some other one can take all its live bytes, whole or bit by bit, then the search finds a target for the next entry, and after the move some sector still can |
| KvsProgress.DrainStep | pw_kvs/key_value_store.cc:983-1002 | With one copy of each entry, relocation out of a sector that is being drained never lacks a target, and the next one will not either |
| KvsProgress.DrainEnds | pw_kvs/key_value_store.cc:1004-1012 | A drained and erased sector is an empty one |
| KvsProgress.AppendLeavesEmpty | pw_kvs/sectors.cc:98-107 | A search for room to append takes an empty sector only if another one stays empty |
| KvsReclaim.RelocationStepEmpties | pw_kvs/key_value_store.cc:844-869 | A relocation moves the bytes of its entry: the sum of live bytes stays, and so do the stale bytes of every sector but the one it leaves |
| KvsReclaim.ErasureReclaims | pw_kvs/key_value_store.cc:1004-1012 | Erasing the sector afterwards makes exactly its stale bytes writable, and loses no live one |
| KvsReclaim.VictimIsWorst | pw_kvs/sectors.cc:166-232 | The victim has nothing but stale bytes if any candidate has, and has stale bytes if any candidate has some |
| KvsReclaim.StaleMakesRoom | pw_kvs/key_value_store.cc:750-778 | In a tidy store, collecting while some sector has nothing but stale bytes leaves room for any entry that fits a sector |
| KvsReclaim.PackedHasRoom | pw_kvs/sectors.cc:98-159 | With no stale byte left, there is room for an entry if live bytes are at most what all sectors but one hold when each just lacks the room for it |
| KvsReclaim.CollectionPacks | pw_kvs/key_value_store.cc:750-778 | As long as such an entry finds no room, each collection leaves exactly one sector less with stale bytes |
| KvsReclaim.NoTargetIsStuck | pw_kvs/key_value_store.cc:844-869 | If a relocation finds no target, every sector without a copy of the entry and not reserved is in use and too full for it |
| KvsReclaim.AllEmptyIsRoom | pw_kvs/key_value_store.cc:750-778 | With nothing to collect and nothing reserved there is room |
| KvsQuiet.RelocationIsQuiet | pw_kvs/key_value_store.cc:844-869 | A relocation between sectors that are not reserved leaves reserved sectors and their write positions alone, and passes only through recoverable flash states with unchanged meaning |
| KvsQuiet.ReservedStayAwaiting | pw_kvs/key_value_store.cc:720-734 | Addresses reserved for earlier copies stay the next writable ones of their sectors through any garbage collection for a later copy |
| KvsQuiet.EraseIsQuiet | pw_kvs/key_value_store.cc:1004-1009 | Erasing a sector without valid bytes leaves reserved sectors alone and passes only through a recoverable state with unchanged meaning |
| KvsWrites.SameValueIsWritten | pw_kvs/key_value_store.cc:651-663 | Skipping the write of a value that is there already counts as writing it |
| KvsStore.KeyValueStore.RelocateEntry | pw_kvs/key_value_store.cc:844-869 | Relocates one copy to the sector that the placement search answers with, outside of the sectors of its other copies and of reserved addresses; with no such sector nothing changes |
| KvsStore.KeyValueStore.RelocateKeyAddressesInSector | pw_kvs/key_value_store.cc:967-981 | Moves the copies of one key out of a sector, or stops at the first one that every other sector is too full for, with the store healthy; stale bytes elsewhere and the sum of live bytes stay |
| KvsStore.KeyValueStore.GarbageCollectSector | pw_kvs/key_value_store.cc:983-1013 | Moves every live copy out of a sector and erases it; the map never changes on the way, reserved sectors stay as they are; on success, with exactly one erasure, the sector is empty, its stale bytes are reclaimed, and no live byte is lost; it fails only if some entry cannot be moved, and with redundancy 1 and an empty sector never |
| KvsStore.KeyValueStore.GarbageCollect | pw_kvs/key_value_store.cc:947-964 | Collects one sector, with one erasure: one with nothing but stale bytes if there is one, else one with some if there is any; NOT_FOUND leaves everything as it is and means that every sector that is not reserved is empty; RESOURCE_EXHAUSTED means that some entry cannot be moved; the map never changes; with redundancy 1 and an empty sector it never runs out of space |
| KvsStore.KeyValueStore.GetSectorForWrite | pw_kvs/key_value_store.cc:741-784 | Finds a sector with room that leaves another sector empty. With room at once it collects nothing. In a tidy store with nothing reserved it succeeds if it may collect and some sector has nothing but stale bytes, or if it may collect as much as is needed and live bytes leave room enough. RESOURCE_EXHAUSTED means that there is nothing left to collect, that something cannot be moved, or that the policy allows no more: no erasure, one, or more than the number of sectors and two |
| KvsStore.KeyValueStore.GetAddressesForWrite | pw_kvs/key_value_store.cc:720-734 | Reserves one address for each copy, in pairwise distinct sectors, each of them still the next writable one when the last is reserved; it fails only if the search for one of them gives up |
| KvsStore.KeyValueStore.AppendEntry | pw_kvs/key_value_store.cc:796-818 | Writes the entry at the address and counts it, and changes no other sector or account |
| KvsStore.KeyValueStore.CreateOrUpdateKeyDescriptor | pw_kvs/key_value_store.cc:692-718 | Resets or adds the descriptor of the key and discounts every prior copy |
| KvsStore.KeyValueStore.WriteEntry | pw_kvs/key_value_store.cc:646-690 | On success exactly this key was set, with the next transaction id; a value that is there already is not written again; every flash state on the way was recoverable and meant the map before or after; if it fails only garbage was moved, and the search for room gave up, which it does not where room is certain; either way the newest entry of every key has as many copies on flash, in different sectors, as the redundancy asks for |
| KvsStore.KeyValueStore.WriteCopies | pw_kvs/key_value_store.cc:664-690 | The first copy sets the key, the further ones change nothing but their number, and in the end all are there |
| KvsStore.KeyValueStore.FindEntry | pw_kvs/entry_cache.cc:62-118 | Answers what the search of KvsLookup.Found answers for some content of its buffer; if the key cannot be confused, that is Ok exactly for a key on flash and ALREADY_EXISTS exactly for a collision |
| KvsStore.KeyValueStore.FindExisting | pw_kvs/key_value_store.cc:526-536 | Finds a key that cannot be confused exactly if flash means a value by it, and then the descriptor is of that value; in any case it answers as KvsLookup.Exists says |
| KvsStore.KeyValueStore.Get | pw_kvs/key_value_store.cc:538-558 | Returns what flash means by a key that cannot be confused, from the offset on: NOT_FOUND for an absent or deleted key, OUT_OF_RANGE past the end, RESOURCE_EXHAUSTED with as much as fits, or all of it; in any case what KvsLookup.Retrieved says |
| KvsStore.KeyValueStore.PutBytes | pw_kvs/key_value_store.cc:414-444 | Sets a key that cannot be confused on success and changes no meaning otherwise; each error status exactly in its case; RESOURCE_EXHAUSTED only for a new key and a full index, or after the search for room gave up, and never for lack of room where that is certain; the value a key has already is put without a change; every flash state on the way is recoverable and means the old map or the new one; with redundancy 1 an empty sector is always left; no copy of any newest entry is ever missing |
| KvsStore.KeyValueStore.Delete | pw_kvs/key_value_store.cc:446-458 | Removes a key that cannot be confused on success and changes no meaning otherwise; NOT_FOUND exactly for an absent key; the tombstone always fits a sector; RESOURCE_EXHAUSTED only after the search for room gave up, and never where room is certain |
| KvsStore.KeyValueStore.PartialMaintenance | pw_kvs/key_value_store.cc:934-945 | Collects one sector, with exactly one erasure, and changes no meaning; with redundancy 1 and an empty sector it never runs out of space |
| KvsStore.TombstoneIsSmaller | pw_kvs/key_value_store.cc:446-458 | A tombstone is never larger than an entry of the same key |
| KvsRecovery.ConsistentIsRecoverable | pw_kvs/key_value_store.cc:139-271 | Every state a healthy store passes through can be rebuilt from: entries lie back to back in each sector, ids and hashes do not clash, and there is room for all keys |
| KvsScan.LoadStep | pw_kvs/entry_cache.cc:132-181 | Loading one more entry of the scan leaves every descriptor at the newest entry of its key seen so far |
| KvsScan.ScanStep | pw_kvs/key_value_store.cc:153-223 | One step of the scan: what is before the next entry is indexed, newest id first; a load fails only if a sector holds two copies of one entry |
| KvsScan.ScanDone | pw_kvs/key_value_store.cc:139-271 | After the scan the index agrees with flash, and lists every sector that holds a copy of a newest entry, as far as the redundancy goes |
| KvsScan.CacheHasRoom | pw_kvs/entry_cache.cc:132-146 | The scan never fills the cache, if flash holds no more keys than it takes |
| KvsRebuild.HighestId | pw_kvs/key_value_store.cc:225-271 | The transaction id counted from the index is at least every id on flash, and is one that is there |
| KvsRebuild.AccountsCount | pw_kvs/key_value_store.cc:225-271 | Counting one more live copy keeps the accounts exact for the copies counted so far |
| KvsRebuild.FullIndexMeansCopied | pw_kvs/key_value_store.cc:225-271 | If no descriptor lacks an address then every newest entry has all its copies on flash, in distinct sectors |
| KvsRebuild.CopiedMeansFullIndex | pw_kvs/key_value_store.cc:225-271 | If every newest entry has all its copies on flash then no descriptor lacks an address |
| KvsStore.KeyValueStore.LoadEntry | pw_kvs/key_value_store.cc:353-370 | Loads the entry at an address, if there is one, and says where the next one may be |
| KvsStore.KeyValueStore.ScanForEntry | pw_kvs/key_value_store.cc:373-401 | Finds the first entry at an aligned offset from a start on |
| KvsStore.KeyValueStore.ScanSector | pw_kvs/key_value_store.cc:153-223 | Indexes all of one sector and measures its erased tail exactly, unless a copy is doubled |
| KvsStore.KeyValueStore.InitializeMetadata | pw_kvs/key_value_store.cc:139-271 | From any recoverable flash: index and flash agree, the transaction id is the highest there is, and the rotation goes on from the sector of its entry; no error is detected exactly if no sector doubles a copy, some sector is erased, and every newest entry has all its copies; then the store is healthy |
| KvsStore.KeyValueStore.Init | pw_kvs/key_value_store.cc:59-137 | The store comes up meaning what flash means, ready to be written to if nothing is amiss |
| KvsRuns.Run | pw_kvs/key_value_store.cc:414-458 | Over any run of Put, Delete and maintenance on keys in use, those of one hash having one length: the map is the fold of the operations that succeeded; every flash state on the way is recoverable and means the fold of a prefix of the run; an empty sector, once there, is always left with redundancy 1; in the end the newest entry of every key has all its copies |
| KvsRuns.RunThenGet | pw_kvs/key_value_store.cc:538-558 | After any such run, Get of a key in use answers with the last value put, or that there is none |
| KvsCapacity.TotalOfLive | pw_kvs/public/pw_kvs/internal/sectors.h:44-82 | The valid bytes of all sectors together are those of the live copies, so no more than their number times a bound on their size |
| KvsCapacity.ModestHasRoom | pw_kvs/key_value_store.cc:741-784 | With redundancy 1, collecting as needed, there is always room for one more entry within a bound, if as many entries of that size as the index takes fit all sectors but one, each less than one entry short of full |
| KvsCapacity.NeverFull | pw_kvs/key_value_store.cc:414-458 | Then, with no more keys in use than the index takes and no entry above the bound, no Put, Delete or maintenance of any run ever answers RESOURCE_EXHAUSTED |
| KvsRuns.RestartAfterCut | pw_kvs/key_value_store.cc:139-271 | A store started on any flash state of such a run answers Get as after some prefix of it: the interrupted operation happened or did not; its transaction id is at least every one on flash |
| KvsRuns.RunThenRestart | pw_kvs/key_value_store.cc:139-271 | After any such run a store started on what is there means the same map and misses no copy, so it is ready unless a sector holds one entry twice or none is erased; with one copy of each entry and an empty sector at the start it always is |
| KvsRuns.PutThenGetShorter | pw_kvs/key_value_store.cc:403-444 | With the hash function of the source: after a Put of a key with a NUL at its end, Get of the key without it, which the contents do not have, returns the value put if reads are not verified or the checksum of the entry passes for that key as well, and DATA_LOSS otherwise, which is what a store that verifies its reads answers by default |
| KvsRollover.WrapAroundLosesValue | pw_kvs/key_value_store.cc:1218-1246 | A concrete flash on which an id that wrapped round to 0 makes the old value count |
| KvsRollover.NextIdCounts | pw_kvs/key_value_store.cc:1218-1246 | Exactly when a write with the next 32-bit id sets its key: the counter is not at its end, or the key has no other entry, or nothing would change |
| Alignment.AlignUpByDivision | pw_kvs/public/pw_kvs/alignment.h:34-37 | The least multiple that is no less is what the truncating division computes |
| AlignedWriter.AlignedWriter.Write | pw_kvs/alignment.cc:21-31 | What was written and what the buffer holds are together the content given so far, however it was cut up; every write to flash is aligned, in the erased region, and in order; the size counts attempts, also failed ones |
| AlignedWriter.AlignedWriter.WriteFrom | pw_kvs/alignment.cc:54-66 | The same for bytes that are read from elsewhere in flash while the region is written |
| AlignedWriter.AlignedWriter.AddBytesToBuffer | pw_kvs/alignment.cc:68-86 | A full buffer is written out; after an error nothing is left in it |
| AlignedWriter.AlignedWriter.Flush | pw_kvs/alignment.cc:33-52 | All content is in flash, followed by zeros up to the alignment; the size is the aligned one even if the write failed |
| AlignedWriter.AlignedWrite | pw_kvs/public/pw_kvs/alignment.h:115-136 | Chunks are written one behind the other and padded; INTERNAL exactly if the alignment exceeds the buffer; bytes outside of the region are unchanged |
| EntryFormat.HeaderRoundTrip | pw_kvs/public/pw_kvs/format.h:29-57 | The 16 bytes of a header read back as the header |
| EntryFormat.CalculateChecksum | pw_kvs/entry.cc:260-276 | The checksum taken from header, key, value and padding in pieces is that of the whole padded entry with no checksum in it |
| EntryFormat.Make | pw_kvs/entry.cc:76-99 | A new entry or tombstone carries its sizes, its effective alignment and the checksum of its own bytes |
| EntryFormat.Entry.Write | pw_kvs/entry.cc:101-108 | The padded bytes of the entry are in flash, and nothing else changes |
| EntryFormat.Entry.Copy | pw_kvs/entry.cc:125-142 | An entry in flash is at the new address too, byte for byte |
| EntryFormat.Entry.ReadValue | pw_kvs/entry.cc:144-162 | Reads the value from an offset on, as far as the buffer goes |
| EntryFormat.Entry.ValueMatches | pw_kvs/entry.cc:164-187 | Compares in pieces, and says exactly whether the value is the one in flash |
| EntryFormat.Entry.VerifyChecksumInFlash | pw_kvs/entry.cc:197-246 | Reading in pieces comes to the checksum of the whole entry with its checksum blanked; each error in its case |
| EntryFormat.Read | pw_kvs/entry.cc:38-62 | Which header is taken, and which is erased, too long a key, or of no known format |
| EntryFormat.WrittenVerifies | pw_kvs/entry.cc:189-246 | An entry with its own checksum passes verification, exactly if the digest fits in the four bytes of the header |
| EntryFormat.DigestsApart | pw_kvs/entry.cc:197-276 | Under a checksum algorithm whose steps and digest tell states and bytes apart, bytes with one of them changed have another digest |
| EntryFormat.DamageThenVerify | pw_kvs/entry.cc:197-246 | Under such an algorithm an entry with one byte damaged in flash, whichever it is and whatever it became, fails verification with DATA_LOSS |
| EntryFormat.WriteThenRead | pw_kvs/entry.cc:38-246 | Written, an entry is found again: header, key, any part of the value, no other value; its checksum passes exactly if the digest fits |
| EntryFormat.CopyThenVerify | pw_kvs/entry.cc:125-142 | A copy passes verification wherever the entry does, and the entry stays |
| EntryFormat.SizeInStore | pw_kvs/public/pw_kvs/internal/entry.h:150-151 | The size the accounting uses is the number of bytes of the entry in flash |
| EntryFormat.SizesAgree | pw_kvs/public/pw_kvs/internal/entry.h:131-137 | The size computed before there is an entry agrees with that of the entry for every content exactly if the flash alignment is at most, or a multiple of, 16 bytes |
| KvsBytes.WriteEntry | pw_kvs/entry.cc:101-108 | On the bytes of a device that spell out sectors, writing an entry puts its image onto erased bytes at its aligned address and changes no other byte, so that they spell out the sectors with the entry |
| KvsBytes.EraseSector | pw_kvs/fake_flash_memory.cc:60-80 | Erasing a sector sets its bytes and no other, so that they spell out the sectors without its entries |
| KvsBytes.LoadEntry | pw_kvs/key_value_store.cc:353-370 | At the offset of an entry, the bytes of header, key and value are read back and verified as exactly that entry, and lead to the next one; at the erased tail nothing is found |
| KvsBytes.ChangeOnBytes | pw_kvs/fake_flash_memory.cc:60-127 | Whatever may be written or erased in sectors may be written or erased in the bytes that spell them out, with the same outcome |
| KvsBytes.HistoryOnBytes | pw_kvs/fake_flash_memory.cc:60-127 | Every history of sectors is one of bytes: a device goes through states that spell out those of the history |
| KvsDevice.StoredBytes | pw_kvs/entry_cache.cc:78-84 | The stored bytes that a lookup compares, of an entry and all behind it, are the bytes of the device from the address of the entry on |
| KvsDevice.KeyReadFromDevice | pw_kvs/entry.cc:64-74 | The key that a lookup reads is so many bytes of the device behind the header, or nothing if they would end behind the device |
| KvsDevice.RunOnDevice | pw_kvs/key_value_store.cc:414-458 | A run of the store is a run of the device: from bytes that spell out the flash of the store, only aligned writes of entries onto erased bytes and erasures of sectors lead through states that spell out the flash at each point of the run |
| Varint.DecodeEncoded | pw_varint/varint.cc:33-122 | A varint of any format reads back as its value and its size, whatever follows it |
| Varint.EncodedBytes | pw_varint/varint.cc:33-122 | Each byte carries its group of seven bits, least significant group first, and of the bit left over can be told which is the last: in LEB128 bit 7 is set in all but the last, in the format of HDLC addresses bit 0 in the last alone |
| RingLayout.FollowsPush | pw_ring_buffer/prefixed_entry_ring_buffer.cc:85-129 | Writing an encoded entry where the writer stands leaves all a reader has not read, byte for byte and across the wrap, and puts the entry behind it |
| RingLayout.FollowsPop | pw_ring_buffer/prefixed_entry_ring_buffer.cc:292-307 | Advancing a reader by the size of its front entry leaves it at the next one |
| RingLayout.FollowsRotate | pw_ring_buffer/prefixed_entry_ring_buffer.cc:261-290 | Rotating the buffer and shifting the indices leaves every queue as it was |
| RingLayout.AvailableIsFree | pw_ring_buffer/prefixed_entry_ring_buffer.cc:369-392 | Comparing the indices gives the buffer less the unread bytes, although index 0 and index N are one place |
| RingLayout.KeptIsMost | pw_ring_buffer/prefixed_entry_ring_buffer.cc:109-118 | What eviction keeps is the most entries that leave the room asked for |
| RingBuffer.PrefixedEntryRingBuffer.Clear | pw_ring_buffer/prefixed_entry_ring_buffer.cc:33-39 | Empties every queue |
| RingBuffer.PrefixedEntryRingBuffer.AttachReader | pw_ring_buffer/prefixed_entry_ring_buffer.cc:55-72 | A new reader gets the queue of the slowest one, or an empty one if it is the first; a reader attached elsewhere is refused |
| RingBuffer.PrefixedEntryRingBuffer.DetachReader | pw_ring_buffer/prefixed_entry_ring_buffer.cc:74-83 | Takes exactly this reader out, and leaves the order and the queues of the others |
| RingBuffer.PrefixedEntryRingBuffer.InternalPushBack | pw_ring_buffer/prefixed_entry_ring_buffer.cc:85-129 | Appends the entry to the history of pushes; each reader keeps the most entries that fit beside it, and gets it; OUT_OF_RANGE exactly if it can never fit, RESOURCE_EXHAUSTED exactly if it does not fit now and must not evict; an error changes nothing; eviction ends |
| RingBuffer.PrefixedEntryRingBuffer.MakeRoom | pw_ring_buffer/prefixed_entry_ring_buffer.cc:109-118 | Evicts from the slowest readers until the entry fits, and no more than is needed |
| RingBuffer.PrefixedEntryRingBuffer.InternalPopFrontAll | pw_ring_buffer/prefixed_entry_ring_buffer.cc:218-234 | Pops exactly the readers with the most entries, once each |
| RingBuffer.PrefixedEntryRingBuffer.RawAvailableBytes | pw_ring_buffer/prefixed_entry_ring_buffer.cc:369-392 | The buffer less what the slowest reader has not read |
| RingBuffer.PrefixedEntryRingBuffer.GetSlowestReader | pw_ring_buffer/prefixed_entry_ring_buffer.cc:236-245 | A reader with the most entries to read |
| RingBuffer.PrefixedEntryRingBuffer.RawWrite | pw_ring_buffer/prefixed_entry_ring_buffer.cc:394-410 | Writes round the end and advances the index |
| RingBuffer.PrefixedEntryRingBuffer.RawRead | pw_ring_buffer/prefixed_entry_ring_buffer.cc:412-428 | Reads round the end |
| RingBuffer.PrefixedEntryRingBuffer.RawFrontEntryInfo | pw_ring_buffer/prefixed_entry_ring_buffer.cc:335-365 | Reads the sizes and the preamble of the front entry back from its varints, also across the wrap |
| RingBuffer.PrefixedEntryRingBuffer.InternalRead | pw_ring_buffer/prefixed_entry_ring_buffer.cc:179-216 | Writes the front entry of the queue, with its preamble or without, to a destination, or a prefix of it of exactly known length; a byte is written at or behind the end of the destination if and only if the entry wraps, its first piece is not empty and fits, and the whole does not fit; Ok exactly if all was written |
| RingBuffer.PrefixedEntryRingBuffer.ReadPieces | pw_ring_buffer/prefixed_entry_ring_buffer.cc:204-216 | Two pieces that are each cut to the whole room come to exactly so many bytes of the circle |
| RingBuffer.ReadPastTheEnd | pw_ring_buffer/prefixed_entry_ring_buffer.cc:131-216 | A ring of eight bytes, a push and a pop of three, a push of five, and a destination of three for which five bytes are written and the status is Ok |
| RingBuffer.PrefixedEntryRingBuffer.PeekFrontPreamble | pw_ring_buffer/prefixed_entry_ring_buffer.cc:165-172 | Hands out the preamble of the front entry |
| RingBuffer.PrefixedEntryRingBuffer.PopFront | pw_ring_buffer/prefixed_entry_ring_buffer.cc:292-307 | Takes the front entry off this queue, and off no other |
| RingBuffer.PrefixedEntryRingBuffer.InternalDering | pw_ring_buffer/prefixed_entry_ring_buffer.cc:261-290 | Rotates the buffer so that one reader starts at 0; every queue stays as it was |
| RingBuffer.PrefixedEntryRingBuffer.Dering | pw_ring_buffer/prefixed_entry_ring_buffer.cc:247-259 | The unread entries of a slowest reader lie at the front of the buffer in one piece; every queue stays as it was |
| RingBuffer.PrefixedEntryRingBuffer.IterateAll | pw_ring_buffer/prefixed_entry_ring_buffer.cc:450-497 | Iteration yields the entries of a slowest reader in order, and ends without an error |
| Multisink.MultiSink.HandleEntry | pw_multisink/multisink.cc:30-35 | Pushes the entry with its sequence id; the id is used up even if the entry can never fit, and it is recorded which of the two became of it |
| Multisink.MultiSink.AttachDrain | pw_multisink/multisink.cc:144-158 | A new drain starts at the oldest entry and accounts from where the oldest-entry drain stands, with no ingress drop reported to it yet |
| Multisink.MultiSink.PeekOrPopEntry | pw_multisink/multisink.cc:74-142 | Entry, drop and ingress drop counts together are the advance from the last handled id, modulo 2^32; with less than 2^32 ids the counts are the gap in front of the next entry, of which as many are ingress drops as still count as unreported; an entry that does not fit is discarded and left to be counted later; bytes are written behind the buffer exactly when the read of the ring does so |
| Multisink.MultiSink.CountDrops | pw_multisink/multisink.cc:102-127 | Drops of both kinds are the ids between the last one handled and the one found; with less than 2^32 ids as many of them are ingress drops as there are unreported, up to the whole gap, and what counts as unreported next is known |
| Multisink.PopOne | pw_multisink/multisink.cc:74-142 | A pop into any room delivers the front entry or discards it for lack of room; what it reports is the advance of the last handled id, which a discarded entry does not move. If all ids of the gap were dropped on the way in, they are all reported as such, and nothing else is, if and only if no more of them than count as unreported; that is so if no gap was reported since they were given out |
| Multisink.MultiSink.PopEntry | pw_multisink/multisink.cc:46-72 | Takes a peeked entry exactly if it is still in front and was not handled |
| Multisink.PeekThenPopOne | pw_multisink/multisink.cc:46-142 | A peek and a pop of what it found, into any room, deliver and account for the same as a pop |
| Multisink.PeekOne | pw_multisink/multisink.cc:74-142 | The counts of a peek stand for an advance only if it finds no entry; a peek too discards an entry that does not fit |
| Multisink.AccountsMore | pw_multisink/multisink.cc:101-128 | Advances modulo 2^32 add up |
| Multisink.Run | pw_multisink/multisink.cc:30-142 | Over any run of entries, reported drops, clears, pops, peeks and pops of peeked entries, into any room: what a drain was told of adds up to the advance of its last handled id, modulo 2^32, and exactly as long as there are less than 2^32 ids, entries discarded for lack of room included |
| Multisink.CatchUp | pw_multisink/multisink.cc:74-142 | Popping until nothing is left delivers all that was queued, in order, and ends with a drain that has handled every id |
| Multisink.RunCaughtUp | pw_multisink/multisink.cc:30-142 | After a run and pops until it is caught up, whatever room it read into and wherever it started, a drain was told of the ids from the one it handled last to the last one given out, modulo 2^32; if it was caught up before, that is exactly what was handled or dropped |
| MultisinkHistory.RecordedDrops | pw_multisink/multisink.cc:37-44 | Reported drops use up so many ids and count so many ingress drops, modulo 2^32, and no entry gets one of these ids |
| MultisinkHistory.CountedIsTold | pw_multisink/multisink.cc:102-127 | With less than 2^32 ids the subtractions tell the length of the gap, and of it as many ingress drops as count as unreported; after a report either none counts any more or as many as were just reported |
| MultisinkHistory.IngressGapTold | pw_multisink/multisink.cc:111-127 | A gap of nothing but ingress drops is told right if and only if it is no longer than what counts as unreported, and always if no gap was told of since its ids were given out |
| Multisink.PopAfterDrops | pw_multisink/multisink.cc:111-127 | What was dropped on the way in while a drain was caught up is what its next pop reports as ingress drops, with no other drop, whether there is an entry behind it or nothing |
| Multisink.IngressDropToldAsOther | pw_multisink/multisink.cc:111-127 | Two ingress drops, an entry, three more, and two pops of a new sink: the second pop reports two ingress drops and one other |
| Multisink.OtherDropToldAsIngress | pw_multisink/multisink.cc:111-127 | Two ingress drops and a pop, three and a pop, then an entry that is too large, and a pop that reports it as an ingress drop |
| Crc32.FoldConcat | pw_checksum/crc32.cc:67-77 | A checksum taken in pieces is that of the whole |
| Crc32.InternalCrc32 | pw_checksum/crc32.cc:67-77 | The loop computes the fold of the step over the bytes |
| Crc32.StepIsDivision | pw_checksum/crc32.cc:72-74 | A step by table is the division, bit by bit, of the sum of state and byte by the reversed polynomial |
| Crc32.StepKeepsStatesApart | pw_checksum/crc32.cc:72-74 | Different states stay different, whatever byte comes |
| Crc32.StepTellsBytesApart | pw_checksum/crc32.cc:72-74 | Different bytes make different states of one |
| Crc32.OneByteChangesValue | pw_checksum/crc32.cc:67-77 | No bytes have the checksum of the same bytes with one of them changed |
| HdlcProtocol.EscapeFlipsBit5 | pw_hdlc/public/pw_hdlc/internal/protocol.h:20-45 | Escaping inverts bit 5 and nothing else: 7E goes out as 7D 5E, and 7D as 7D 5D |
| HdlcProtocol.FrameRoundTrip | pw_hdlc/decoder.cc:40-100 | From every decoder state, whatever came before, a frame ends with the report of exactly that frame, or that it is too large; only its first flag may report something else, and the decoder is in step after it |
| HdlcProtocol.StreamRoundTrip | pw_hdlc/decoder.cc:40-100 | Frames one after another are reported in order, none lost and nothing in between |
| HdlcProtocol.NoiseThenStream | pw_hdlc/decoder.cc:40-100 | Noise in front of frames costs no more than what the noise itself, ended by a flag, reports |
| HdlcProtocol.ContentAccepted | pw_hdlc/decoder.cc:27-38 | What an encoder puts in a frame passes all checks and parses into the same address, control and payload |
| HdlcProtocol.FrameSize | pw_hdlc/encoder.cc:70-79 | The exact length of a frame, and exactly when it is longer than MaxEncodedSize: when more bytes of address, control and checksum are escaped than the address has, and two |
| HdlcProtocol.FrameAtMost | pw_hdlc/encoder.cc:70-79 | A frame whose control byte needs no escape is at most two bytes longer than MaxEncodedSize |
| HdlcProtocol.LongerThanMaxEncodedSize | pw_hdlc/encoder.cc:70-79 | Address 62 and three bytes for which the frame has 15 bytes and MaxEncodedSize is 14, the checksum worked out |
| Hdlc.Encoder.EscapeAndWrite | pw_hdlc/encoder.cc:32-40 | Writes a byte, or its escape and the byte with bit 5 inverted |
| Hdlc.Encoder.WriteData | pw_hdlc/encoder.cc:42-59 | Writes the escaped data and adds the unescaped data to the checksum; it succeeds exactly when it fits, where a full writer refuses even an empty last run |
| Hdlc.Encoder.StartFrame | pw_hdlc/encoder.cc:81-96 | Writes the flag, the escaped address and the control byte, with the checksum begun |
| Hdlc.Encoder.FinishFrame | pw_hdlc/encoder.cc:61-68 | Writes the escaped checksum of all of the body and a flag |
| Hdlc.WriteUIFrame | pw_hdlc/encoder.cc:100-117 | Writes exactly the frame; it succeeds exactly if bound and frame fit, so always if there is room for the bound and two flags |
| HdlcDecoder.Ejected | pw_hdlc/decoder.cc:102-118 | The byte that the four-byte ring loses is the next one the checksum has to cover |
| HdlcDecoder.Decoder.AppendByte | pw_hdlc/decoder.cc:102-118 | Buffer, ring, size and lagging checksum stay those of the content so far, also beyond the end of the buffer |
| HdlcDecoder.Decoder.VerifyFrameCheckSequence | pw_hdlc/decoder.cc:147-160 | Compares the lagging checksum with the last four bytes, put together from the ring in order; by HdlcSegments.IntactMatches it says exactly whether these are the checksum of all before them |
| HdlcDecoder.Decoder.CheckFrame | pw_hdlc/decoder.cc:120-145 | Which frames are too short, damaged or too large, in that order |
| HdlcDecoder.Decoder.Process | pw_hdlc/decoder.cc:40-100 | One byte does to the decoder and reports what the automaton over unescaped contents does |
| HdlcDecoder.Decoder.ProcessAll | pw_hdlc/public/pw_hdlc/decoder.h:98-109 | A span of bytes reports what the automaton reports |
| HdlcSegments.StreamJudged | pw_hdlc/decoder.cc:40-160 | Whatever bytes come in once a flag was seen: each piece up to the next flag is reported by itself, DATA_LOSS if an escape byte has nothing or another one behind it, if it is too short, or if its last four bytes are not the checksum of the others; RESOURCE_EXHAUSTED if it is too large; else what it parses to; an empty one not at all |
| HdlcSegments.FromTheStart | pw_hdlc/decoder.cc:40-64 | Bytes in front of the first flag cost one report, if there are any |
| HdlcSegments.CutAtFlags | pw_hdlc/decoder.cc:40-100 | Every stream is such pieces with their flags, and a rest that brings no report yet |
| HdlcSegments.IntactMatches | pw_hdlc/decoder.cc:147-160 | The check of the frame check sequence passes exactly for bytes followed by their own checksum |
| HdlcSegments.OneByteApart | pw_hdlc/decoder.cc:147-160 | Of two contents that differ in one byte, at most one passes |
| HdlcSegments.DamagedByteIsLost | pw_hdlc/decoder.cc:120-145 | A frame with one byte of its content damaged, in address, control, payload or checksum, is reported as DATA_LOSS, and nothing else is |
| HdlcSegments.DamageCostsOneFrame | pw_hdlc/decoder.cc:40-160 | Frames before and after a damaged one are reported as if nothing had happened to it |
| HdlcSegments.DeliveredIsIntact | pw_hdlc/decoder.cc:27-38 | A frame that is delivered came whole: its content is the varint of the address, control, payload, and the checksum of these |
| HdlcSegments.IntactIsDelivered | pw_hdlc/decoder.cc:27-38 | And every such content of at least six bytes that fits the buffer is delivered |
| HdlcRoundTrip.SendThenReceive | pw_hdlc/decoder.cc:40-160 | Whatever state the decoder is in and whatever noise comes first, all messages sent are reported in order and as they were |
| HdlcRoundTrip.ReceiveDamaged | pw_hdlc/decoder.cc:40-160 | From any state of the decoder, a frame with one byte of its content damaged is reported lost, and only its first flag may report something else |
| HeapLayout.SplitLinked | pw_allocator/block.cc:54-124 | The pointers written by a split are those of the split tiling |
| HeapLayout.MergeLinked | pw_allocator/block.cc:126-148 | The pointers written by a merge are those of the merged tiling |
| HeapLayout.BlocksInOrder | pw_allocator/block.cc:198-219 | Blocks of a tiling lie in order and do not overlap |
| HeapBlocks.BlockList.constructor | pw_allocator/block.cc:23-52 | A region starts as one free block |
| HeapBlocks.BlockList.CheckStatus | pw_allocator/block.cc:198-219 | The checks find nothing wrong with any block of a heap that only these operations worked on |
| HeapBlocks.BlockList.Split | pw_allocator/block.cc:54-124 | Splits a free block in two that tile it, or says why not; bytes in use are not touched |
| HeapBlocks.BlockList.MergeNext | pw_allocator/block.cc:126-148 | Joins two free neighbours into one block, or says why not |
| HeapBlocks.BlockList.MergePrev | pw_allocator/block.cc:150-161 | The same towards the front |
| HeapFreeList.FreeList.FindChunkPtrForSize | pw_allocator/freelist.cc:115-125 | The first bucket for a size, or the first one in use from there on |
| HeapFreeList.FreeList.AddChunk | pw_allocator/freelist.cc:19-40 | Lists a chunk in its bucket, unless it is too small for a node; writes only into the chunk |
| HeapFreeList.FreeList.FindChunk | pw_allocator/freelist.cc:42-75 | Finds a listed chunk that is large enough exactly if there is one |
| HeapFreeList.FreeList.RemoveChunk | pw_allocator/freelist.cc:77-113 | Takes a chunk off the lists exactly if it is on them |
| HeapFreeList.LooksWhereListed | pw_allocator/freelist.cc:77-125 | Removal looks in the bucket that insertion chose, although it skips empty ones |
| HeapChunks.MatchesRemove | pw_allocator/freelist_heap.cc:44-60 | Removing the chunk of a free block leaves exactly the other free blocks of node size listed |
| HeapChunks.MatchesAdd | pw_allocator/freelist_heap.cc:96-115 | Listing the chunk of a free block, or leaving it out if it is smaller than a node, makes the lists exact again |
| HeapChunks.LiveApart | pw_allocator/freelist_heap.cc:38-68 | No byte belongs to two allocations |
| HeapLayout.SplitFreeBytes | pw_allocator/block.cc:54-124 | A split neither loses nor makes free bytes |
| HeapLayout.MergeFreeBytes | pw_allocator/block.cc:126-148 | Nor does a merge |
| HeapLayout.FreeAndUsed | pw_allocator/block.cc:198-219 | Free bytes and those of blocks in use are all bytes of the region |
| Heap.CarvedBlock | pw_allocator/freelist_heap.cc:53-59 | The block given out has room for less than another header more than was asked for, rounded up |
| Heap.LeftoverIsFree | pw_allocator/freelist_heap.cc:53-59 | What is left over of a block is a free block behind the part that was cut off |
| Heap.AllocateTwice | pw_allocator/freelist_heap.cc:38-68 | If there is a listed block and each has room for two allocations, both succeed, as in a new heap that is large enough |
| Heap.FreeListHeap.constructor | pw_allocator/freelist_heap.cc:24-36 | A heap starts with the one free block listed and nothing given out |
| Heap.FreeListHeap.Allocate | pw_allocator/freelist_heap.cc:38-68 | Fails exactly for size 0 or when no listed block is large enough, and then changes nothing; else one listed block is cut to size and given out, aligned, at least of the size and with less to spare than another block takes, and the rest stays free behind it; free bytes shrink by less than the rounded size and two headers; the bytes of all other allocations stay; blocks tile, no two neighbours are free, and the lists are exact |
| Heap.FreeListHeap.Free | pw_allocator/freelist_heap.cc:70-120 | Takes exactly this allocation back and joins it with free neighbours; free bytes grow by exactly its block; the bytes of the others stay; a pointer to no allocation changes nothing |
| Heap.FreeListHeap.Realloc | pw_allocator/freelist_heap.cc:124-164 | Keeps the block if it is large enough; else moves the old contents to a new block, cut to size like any other, and frees the old one, or leaves everything as it is if there is no room; size 0 frees |
| ProtobufWire.EncodeFieldsAppend | pw_protobuf/encoder.cc:114-179 | Fields written one after another are the encoding of the list |
| ProtobufWire.FirstByte | pw_protobuf/public/pw_protobuf/wire_format.h:43-91 | The key of a field is eight times its number and 0 for a varint, 1 for eight bytes, 2 for a length and bytes, 5 for four bytes; its first byte tells the kind, and up to number 15 is all of it |
| ProtobufDecoder.FieldSizeEncoded | pw_protobuf/decoder.cc:116-158 | In front of any bytes the size of an encoded field is exactly its own |
| ProtobufDecoder.Decoder.SkipField | pw_protobuf/decoder.cc:36-48 | Drops one field; DATA_LOSS exactly if its size cannot be told |
| ProtobufDecoder.Decoder.Next | pw_protobuf/decoder.cc:23-34 | Skips the field before only if it was not read, and says whether there is another one |
| ProtobufDecoder.Decoder.ConsumeKey | pw_protobuf/decoder.cc:160-178 | Consumes the key exactly if the wire type is the expected one |
| ProtobufDecoder.Decoder.ReadVarint | pw_protobuf/decoder.cc:180-194 | Reads a varint field back and stands behind it; a field of another type is left alone |
| ProtobufDecoder.Decoder.ReadFixed | pw_protobuf/decoder.cc:196-213 | The same for four and eight bytes |
| ProtobufDecoder.Decoder.ReadDelimited | pw_protobuf/decoder.cc:215-237 | The same for bytes |
| ProtobufDecoder.ReadAll | pw_protobuf/decoder.cc:23-48 | The loop over Next reads any subset of the fields back as they went in and skips the others whole |
| ProtobufEncoder.MemoryEncoder.UpdateStatusForWrite | pw_protobuf/encoder.cc:214-233 | The first error sticks; a bad field number or a lack of space is found before anything is written |
| ProtobufEncoder.MemoryEncoder.WriteVarintField | pw_protobuf/encoder.cc:114-121 | Appends exactly the encoded field, or fails and appends nothing |
| ProtobufEncoder.MemoryEncoder.WriteFixed | pw_protobuf/encoder.cc:167-179 | The same for fixed fields |
| ProtobufEncoder.MemoryEncoder.WriteBytes | pw_protobuf/encoder.cc:123-133 | The same for bytes; the check does not count that a full writer refuses the empty payload of a field that fits exactly |
| ProtobufEncoder.MemoryEncoder.GetNestedEncoder | pw_protobuf/encoder.cc:36-64 | The nested encoder writes behind a gap for key and length in the parent's own buffer, as far as its length can be encoded; without any room it starts exhausted |
| ProtobufEncoder.MemoryEncoder.CloseNestedMessage | pw_protobuf/encoder.cc:82-112 | Closing a nested message that succeeded always succeeds, and appends key, length and the nested bytes as if they had been encoded apart |
| ProtobufEncoder.MemoryEncoder.MoveNested | pw_stream/memory_stream.cc:24-43 | Key and length do not reach the nested bytes, and the overlapping move brings those down whole |
| ProtobufEncoder.NestedUntouched | pw_protobuf/encoder.cc:82-112 | What is written in front of the nested bytes leaves them as they are |
| ProtobufEncoder.NestedLengthFits | pw_protobuf/encoder.cc:36-64 | The length of any message a nested encoder can hold fits the gap left for it |
| ProtobufEncoder.EncodeMessage | pw_protobuf/encoder.cc:36-133 | A message of any depth, built in place through nested encoders, is exactly its encoding with nested messages encoded apart; it succeeds if there is room for it and the gaps |
| ProtobufRoundTrip.EncodeThenRead | pw_protobuf/decoder.cc:23-237 | What the encoder writes of any message, the decoder reads back, any subset of its fields |
| Stream.MemoryWriter.Write | pw_stream/memory_stream.cc:24-43 | Appends all of the data or nothing; a full writer refuses even an empty write |
| Notification.StepKeepsConsistent | pw_sync_freertos/thread_notification.cc:44-122 | Every step of acquirer or releasers keeps the relation between flag, registration and pending task notification |
| Notification.AlwaysConsistent | pw_sync_freertos/timed_thread_notification.cc:50-108 | The relation holds after every interleaving |
| Notification.NotifiedIsReleased | pw_sync_freertos/thread_notification.cc:80-122 | The flag is set exactly if there was a release since the last consumption |
| Notification.ReturnsWhetherReleased | pw_sync_freertos/timed_thread_notification.cc:50-108 | An acquire returns true exactly if a release arrived since the last consumption, also when the timeout races with it |
| Notification.NoReleaseLost | pw_sync_freertos/timed_thread_notification.cc:50-108 | The first acquire that returns after a release returns true |
| Notification.OneNotification | pw_sync_freertos/thread_notification.cc:80-122 | At most one task notification is sent for each registration, by any number of releases |
| Notification.NothingLeftOver | pw_sync_freertos/timed_thread_notification.cc:32-48 | None is pending, and nobody registered, when the next acquire begins |
| Notification.NoLostWakeup | pw_sync_freertos/thread_notification.cc:26-78 | A waiting task that was released can always wake up |
| Notification.UntimedIsReleased | pw_sync_freertos/thread_notification.cc:44-78 | A wait without a timeout ends only with a release |
| Notification.AcquiredAtMostReleased | pw_sync_freertos/thread_notification.cc:44-122 | There are never more successful acquires than releases |
| Notification.UnreleasedWaits | pw_sync_freertos/timed_thread_notification.cc:32-48 | An acquire that finds no release, and whose deadline has not passed, registers and waits |
| Notification.OnlyWokenOrExpired | pw_sync_freertos/timed_thread_notification.cc:66-92 | While it waits nothing returns; only a task notification, or the deadline if there is one, ends the wait, and a wake-up before that changes nothing |
| Notification.WaitBegan | pw_sync_freertos/timed_thread_notification.cc:50-108 | An acquire on its way out without a release registered unexpired and has seen its deadline pass since |
| Notification.FalseMeansExpired | pw_sync_freertos/timed_thread_notification.cc:50-108 | A call returns false only if it is a try, came after its deadline, or has waited until its deadline passed |
| IntPrint.EstimateIsRight | pw_string/type_to_string.cc:59-67 | The multiply-and-shift estimate of the logarithm is right, or one too small, for every bit length up to 64 |
| IntPrint.DigitCountIsExact | pw_string/type_to_string.cc:59-67 | For every 64-bit value the estimate and one comparison give the number of decimal digits |
| IntPrint.HexDigitCountIsExact | pw_string/public/pw_string/type_to_string.h:34-38 | The hexadecimal digit count is the length of the numeral |
| IntPrint.NextChunk | pw_string/type_to_string.cc:86-108 | The nine digits split off a value of more than 32 bits are the last ones of its numeral |
| IntPrint.NumeralParts | pw_string/type_to_string.cc:86-108 | A numeral is that of the upper part followed by the padded lower digits |
| IntPrint.NumeralReadsBack | pw_string/type_to_string.cc:86-129 | A numeral reads back as its number, the letters a to f standing for ten to fifteen |
| IntPrint.PaddedReadsBack | pw_string/type_to_string.cc:113-129 | And so does one with zeros in front |
| IntPrint.IntToString | pw_string/type_to_string.cc:74-111 | Writes exactly the decimal numeral and a terminator, and nothing else; RESOURCE_EXHAUSTED exactly if they do not fit |
| IntPrint.SignedToString | pw_string/type_to_string.cc:131-147 | The same with a minus sign in front of a negative value |
| IntPrint.IntToHexString | pw_string/type_to_string.cc:113-129 | Writes exactly the hexadecimal numeral, with zeros in front up to the width asked for, which reads back as the value |
| FlashMemory.Flash.Write | pw_kvs/flash_memory.cc:123-134 | A write must be aligned, in bounds and onto erased bytes; it changes no other bytes, also if it fails |
| BlobStore.BlobStore.OpenWrite | pw_blob_store/blob_store.cc:107-126 | One writer excludes readers and other writers, and starts an empty blob; the metadata of the one before are gone, or as they were if deleting them failed |
| BlobStore.BlobStore.OpenRead | pw_blob_store/blob_store.cc:154-173 | Readers are let in exactly when there is a blob and no writer |
| BlobStore.BlobStore.CloseRead | pw_blob_store/blob_store.cc:175-180 | One reader less |
| BlobStore.BlobStore.Write | pw_blob_store/blob_store.cc:182-280 | Accepted bytes are appended to the blob, partly in flash and less than one chunk of them in the buffer; each error exactly in its case; DATA_LOSS only if flash fails or had failed |
| BlobStore.BlobStore.FillChunk | pw_blob_store/blob_store.cc:210-243 | The first step fills the chunk that was begun, and commits it once it is full |
| BlobStore.BlobStore.WriteAligned | pw_blob_store/blob_store.cc:245-279 | The second step writes whole chunks straight through, and the third keeps the rest |
| BlobStore.BlobStore.AddToWriteBuffer | pw_blob_store/blob_store.cc:282-300 | Appends to the buffer alone, each error exactly in its case |
| BlobStore.BlobStore.Flush | pw_blob_store/blob_store.cc:302-341 | Commits all whole chunks; less than one is held back |
| BlobStore.BlobStore.FlushFinalPartialChunk | pw_blob_store/blob_store.cc:343-367 | Pads the last chunk with erased bytes, of which only the content counts |
| BlobStore.BlobStore.CommitToFlash | pw_blob_store/blob_store.cc:369-387 | The next bytes of the blob are in flash and in the running checksum, or the blob is invalid |
| BlobStore.BlobStore.Read | pw_blob_store/blob_store.cc:409-421 | Reads the slice of the blob, as far as there is one |
| BlobStore.BlobStore.CalculateChecksumFromFlash | pw_blob_store/blob_store.cc:511-535 | The checksum taken in pieces is that of the whole; it fails exactly for more bytes than there are |
| BlobStore.BlobStore.WriteMetadata | pw_blob_store/blob_store.cc:577-624 | The running checksum is always the one taken from flash, so the check never fails |
| BlobStore.BlobStore.Close | pw_blob_store/blob_store.cc:626-681 | On success the blob is all that was accepted; on failure there is no valid blob; it fails only if flash fails or had failed |
| BlobStore.BlobStore.LoadMetadata | pw_blob_store/blob_store.cc:70-103 | Takes a blob found in flash exactly if there are as many bytes and their checksum is the stored one |
| BlobStore.BlobStore.Init | pw_blob_store/blob_store.cc:37-68 | Comes up with the blob in flash exactly if the metadata describe it |
| BlobStore.Restart | pw_blob_store/blob_store.cc:37-103 | After a restart at any time a blob is found exactly if there are metadata that match what is in flash; a closed blob is found again, unchanged |
| BlobStore.RestartAfterDamage | pw_blob_store/blob_store.cc:70-103 | A closed blob with a checksum that was damaged in one byte in flash is not taken for a blob after a restart |
| BlobStore.RestartWhileWriting | pw_blob_store/blob_store.cc:107-126 | If the power fails while a writer is open on a store that had a blob: with its metadata deleted none is found; if that failed, as many bytes as it had are taken for it, without a checksum whatever was written over them, and with one exactly if their checksum is that of the old ones |
| BlobStore.WriteThenRead | pw_blob_store/blob_store.cc:182-280 | Any sequence of writes and a close: reading gives their concatenation; all of it succeeds if flash does and they fit |
| BlobStore.WriteDeferredThenRead | pw_blob_store/blob_store.cc:282-367 | The same for a writer that fills the buffer and is flushed at any time |

## Left out

Contracts that are weaker than the code, or ask for more:

- KvsStore.KeyValueStore.FindEntry: looks at the first copy of an entry only, which on a flash of whole entries is the one that counts.
- KvsStore.KeyValueStore.PutBytes: asks for a key that is not taken for another, since its write would leave two keys of one hash on flash (`KvsLookup.ConfusedWriteIsLost`), and for a transaction id below the last 32-bit one, since the source does not handle a counter that wraps round; `KvsRollover.NextIdCounts` says exactly when the next id still counts.
- KvsStore.KeyValueStore.Delete: the same.
- KvsRuns.Run: asks for operations on keys in use, those of one hash having one length, because of the same confusion.
- KvsRuns.RunThenGet: the same, and for a read of a key in use.
- KvsRuns.RestartAfterCut: the same.
- KvsRuns.RunThenRestart: the same.
- KvsDevice.RunOnDevice: the same, and for an alignment of at most 4096 bytes that divides the sector size, which is what a header can say.
- KvsLookup.SourceHash: takes char to be unsigned, which is up to the compiler and matters for bytes from 128 on.
- KvsStore.KeyValueStore.ScanForEntry: finds entries at aligned offsets; bytes inside of a value that look like an entry are not modelled.
- KvsStore.KeyValueStore.Init: is the one without automatic repair; the checks of its configuration are the type of the parameters.
- KvsStore.KeyValueStore.PartialMaintenance: is that of a store with no error detected, which does not have to repair first.
- RingBuffer.PrefixedEntryRingBuffer.InternalPushBack: asks for an entry shorter than 2^32 bytes, which is what its length field holds.
- Multisink.MultiSink.PeekOrPopEntry: what is written behind the end of a destination is not what the sink or its ring is made of.
- Multisink.Run: the same.
- MultisinkHistory.IngressGapTold: is for less than 2^32 ids; from there on counts are known modulo 2^32 alone.
- Multisink.PopAfterDrops: is for a drain that was caught up; the condition for any other is in `Multisink.PopOne`.
- KvsCapacity.NeverFull: is for one copy of each entry; with more, a collection may find no target for a copy.
- EntryFormat.DamageThenVerify: is for any algorithm that tells states and bytes apart, as a cyclic redundancy check does; no one algorithm is modelled for entries.
- Heap.FreeListHeap.Free: a pointer into the region has to be the start of a block's usable space; the header in front of any other is not modelled.
- Heap.FreeListHeap.Realloc: the same.
- HeapBlocks.BlockList.constructor: the size of the region is a multiple of four, since the end of it is kept with two flags in its lowest bits.
- Heap.FreeListHeap.constructor: the size of the region is a multiple of four, and the region is aligned.
- HeapBlocks.BlockList.CheckStatus: the poison bytes are not modelled.
- ProtobufEncoder.MemoryEncoder.WriteBytes: asks for fewer than 2^32 bytes; a larger size is cut to 32 bits in the source.
- ProtobufEncoder.MemoryEncoder.GetNestedEncoder: asks for a valid field number and no open nested encoder; the source crashes otherwise.
- IntPrint.SignedToString: leaves out the least 64-bit value, whose negation overflows.
- BlobStore.BlobStore.Write: a writer is either deferred or direct from its opening on; the source crashes if a direct write finds a whole chunk held back.
- BlobStore.BlobStore.LoadMetadata: expects metadata without a checksum not to speak of more bytes than the partition has; the source believes them.
- BlobStore.BlobStore.Init: the same.
- AlignedWriter.AlignedWriter.Write: asks for erased room for all that it is given, because the source leaves that to the owner of the address.
- EntryFormat.Entry.Copy: the same, and for a target that does not overlap the entry.

Not modelled:

- Flash errors in the key-value store, and with them repair and full maintenance; the branch of garbage collection for entries that could not be moved although every move succeeded is proved to be unreachable.
- Stores with several entry formats, and the update of their entries.
- Store and blob reads that fail; iteration over the store; statistics and logging.
- 16-bit and 32-bit widths in sector descriptors and addresses, where the bound on the sector size rules overflow out.
- The address array of the index with its unused places, which is a sequence for each descriptor.
- A power cut inside the write of one entry: a cut falls between whole entries.
- The 256 constants of the CRC table; an entry of it is its index divided bit by bit by the polynomial they are generated from.
- Writers and readers that are not in memory, for HDLC and protobuf; the protobuf encoder with a scratch buffer of its own; packed fields, table-driven messages, the stream decoder and the callback decoder.
- Headers of blocks and nodes of free lists as bytes: they are maps, and each write of one also overwrites the bytes it takes up with arbitrary ones.
- Calloc, heap statistics, and crash handlers.
- The ring buffer without a buffer, and output through callbacks.
- Listeners and locks of the multisink.
- How FreeRTOS waits: its wait either takes a notification or times out; fairness and time.
- Base64, floating point numbers and pointers in strings; file names of blobs, memory-mapped blobs, seeking, and checksums of blobs other than CRC-32.
- The remaining modules: RPC, drivers, boot code, backends, tools.
