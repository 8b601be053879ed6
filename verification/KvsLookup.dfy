/**
 How a key is looked up, EntryCache::Find in pw_kvs/entry_cache.cc: by its hash, and then by comparing it with as
 many stored bytes as it has itself, from where the key of the first copy begins. That is no comparison of keys.
 Here is what it answers, and exactly when that is what the contents say.
 */
module KvsLookup {
  import opened KvsEntry
  import opened KvsFlash
  import opened KvsContents
  import opened KvsIndex
  import opened KvsCache
  import opened AlignedWriter
  import FlashMemory
  import Varint

  // ---------------------------------------------------------------- the stored bytes

  function HeaderBytes(g: Geometry, e: Entry): (bytes: Bytes)
    ensures |bytes| == HEADER_SIZE
  {
    seq(HEADER_SIZE, i requires 0 <= i < HEADER_SIZE => g.header(e, i))
  }

  function Image(g: Geometry, e: Entry): (bytes: Bytes)
    ensures |bytes| == Size(g, e)
  {
    Padded(HeaderBytes(g, e) + e.key + e.value, g.alignment)
  }

  /** The bytes of a sector from the start of an entry, or of the erased tail, on. */
  function SectorFrom(g: Geometry, m: Sector, o: nat): Bytes
    decreases if o < g.sectorSize then g.sectorSize - o else 0
  {
    if o in m then
      Image(g, m[o]) + if After(g, m, o) < g.sectorSize then SectorFrom(g, m, After(g, m, o)) else []
    else if o < g.sectorSize then seq(g.sectorSize - o, _ => FlashMemory.ERASED)
    else []
  }

  /** The bytes of sector s and those behind it. */
  function SectorsFrom(g: Geometry, flash: Flash, s: nat): Bytes
    decreases |flash| - s
  {
    if s < |flash| then SectorFrom(g, flash[s], 0) + SectorsFrom(g, flash, s + 1) else []
  }

  /** The bytes of the partition from an entry on. */
  function FlashFrom(g: Geometry, flash: Flash, a: Address): Bytes
    requires Has(flash, a)
  {
    SectorFrom(g, flash[a.sector], a.offset) + SectorsFrom(g, flash, a.sector + 1)
  }

  predicate InvalidKey(key: Key) {
    key == [] || MAX_KEY_LENGTH < |key|
  }

  predicate Holds(bytes: Bytes, n: nat) {
    0 < n <= MAX_KEY_LENGTH && HEADER_SIZE + n <= |bytes|
  }

  /**
   Entry::ReadKey of as many bytes as the key asked for has. A read past the end of the partition fails and
   leaves in the buffer what was there.
   */
  function KeyRead(g: Geometry, flash: Flash, a: Address, n: nat, stray: Bytes): Bytes
    requires Has(flash, a)
  {
    var bytes := FlashFrom(g, flash, a);
    if Holds(bytes, n) then bytes[HEADER_SIZE..HEADER_SIZE + n] else stray
  }

  lemma ImageFront(g: Geometry, e: Entry)
    ensures HEADER_SIZE + |e.key| + |e.value| <= |Image(g, e)|
    ensures Image(g, e)[HEADER_SIZE..HEADER_SIZE + |e.key|] == e.key
    ensures forall k :: HEADER_SIZE + |e.key| + |e.value| <= k < Size(g, e) ==> Image(g, e)[k] == 0
  {
    var front := HeaderBytes(g, e) + e.key;
    var content := front + e.value;
    var rest := Size(g, e) - |content|;
    assert Image(g, e) == content + Zeros(rest);
    assert front[HEADER_SIZE..] == e.key;
    ZerosAre0(rest);
    forall k | |content| <= k < Size(g, e)
      ensures Image(g, e)[k] == 0
    {
      assert Image(g, e)[k] == Zeros(rest)[k - |content|];
    }
  }

  /** A key read back at its own length is itself. */
  lemma KeyReadBack(g: Geometry, flash: Flash, a: Address, stray: Bytes)
    requires Has(flash, a) && !InvalidKey(At(flash, a).key)
    ensures Holds(FlashFrom(g, flash, a), |At(flash, a).key|)
    ensures KeyRead(g, flash, a, |At(flash, a).key|, stray) == At(flash, a).key
  {
    var e := At(flash, a);
    ImageFront(g, e);
    var bytes := FlashFrom(g, flash, a);
    assert |Image(g, e)| <= |bytes| && bytes[..|Image(g, e)|] == Image(g, e);
    forall k | 0 <= k < |e.key|
      ensures bytes[HEADER_SIZE + k] == e.key[k]
    {
      assert bytes[..|Image(g, e)|][HEADER_SIZE + k] == Image(g, e)[HEADER_SIZE..HEADER_SIZE + |e.key|][k];
    }
    assert bytes[HEADER_SIZE..HEADER_SIZE + |e.key|] == e.key;
  }

  // ---------------------------------------------------------------- the search

  /** Some entry on flash, live, stale or a tombstone, has this key. */
  ghost predicate Knows(flash: Flash, key: Key) {
    exists a :: Has(flash, a) && At(flash, a).key == key
  }

  /** Some entry on flash has another key with the hash of this one. */
  ghost predicate Collides(g: Geometry, flash: Flash, key: Key) {
    exists a :: Has(flash, a) && At(flash, a).key != key && g.hash(At(flash, a).key) == g.hash(key)
  }

  /** What a search for the key should answer. */
  ghost function RightAnswer(g: Geometry, flash: Flash, key: Key): Status {
    if Knows(flash, key) then Ok else if Collides(g, flash, key) then AlreadyExists else NotFound
  }

  /** What the search answers. */
  ghost function Found(g: Geometry, flash: Flash, index: Index, key: Key, stray: Bytes): Status
    requires Indexed(g, flash, index)
  {
    var i := IndexOf(index, g.hash(key));
    if i == -1 then NotFound
    else
      assert Sound(g, flash, index[i]);
      if KeyRead(g, flash, index[i].addresses[0], |key|, stray) == key then Ok else AlreadyExists
  }

  /** The entry at the address has another key, but its stored bytes do not tell. */
  ghost predicate Confusable(g: Geometry, flash: Flash, a: Address, key: Key)
    requires Has(flash, a)
  {
    && At(flash, a).key != key
    && var bytes := FlashFrom(g, flash, a);
    (Holds(bytes, |key|) ==> bytes[HEADER_SIZE..HEADER_SIZE + |key|] == key)
  }

  /**
   The key may be taken for the one of the newest entry with its hash: that has another key, and its stored bytes
   begin with the key asked for, or end before that.
   */
  ghost predicate Confused(g: Geometry, flash: Flash, index: Index, key: Key) {
    var i := IndexOf(index, g.hash(key));
    i != -1 && 0 < |index[i].addresses| && Has(flash, index[i].addresses[0])
    && Confusable(g, flash, index[i].addresses[0], key)
  }

  lemma NoSuchHash(g: Geometry, flash: Flash, index: Index, key: Key)
    requires Agrees(g, flash, index) && forall k :: 0 <= k < |index| ==> index[k].hash != g.hash(key)
    ensures !Knows(flash, key) && !Collides(g, flash, key)
  {
    forall a | Has(flash, a)
      ensures g.hash(At(flash, a).key) != g.hash(key)
    {
      var k := Cover(g, flash, index, a);
    }
  }

  lemma HashFound(g: Geometry, flash: Flash, index: Index, i: nat, key: Key)
    requires Agrees(g, flash, index) && i < |index| && index[i].hash == g.hash(key)
    ensures Sound(g, flash, index[i])
    ensures Knows(flash, key) <==> EntryOf(flash, index[i]).key == key
    ensures Collides(g, flash, key) <==> EntryOf(flash, index[i]).key != key
  {
    assert Sound(g, flash, index[i]);
    assert Has(flash, index[i].addresses[0]);
    AgreementHasNoCollision(g, flash, index);
  }

  /** A search answers right, whatever is in its buffer, exactly when the key cannot be taken for another. */
  lemma FoundIsRight(g: Geometry, flash: Flash, index: Index, key: Key)
    requires Agrees(g, flash, index) && !InvalidKey(key)
    ensures (forall stray :: Found(g, flash, index, key, stray) == RightAnswer(g, flash, key))
      <==> !Confused(g, flash, index, key)
  {
    var i := IndexOf(index, g.hash(key));
    if i == -1 {
      NoSuchHash(g, flash, index, key);
    } else {
      HashFound(g, flash, index, i, key);
      var a := index[i].addresses[0];
      if At(flash, a).key == key {
        forall stray
          ensures Found(g, flash, index, key, stray) == Ok
        {
          KeyReadBack(g, flash, a, stray);
        }
      } else if Confused(g, flash, index, key) {
        assert Found(g, flash, index, key, key) == Ok;
      }
    }
  }

  // ---------------------------------------------------------------- reading

  /** What Get answers, in terms of the contents. */
  ghost function ReadFrom(contents: imap<Key, Bytes>, key: Key, size: nat, offset: nat): (Status, Bytes) {
    if key !in contents then (NotFound, [])
    else if |contents[key]| < offset then (OutOfRange, [])
    else if size < |contents[key]| - offset then (ResourceExhausted, contents[key][offset..][..size])
    else (Ok, contents[key][offset..])
  }

  /** Entry::ReadValue, then Entry::VerifyChecksum if the value was read whole. */
  ghost function ReadOf(g: Geometry, e: Entry, key: Key, size: nat, offset: nat): (Status, Bytes) {
    if |e.value| < offset then (OutOfRange, [])
    else if size < |e.value| - offset then (ResourceExhausted, e.value[offset..][..size])
    else if offset == 0 && e.key != key && !g.verifies(e, key) then (DataLoss, [])
    else (Ok, e.value[offset..])
  }

  /** KeyValueStore::FindExisting: keys with a colliding hash and deleted keys are not found. */
  ghost predicate Exists(g: Geometry, flash: Flash, index: Index, key: Key, stray: Bytes)
    requires Indexed(g, flash, index)
  {
    Found(g, flash, index, key, stray) == Ok && !index[IndexOf(index, g.hash(key))].deleted
  }

  /** What Get answers. */
  ghost function Retrieved(
    g: Geometry, flash: Flash, index: Index, key: Key, size: nat, offset: nat, stray: Bytes): (Status, Bytes)
    requires Indexed(g, flash, index)
  {
    if !Exists(g, flash, index, key, stray) then (NotFound, [])
    else
      var m := index[IndexOf(index, g.hash(key))];
      assert Sound(g, flash, m);
      ReadOf(g, EntryOf(flash, m), key, size, offset)
  }

  /** A key that cannot be taken for another exists exactly if it is in the contents. */
  lemma ExistsIsRight(g: Geometry, flash: Flash, index: Index, key: Key, stray: Bytes)
    requires Agrees(g, flash, index) && !InvalidKey(key) && !Confused(g, flash, index, key)
    ensures Exists(g, flash, index, key, stray) <==> key in Contents(flash)
    ensures Exists(g, flash, index, key, stray) ==>
      var i := IndexOf(index, g.hash(key));
      Sound(g, flash, index[i]) && EntryOf(flash, index[i]) == Entry(key, Contents(flash)[key], false, index[i].id)
  {
    hide Contents, Confusable, KeyRead, Found, Knows, Collides;
    FoundIsRight(g, flash, index, key);
    var i := IndexOf(index, g.hash(key));
    if i == -1 {
      NoSuchHash(g, flash, index, key);
      UnknownIsAbsent(flash, key);
    } else {
      HashFound(g, flash, index, i, key);
      LookupIsContents(g, flash, index, i);
      if !Knows(flash, key) {
        UnknownIsAbsent(flash, key);
      }
    }
  }

  /** Reading a key answers from the contents exactly when it cannot be taken for another key that is there. */
  lemma RetrievedIsRight(g: Geometry, flash: Flash, index: Index, key: Key, size: nat, offset: nat)
    requires Agrees(g, flash, index) && !InvalidKey(key)
    ensures (forall stray :: Retrieved(g, flash, index, key, size, offset, stray) == ReadFrom(Contents(flash), key, size, offset))
      <==> (!Confused(g, flash, index, key) || index[IndexOf(index, g.hash(key))].deleted)
  {
    hide Contents, Confusable, KeyRead, Found, Knows, Collides;
    FoundIsRight(g, flash, index, key);
    var i := IndexOf(index, g.hash(key));
    if i == -1 {
      NoSuchHash(g, flash, index, key);
      UnknownIsAbsent(flash, key);
    } else {
      HashFound(g, flash, index, i, key);
      LookupIsContents(g, flash, index, i);
      if EntryOf(flash, index[i]).key != key {
        UnknownIsAbsent(flash, key);
        if Confused(g, flash, index, key) && !index[i].deleted {
          ConfusedIsFound(g, flash, index, key);
          assert Retrieved(g, flash, index, key, size, offset, key) == ReadOf(g, EntryOf(flash, index[i]), key, size, offset);
        }
      } else {
        OwnIsNotConfused(g, flash, index, i, key);
      }
    }
  }

  lemma OwnIsNotConfused(g: Geometry, flash: Flash, index: Index, i: nat, key: Key)
    requires i < |index| && Sound(g, flash, index[i]) && EntryOf(flash, index[i]).key == key
    requires i == IndexOf(index, g.hash(key))
    ensures !Confused(g, flash, index, key)
  {
  }

  lemma ConfusedIsFound(g: Geometry, flash: Flash, index: Index, key: Key)
    requires Agrees(g, flash, index) && Confused(g, flash, index, key)
    ensures Found(g, flash, index, key, key) == Ok
  {
  }

  lemma UnknownIsAbsent(flash: Flash, key: Key)
    requires !Knows(flash, key)
    ensures key !in Contents(flash)
  {
  }

  // ---------------------------------------------------------------- keys that are never confused

  /** Keys in use with one hash have one length. In particular this is so if no two of them have one hash. */
  ghost predicate KeysApart(g: Geometry) {
    forall k, l :: g.inUse(k) && g.inUse(l) && g.hash(k) == g.hash(l) ==> |k| == |l|
  }

  lemma ApartIsNotConfused(g: Geometry, flash: Flash, index: Index, key: Key)
    requires KeysApart(g) && g.inUse(key) && !InvalidKey(key) && Agrees(g, flash, index)
    requires forall a :: Has(flash, a) ==> g.inUse(At(flash, a).key)
    ensures !Confused(g, flash, index, key)
  {
    hide FlashFrom, IndexOf;
    var i := IndexOf(index, g.hash(key));
    if i != -1 {
      assert Sound(g, flash, index[i]);
      if |At(flash, index[i].addresses[0]).key| == |key| {
        KeyReadBack(g, flash, index[i].addresses[0], []);
      }
    }
  }

  /** The write of a confused key leaves two keys of one hash on flash, which no index agrees with. */
  lemma ConfusedWriteIsLost(g: Geometry, flash: Flash, index: Index, a: Address, e: Entry)
    requires Agrees(g, flash, index) && Confused(g, flash, index, e.key)
    requires a.sector < |flash| && !Has(flash, a)
    ensures forall index' :: !Agrees(g, Put(flash, a, e), index')
  {
    var flash', b := Put(flash, a, e), index[IndexOf(index, g.hash(e.key))].addresses[0];
    assert Sound(g, flash, index[IndexOf(index, g.hash(e.key))]);
    PutHas(flash, a, e);
    assert Has(flash', b) && Has(flash', a) && At(flash', b).key != At(flash', a).key;
    assert !NoCollision(g, flash');
    forall index' | Agrees(g, flash', index')
      ensures false
    {
      AgreementHasNoCollision(g, flash', index');
    }
  }

  // ---------------------------------------------------------------- the hash function of the store

  const HASH_COEFFICIENT := 65599

  function HashFrom(key: Key, coefficient: nat): Varint.Uint32 {
    if key == [] then 0
    else
      (coefficient * key[0] + HashFrom(key[1..], coefficient * HASH_COEFFICIENT % Varint.TWO_TO_THE_32))
        % Varint.TWO_TO_THE_32
  }

  /** pw_kvs/public/pw_kvs/internal/hash.h, where char is unsigned. */
  function SourceHash(key: Key): Varint.Uint32 {
    HashFrom(key, HASH_COEFFICIENT)
  }

  ghost predicate HashesAsSource(g: Geometry) {
    forall key :: g.hash(key) == SourceHash(key)
  }

  lemma {:induction false} NulAddsNothing(key: Key, coefficient: nat)
    ensures HashFrom(key + [0], coefficient) == HashFrom(key, coefficient)
  {
    if key == [] {
      assert coefficient * 0 == 0;
      assert (key + [0])[0] == 0 && (key + [0])[1..] == [];
    } else {
      assert (key + [0])[1..] == key[1..] + [0];
      NulAddsNothing(key[1..], coefficient * HASH_COEFFICIENT % Varint.TWO_TO_THE_32);
    }
  }

  lemma IndexOfOne(m: Metadata, hash: nat)
    requires m.hash == hash
    ensures IndexOf([m], hash) == 0
  {
  }

  /** A store that holds one entry. */
  ghost function Holding(g: Geometry, e: Entry): Flash {
    seq(g.sectorCount, s => if s == 0 then map[0 := e] else map[])
  }

  ghost function IndexHolding(g: Geometry, e: Entry): Index {
    [Descriptor(g, e, [Address(0, 0)])]
  }

  lemma HoldingAgrees(g: Geometry, e: Entry)
    ensures Agrees(g, Holding(g, e), IndexHolding(g, e))
    ensures forall a :: Has(Holding(g, e), a) <==> a == Address(0, 0)
    ensures At(Holding(g, e), Address(0, 0)) == e
  {
    var flash, index := Holding(g, e), IndexHolding(g, e);
    assert Has(flash, Address(0, 0)) && At(flash, Address(0, 0)) == e;
    assert Sound(g, flash, index[0]);
    forall a | Has(flash, a)
      ensures a == Address(0, 0) && HasCover(g, flash, index, At(flash, a))
    {
      assert Covers(g, flash, index[0], At(flash, a));
    }
  }

  /**
   With its hash function the store is no map: wherever a key is stored with a NUL at its end, it is also found
   without the NUL, although it is not there.
   */
  lemma TrailingNulIsLost(g: Geometry, flash: Flash, index: Index, key: Key, stray: Bytes)
    requires HashesAsSource(g) && 0 < |key| < MAX_KEY_LENGTH
    requires Agrees(g, flash, index) && Knows(flash, key + [0])
    ensures key !in Contents(flash) && Found(g, flash, index, key, stray) == Ok && Confused(g, flash, index, key)
    ensures IndexOf(index, g.hash(key)) != -1
    ensures var m := index[IndexOf(index, g.hash(key))];
      Sound(g, flash, m) && EntryOf(flash, m).key == key + [0]
  {
    hide FlashFrom, Contents;
    NulAddsNothing(key, HASH_COEFFICIENT);
    var i := IndexOf(index, g.hash(key));
    if i == -1 {
      NoSuchHash(g, flash, index, key + [0]);
      assert false;
    }
    HashFound(g, flash, index, i, key + [0]);
    HashFound(g, flash, index, i, key);
    UnknownIsAbsent(flash, key);
    var a := index[i].addresses[0];
    KeyReadBack(g, flash, a, stray);
    var bytes := FlashFrom(g, flash, a);
    assert bytes[HEADER_SIZE..HEADER_SIZE + |key|] == bytes[HEADER_SIZE..HEADER_SIZE + |key| + 1][..|key|];
    assert (key + [0])[..|key|] == key;
  }

  /**
   One flash on which a key is read that is not there. The value comes back if the checksum of its entry passes for the
   key asked for or reads are not verified; if not, the answer is DATA_LOSS, where it should be NOT_FOUND.
   */
  lemma TrailingNulReads(g: Geometry, value: Bytes, stray: Bytes)
    requires HashesAsSource(g)
    ensures var e, flash, index := NulEntry(value), Holding(g, NulEntry(value)), IndexHolding(g, NulEntry(value));
      && Agrees(g, flash, index) && [97] !in Contents(flash)
      && Retrieved(g, flash, index, [97], |value|, 0, stray) == if g.verifies(e, [97]) then (Ok, value) else (DataLoss, [])
  {
    var e := NulEntry(value);
    var flash, index := Holding(g, e), IndexHolding(g, e);
    HoldingAgrees(g, e);
    assert e.key == [97] + [0];
    assert Has(flash, Address(0, 0)) && At(flash, Address(0, 0)).key == [97] + [0];
    TrailingNulIsLost(g, flash, index, [97], stray);
    assert value[0..] == value;
  }

  /** Key "a" with a NUL behind it. */
  function NulEntry(value: Bytes): Entry {
    Entry([97, 0], value, false, 1)
  }

  /** One that is stored without a value is found with a NUL at its end: the padding continues it. */
  lemma PaddingIsTaken(g: Geometry, key: Key, stray: Bytes)
    requires HashesAsSource(g) && 0 < |key| < MAX_KEY_LENGTH && HEADER_SIZE + |key| < EntrySize(g, key, [])
    ensures var e := Entry(key, [], false, 1);
      && Agrees(g, Holding(g, e), IndexHolding(g, e)) && key + [0] !in Contents(Holding(g, e))
      && Found(g, Holding(g, e), IndexHolding(g, e), key + [0], stray) == Ok
  {
    var e := Entry(key, [], false, 1);
    var flash, index := Holding(g, e), IndexHolding(g, e);
    HoldingAgrees(g, e);
    NulAddsNothing(key, HASH_COEFFICIENT);
    IndexOfOne(index[0], g.hash(key + [0]));
    KeyReadBack(g, flash, Address(0, 0), stray);
    ImageFront(g, e);
    var bytes, n := FlashFrom(g, flash, Address(0, 0)), HEADER_SIZE + |key|;
    assert bytes[n] == Image(g, e)[n] == 0;
    assert bytes[HEADER_SIZE..n + 1] == bytes[HEADER_SIZE..n] + [bytes[n]];
    assert key + [0] != key;
    UnknownIsAbsent(flash, key + [0]);
  }
}
