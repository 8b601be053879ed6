/** The index of the store, pw_kvs/entry_cache.cc, and what it means for it to agree with the flash. */
module KvsIndex {
  import opened KvsEntry
  import opened KvsFlash
  import opened KvsContents

  /** A KeyDescriptor with its addresses. */
  datatype Metadata = Metadata(hash: nat, id: nat, deleted: bool, addresses: seq<Address>)

  type Index = seq<Metadata>

  function Descriptor(g: Geometry, e: Entry, addresses: seq<Address>): Metadata {
    Metadata(g.hash(e.key), e.id, e.deleted, addresses)
  }

  ghost function Live(index: Index): set<Address> {
    set i, j | 0 <= i < |index| && 0 <= j < |index[i].addresses| :: index[i].addresses[j]
  }

  /** The copies of one write lie in pairwise distinct sectors. */
  ghost predicate DistinctSectors(addresses: seq<Address>) {
    forall i, j :: 0 <= i < j < |addresses| ==> addresses[i].sector != addresses[j].sector
  }

  /** A descriptor and its addresses describe one entry, found whole at each of them. */
  ghost predicate Describes(g: Geometry, flash: Flash, m: Metadata, e: Entry) {
    && 0 < |m.addresses| <= g.redundancy
    && (forall j :: 0 <= j < |m.addresses| ==> Has(flash, m.addresses[j]) && At(flash, m.addresses[j]) == e)
    && DistinctSectors(m.addresses)
    && m == Descriptor(g, e, m.addresses)
  }

  ghost function EntryOf(flash: Flash, m: Metadata): Entry
    requires 0 < |m.addresses| && Has(flash, m.addresses[0])
  {
    At(flash, m.addresses[0])
  }

  ghost predicate Sound(g: Geometry, flash: Flash, m: Metadata) {
    && 0 < |m.addresses| && Has(flash, m.addresses[0])
    && Describes(g, flash, m, EntryOf(flash, m))
  }

  ghost predicate DistinctHashes(index: Index) {
    forall i, k :: 0 <= i < k < |index| ==> index[i].hash != index[k].hash
  }

  /** Every descriptor is sound, and no two are for one hash. */
  ghost predicate Indexed(g: Geometry, flash: Flash, index: Index) {
    && |index| <= g.maxEntries
    && (forall i :: 0 <= i < |index| ==> Sound(g, flash, index[i]))
    && DistinctHashes(index)
  }

  ghost predicate Covers(g: Geometry, flash: Flash, m: Metadata, e: Entry) {
    Sound(g, flash, m) && EntryOf(flash, m).key == e.key && e.id <= m.id
  }

  /** Every entry on flash, live or stale, has a descriptor of its key that is no older. */
  ghost predicate Covered(g: Geometry, flash: Flash, index: Index) {
    forall a {:trigger HasCover(g, flash, index, At(flash, a))} ::
      Has(flash, a) ==> HasCover(g, flash, index, At(flash, a))
  }

  ghost predicate HasCover(g: Geometry, flash: Flash, index: Index, e: Entry) {
    exists i :: 0 <= i < |index| && Covers(g, flash, index[i], e)
  }

  predicate RegularEntry(g: Geometry, e: Entry, lastId: nat) {
    e.id <= lastId && Storable(e) && g.inUse(e.key)
  }

  /** Every entry on flash has an id up to this one, fits its header and is of a key in use. */
  ghost predicate Regular(g: Geometry, flash: Flash, lastId: nat) {
    forall a :: Has(flash, a) ==> RegularEntry(g, At(flash, a), lastId)
  }

  /** The index points at the newest entry of each key on flash, and at nothing else. */
  ghost predicate Agrees(g: Geometry, flash: Flash, index: Index) {
    && Indexed(g, flash, index)
    && Covered(g, flash, index)
    && UniqueIds(flash)
  }

  lemma LiveHas(g: Geometry, flash: Flash, index: Index)
    requires Indexed(g, flash, index)
    ensures forall a :: a in Live(index) ==> Has(flash, a)
  {
    forall a | a in Live(index)
      ensures Has(flash, a)
    {
      var i, j :| 0 <= i < |index| && 0 <= j < |index[i].addresses| && a == index[i].addresses[j];
      assert Sound(g, flash, index[i]);
    }
  }

  lemma Cover(g: Geometry, flash: Flash, index: Index, a: Address) returns (k: nat)
    requires Covered(g, flash, index) && Has(flash, a)
    ensures k < |index| && Covers(g, flash, index[k], At(flash, a))
  {
    assert HasCover(g, flash, index, At(flash, a));
    k :| 0 <= k < |index| && Covers(g, flash, index[k], At(flash, a));
  }

  lemma HashesApart(index: Index, i: nat, k: nat)
    requires DistinctHashes(index) && i < |index| && k < |index| && index[i].hash == index[k].hash
    ensures i == k
  {
  }

  /** The descriptor that covers an entry is the one with its hash. */
  lemma CoverIsByHash(g: Geometry, flash: Flash, index: Index, a: Address, i: nat)
    requires DistinctHashes(index) && Covered(g, flash, index) && Has(flash, a)
    requires i < |index| && index[i].hash == g.hash(At(flash, a).key)
    ensures Covers(g, flash, index[i], At(flash, a))
  {
    var k := Cover(g, flash, index, a);
    HashesApart(index, i, k);
  }

  /** An indexed copy is a newest entry of its key. */
  lemma IndexedIsNewest(g: Geometry, flash: Flash, index: Index, i: nat, j: nat)
    requires DistinctHashes(index) && Covered(g, flash, index)
    requires i < |index| && Sound(g, flash, index[i]) && j < |index[i].addresses|
    ensures Newest(flash, index[i].addresses[j])
  {
    var a := index[i].addresses[j];
    forall b | Has(flash, b) && At(flash, b).key == At(flash, a).key
      ensures At(flash, b).id <= At(flash, a).id
    {
      CoverIsByHash(g, flash, index, b, i);
    }
  }

  /** Looking a key up in the index gives what the flash contains for it. */
  lemma LookupIsContents(g: Geometry, flash: Flash, index: Index, i: nat)
    requires Agrees(g, flash, index) && i < |index|
    ensures Sound(g, flash, index[i])
    ensures var e := EntryOf(flash, index[i]);
            && (e.key in Contents(flash) <==> !index[i].deleted)
            && (e.key in Contents(flash) ==> Contents(flash)[e.key] == e.value)
  {
    assert Sound(g, flash, index[i]);
    IndexedIsNewest(g, flash, index, i, 0);
    ContentsAt(flash, index[i].addresses[0]);
  }

  lemma MissIsAbsent(g: Geometry, flash: Flash, index: Index, key: Key)
    requires Agrees(g, flash, index)
    requires forall i :: 0 <= i < |index| && index[i].hash == g.hash(key) ==>
      Sound(g, flash, index[i]) && EntryOf(flash, index[i]).key != key
    ensures key !in Contents(flash)
    ensures forall a :: Has(flash, a) ==> At(flash, a).key != key
  {
    forall a | Has(flash, a)
      ensures At(flash, a).key != key
    {
      var i := Cover(g, flash, index, a);
      assert Sound(g, flash, index[i]);
    }
  }

  /** Keys with one hash on flash are one key. */
  lemma AgreementHasNoCollision(g: Geometry, flash: Flash, index: Index)
    requires DistinctHashes(index) && Covered(g, flash, index)
    ensures NoCollision(g, flash)
  {
    forall a, b | Has(flash, a) && Has(flash, b) && g.hash(At(flash, a).key) == g.hash(At(flash, b).key)
      ensures At(flash, a).key == At(flash, b).key
    {
      var i := Cover(g, flash, index, a);
      CoverIsByHash(g, flash, index, b, i);
    }
  }

  /** Two descriptors never share an address. */
  lemma AddressesApart(g: Geometry, flash: Flash, index: Index, i: nat, j: nat, k: nat, l: nat)
    requires Indexed(g, flash, index)
    requires i < |index| && k < |index| && i != k && j < |index[i].addresses| && l < |index[k].addresses|
    ensures index[i].addresses[j] != index[k].addresses[l]
  {
    assert Sound(g, flash, index[i]) && Sound(g, flash, index[k]);
    if index[i].hash == index[k].hash {
      HashesApart(index, i, k);
    }
  }

  ghost function AddressSet(addresses: seq<Address>): set<Address> {
    set j | 0 <= j < |addresses| :: addresses[j]
  }

  /** Replacing one descriptor replaces its addresses in the live set. */
  lemma LiveReplaced(g: Geometry, flash: Flash, index: Index, i: nat, m: Metadata)
    requires Indexed(g, flash, index) && i < |index|
    ensures Live(index[i := m]) == Live(index) - AddressSet(index[i].addresses) + AddressSet(m.addresses)
  {
    var index' := index[i := m];
    forall a | a in Live(index')
      ensures a in Live(index) - AddressSet(index[i].addresses) + AddressSet(m.addresses)
    {
      var k, l :| 0 <= k < |index'| && 0 <= l < |index'[k].addresses| && a == index'[k].addresses[l];
      if k != i {
        assert a == index[k].addresses[l];
        forall j | 0 <= j < |index[i].addresses|
          ensures a != index[i].addresses[j]
        {
          AddressesApart(g, flash, index, i, j, k, l);
        }
      }
    }
    forall a | a in AddressSet(m.addresses)
      ensures a in Live(index')
    {
      var l :| 0 <= l < |m.addresses| && a == m.addresses[l];
      assert a == index'[i].addresses[l];
    }
    forall a | a in Live(index) && a !in AddressSet(index[i].addresses)
      ensures a in Live(index')
    {
      var k, l :| 0 <= k < |index| && 0 <= l < |index[k].addresses| && a == index[k].addresses[l];
      assert a == index'[k].addresses[l];
    }
  }

  lemma LiveExtended(index: Index, m: Metadata)
    ensures Live(index + [m]) == Live(index) + AddressSet(m.addresses)
  {
    var index' := index + [m];
    forall a
      ensures a in Live(index') <==> a in Live(index) + AddressSet(m.addresses)
    {
      if a in Live(index) {
        var k, l :| 0 <= k < |index| && 0 <= l < |index[k].addresses| && a == index[k].addresses[l];
        assert a == index'[k].addresses[l];
      } else if a in AddressSet(m.addresses) {
        var l :| 0 <= l < |m.addresses| && a == m.addresses[l];
        assert a == index'[|index|].addresses[l];
      }
    }
  }

  // ---------------------------------------------------------------- one more entry on flash

  /** Old descriptors stay sound when an entry is written to an address that was free. */
  lemma SoundAfterPut(g: Geometry, flash: Flash, a: Address, e: Entry, m: Metadata)
    requires a.sector < |flash| && !Has(flash, a) && Sound(g, flash, m)
    ensures Sound(g, Put(flash, a, e), m) && EntryOf(Put(flash, a, e), m) == EntryOf(flash, m)
  {
    PutHas(flash, a, e);
  }

  /** Writing a new key, or a new entry of an old one, and indexing it keeps the agreement. */
  lemma AgreesAfterWrite(g: Geometry, flash: Flash, index: Index, a: Address, e: Entry, i: nat)
    requires Agrees(g, flash, index)
    requires a.sector < |flash| && !Has(flash, a)
    requires forall b :: Has(flash, b) ==> At(flash, b).id < e.id
    requires i <= |index|
    requires i == |index| ==> |index| < g.maxEntries && forall k :: 0 <= k < |index| ==> index[k].hash != g.hash(e.key)
    requires i < |index| ==> Sound(g, flash, index[i]) && EntryOf(flash, index[i]).key == e.key
    ensures var index' := if i < |index| then index[i := Descriptor(g, e, [a])] else index + [Descriptor(g, e, [a])];
            Agrees(g, Put(flash, a, e), index')
  {
    var flash', m := Put(flash, a, e), Descriptor(g, e, [a]);
    var index' := if i < |index| then index[i := m] else index + [m];
    PutHas(flash, a, e);
    NewestAfterPut(flash, a, e);
    assert EntryOf(flash', m) == e;
    assert Sound(g, flash', m);
    assert index'[i] == m;
    forall k | 0 <= k < |index'|
      ensures Sound(g, flash', index'[k])
    {
      if k != i {
        SoundAfterPut(g, flash, a, e, index[k]);
      }
    }
    HashesAfterWrite(index, i, m);
    forall b | Has(flash', b)
      ensures HasCover(g, flash', index', At(flash', b))
    {
      if b == a {
        assert Covers(g, flash', index'[i], e);
      } else {
        var k := Cover(g, flash, index, b);
        if k == i {
          assert Covers(g, flash', index'[i], At(flash', b));
        } else {
          SoundAfterPut(g, flash, a, e, index[k]);
          assert Covers(g, flash', index'[k], At(flash', b));
        }
      }
    }
  }

  lemma HashesAfterWrite(index: Index, i: nat, m: Metadata)
    requires DistinctHashes(index) && i <= |index|
    requires i == |index| ==> forall k :: 0 <= k < |index| ==> index[k].hash != m.hash
    requires i < |index| ==> index[i].hash == m.hash
    ensures DistinctHashes(if i < |index| then index[i := m] else index + [m])
  {
  }

  /** Copying an indexed entry to a free address, without indexing the copy, keeps the agreement. */
  lemma AgreesAfterCopy(g: Geometry, flash: Flash, index: Index, a: Address, b: Address)
    requires Agrees(g, flash, index)
    requires a.sector < |flash| && !Has(flash, a) && Has(flash, b)
    ensures Agrees(g, Put(flash, a, At(flash, b)), index)
  {
    var e := At(flash, b);
    var flash' := Put(flash, a, e);
    PutHas(flash, a, e);
    ContentsAfterCopy(flash, a, b);
    forall k | 0 <= k < |index|
      ensures Sound(g, flash', index[k])
    {
      SoundAfterPut(g, flash, a, e, index[k]);
    }
    forall c | Has(flash', c)
      ensures HasCover(g, flash', index, At(flash', c))
    {
      var d := if c == a then b else c;
      var k := Cover(g, flash, index, d);
      SoundAfterPut(g, flash, a, e, index[k]);
      assert Covers(g, flash', index[k], At(flash', c));
    }
  }

  /** Giving a descriptor other addresses of the same entry keeps the agreement. */
  lemma AgreesAfterReaddress(g: Geometry, flash: Flash, index: Index, i: nat, addresses: seq<Address>)
    requires Agrees(g, flash, index) && i < |index|
    requires Sound(g, flash, index[i])
    requires Describes(g, flash, index[i].(addresses := addresses), EntryOf(flash, index[i]))
    ensures Agrees(g, flash, index[i := index[i].(addresses := addresses)])
  {
    var m := index[i].(addresses := addresses);
    var index' := index[i := m];
    assert Sound(g, flash, m) && EntryOf(flash, m) == EntryOf(flash, index[i]);
    forall k | 0 <= k < |index'|
      ensures Sound(g, flash, index'[k])
    {
      assert Sound(g, flash, index[k]);
    }
    forall a | Has(flash, a)
      ensures HasCover(g, flash, index', At(flash, a))
    {
      var k := Cover(g, flash, index, a);
      assert Covers(g, flash, index'[k], At(flash, a));
    }
  }

  lemma SoundAfterWipe(g: Geometry, flash: Flash, index: Index, s: nat, k: nat)
    requires s < |flash| && k < |index| && Sound(g, flash, index[k])
    requires forall a :: a in Live(index) ==> a.sector != s
    ensures Sound(g, Wiped(flash, s), index[k]) && EntryOf(Wiped(flash, s), index[k]) == EntryOf(flash, index[k])
  {
    WipedHas(flash, s);
    forall j | 0 <= j < |index[k].addresses|
      ensures Has(Wiped(flash, s), index[k].addresses[j])
    {
      assert index[k].addresses[j] in Live(index);
    }
  }

  lemma NothingLiveIsDispensable(g: Geometry, flash: Flash, index: Index, s: nat)
    requires DistinctHashes(index) && Covered(g, flash, index)
    requires forall a :: a in Live(index) ==> a.sector != s
    ensures Dispensable(flash, s)
  {
    forall a | Has(flash, a)
      ensures KeptOutside(flash, s, At(flash, a).key)
    {
      var k := Cover(g, flash, index, a);
      IndexedIsNewest(g, flash, index, k, 0);
      assert index[k].addresses[0] in Live(index);
    }
  }

  /** Erasing a sector without live addresses keeps the agreement and the contents. */
  lemma AgreesAfterWipe(g: Geometry, flash: Flash, index: Index, s: nat)
    requires Agrees(g, flash, index) && s < |flash|
    requires forall a :: a in Live(index) ==> a.sector != s
    ensures Agrees(g, Wiped(flash, s), index)
    ensures Contents(Wiped(flash, s)) == Contents(flash)
  {
    var flash' := Wiped(flash, s);
    NothingLiveIsDispensable(g, flash, index, s);
    ContentsAfterErase(flash, s);
    forall k | 0 <= k < |index|
      ensures Sound(g, flash', index[k])
    {
      SoundAfterWipe(g, flash, index, s, k);
    }
    WipedHas(flash, s);
    forall a | Has(flash', a)
      ensures HasCover(g, flash', index, At(flash', a))
    {
      var k := Cover(g, flash, index, a);
      SoundAfterWipe(g, flash, index, s, k);
      assert Covers(g, flash', index[k], At(flash', a));
    }
  }
}
