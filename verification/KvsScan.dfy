/**
 Why scanning flash rebuilds the index: the loop of InitializeMetadata has gone through the entries before
 a position, and the index is right for those.
 */
module KvsScan {
  import opened Alignment
  import opened KvsEntry
  import opened KvsFlash
  import opened KvsContents
  import opened KvsSectors
  import opened KvsIndex
  import opened KvsCache
  import opened KvsSteps
  import opened KvsRecovery

  /** The address comes before offset o of sector s in a scan. */
  predicate Before(a: Address, s: nat, o: nat) {
    a.sector < s || (a.sector == s && a.offset < o)
  }

  ghost predicate Behind(m: Metadata, s: nat, o: nat) {
    forall j :: 0 <= j < |m.addresses| ==> Before(m.addresses[j], s, o)
  }

  /** A descriptor of the entry at this address lists the sector, or has all the copies it may. */
  ghost predicate Listed(g: Geometry, flash: Flash, m: Metadata, a: Address) {
    Has(flash, a) && Sound(g, flash, m) && EntryOf(flash, m) == At(flash, a) && |m.addresses| < g.redundancy ==>
      InSector(a.sector, m.addresses)
  }

  ghost predicate ListedInAll(g: Geometry, flash: Flash, index: Index, a: Address) {
    forall i :: 0 <= i < |index| ==> Listed(g, flash, index[i], a)
  }

  ghost predicate CoveredBefore(g: Geometry, flash: Flash, index: Index, s: nat, o: nat) {
    forall a {:trigger HasCover(g, flash, index, At(flash, a))} ::
      Has(flash, a) && Before(a, s, o) ==> HasCover(g, flash, index, At(flash, a))
  }

  ghost predicate ListedBefore(g: Geometry, flash: Flash, index: Index, s: nat, o: nat) {
    forall a :: Has(flash, a) && Before(a, s, o) ==> ListedInAll(g, flash, index, a)
  }

  /** The index is right for the entries before offset o of sector s. */
  ghost predicate Scanned(g: Geometry, flash: Flash, index: Index, s: nat, o: nat) {
    && Indexed(g, flash, index)
    && (forall i :: 0 <= i < |index| ==> Behind(index[i], s, o))
    && CoveredBefore(g, flash, index, s, o)
    && ListedBefore(g, flash, index, s, o)
  }

  lemma ScanStarts(g: Geometry, flash: Flash)
    ensures Scanned(g, flash, [], 0, 0)
  {
  }

  /** At the end of a sector the scan goes on with the next. */
  lemma ScanNextSector(g: Geometry, flash: Flash, index: Index, s: nat, end: nat)
    requires Scanned(g, flash, index, s, end) && s < |flash| && Tiled(g, flash[s], end)
    ensures Scanned(g, flash, index, s + 1, 0)
  {
    forall a | Has(flash, a) && Before(a, s + 1, 0)
      ensures Before(a, s, end)
    {
      if a.sector == s {
        BelowEnd(g, flash[s], end, a.offset);
      }
    }
    forall i | 0 <= i < |index|
      ensures Behind(index[i], s + 1, 0)
    {
      assert Behind(index[i], s, end);
    }
  }

  lemma ScanDone(g: Geometry, flash: Flash, index: Index)
    requires Scanned(g, flash, index, |flash|, 0) && UniqueIds(flash)
    ensures Agrees(g, flash, index)
    ensures forall a :: Has(flash, a) ==> ListedInAll(g, flash, index, a)
  {
  }

  /** A position the scan of a sector is at: an entry, or the end of them. */
  ghost predicate Position(g: Geometry, m: Sector, o: nat, end: nat) {
    Tiled(g, m, end) && (o in m || o == end) && o % 16 == 0
  }

  lemma NextPosition(g: Geometry, m: Sector, o: nat, end: nat)
    requires Position(g, m, o, end) && o in m
    ensures Position(g, m, After(g, m, o), end) && o + HEADER_SIZE <= After(g, m, o) <= end
    ensures forall p :: p in m && o < p ==> After(g, m, o) <= p
  {
    hide Size, Bounded, Gapless, Apart;
    NextIsUnits(g, m, o);
    NextInTile(g, m, o, end);
  }

  lemma NextIsUnits(g: Geometry, m: Sector, o: nat)
    requires o in m && o % 16 == 0
    ensures After(g, m, o) % 16 == 0
  {
    hide AlignUp;
    AlignUpUnits(HEADER_SIZE + |m[o].key| + |m[o].value|, g.alignment);
  }

  lemma NextInTile(g: Geometry, m: Sector, o: nat, end: nat)
    requires Tiled(g, m, end) && o in m
    ensures o + HEADER_SIZE <= After(g, m, o) <= end && (After(g, m, o) in m || After(g, m, o) == end)
    ensures forall p :: p in m && o < p ==> After(g, m, o) <= p
  {
    hide Size;
    BelowEnd(g, m, end, o);
  }

  /** Only this entry lies between its start and its end. */
  lemma BeforeNext(g: Geometry, flash: Flash, s: nat, o: nat, end: nat, a: Address)
    requires s < |flash| && Position(g, flash[s], o, end) && o in flash[s] && Has(flash, a)
    ensures Before(a, s, After(g, flash[s], o)) <==> Before(a, s, o) || a == Address(s, o)
  {
    NextPosition(g, flash[s], o, end);
  }

  ghost function KeysOf(g: Geometry, flash: Flash, index: Index): seq<Key>
    requires forall i :: 0 <= i < |index| ==> Sound(g, flash, index[i])
  {
    seq(|index|, i requires 0 <= i < |index| && Sound(g, flash, index[i]) => EntryOf(flash, index[i]).key)
  }

  /** The cache never fills up: its keys are on flash, and so is the one to be added. */
  lemma CacheHasRoom(g: Geometry, flash: Flash, index: Index, a: Address)
    requires Indexed(g, flash, index) && Has(flash, a) && |KeysOn(flash)| <= g.maxEntries
    requires forall i :: 0 <= i < |index| ==> index[i].hash != g.hash(At(flash, a).key)
    ensures |index| < g.maxEntries
  {
    var list := KeysOf(g, flash, index) + [At(flash, a).key];
    forall i | 0 <= i < |list|
      ensures list[i] in KeysOn(flash)
    {
      if i < |index| {
        assert Sound(g, flash, index[i]);
        KeyOnFlash(flash, index[i].addresses[0]);
      } else {
        KeyOnFlash(flash, a);
      }
    }
    forall i, k | 0 <= i < k < |list|
      ensures list[i] != list[k]
    {
      assert Sound(g, flash, index[i]);
      if k < |index| {
        assert Sound(g, flash, index[k]);
        assert index[i].hash != index[k].hash;
      }
    }
    DistinctFits(list, KeysOn(flash));
  }

  /** What LoadEntry does with the entry at an address. */
  ghost function LoadedAtAddress(g: Geometry, flash: Flash, index: Index, a: Address): (Index, Status)
    requires Has(flash, a)
  {
    Loaded(g, index, Descriptor(g, At(flash, a), []), a)
  }

  /** How the index changes when one entry is loaded: not, by a new descriptor at i, or by one more address. */
  ghost predicate LoadChange(g: Geometry, flash: Flash, index: Index, a: Address, i: nat, index': Index)
    requires Has(flash, a)
  {
    var m := Descriptor(g, At(flash, a), [a]);
    if i == |index| then index' == index + [m]
    else i < |index| && (index' == index || index' == index[i := m] || index' == Copied(index, i, a))
  }

  /** The descriptor at i after the entry at a is loaded, and how it got there. */
  ghost predicate LoadOutcome(g: Geometry, flash: Flash, index: Index, a: Address, i: nat, index': Index)
    requires Has(flash, a)
  {
    && LoadChange(g, flash, index, a, i, index')
    && i < |index'| && Sound(g, flash, index'[i]) && EntryOf(flash, index'[i]).key == At(flash, a).key
    && At(flash, a).id <= index'[i].id
    && (i < |index| ==> Sound(g, flash, index[i]) && index[i].hash == g.hash(At(flash, a).key) && index[i].id <= index'[i].id)
    && (i < |index| && index'[i].id == index[i].id ==>
          EntryOf(flash, index'[i]) == EntryOf(flash, index[i]) && |index[i].addresses| <= |index'[i].addresses|)
    && (i < |index| && index'[i].id == index[i].id ==>
          forall t :: InSector(t, index[i].addresses) ==> InSector(t, index'[i].addresses))
    && (i == |index| ==> |index| < g.maxEntries && forall k :: 0 <= k < |index| ==> index[k].hash != g.hash(At(flash, a).key))
    && Listed(g, flash, index'[i], a)
  }

  /** Loading the entry at a, which no descriptor lists yet, has one of the outcomes above. */
  lemma LoadStep(g: Geometry, flash: Flash, index: Index, a: Address, s: nat, o: nat) returns (i: nat)
    requires Indexed(g, flash, index) && UniqueIds(flash) && NoCollision(g, flash) && |KeysOn(flash)| <= g.maxEntries
    requires Has(flash, a) && a == Address(s, o) && forall k :: 0 <= k < |index| ==> Behind(index[k], s, o)
    ensures LoadOutcome(g, flash, index, a, i, LoadedAtAddress(g, flash, index, a).0)
    ensures LoadedAtAddress(g, flash, index, a).1 in {Ok, DataLoss}
    ensures LoadedAtAddress(g, flash, index, a).1 == DataLoss ==> !Clean(flash)
  {
    var e := At(flash, a);
    var at := IndexOf(index, g.hash(e.key));
    if at == -1 {
      i := |index|;
      CacheHasRoom(g, flash, index, a);
      LoadedFresh(g, flash, e, a);
    } else {
      i := at;
      assert Sound(g, flash, index[i]) && Behind(index[i], s, o);
      LoadedFresh(g, flash, e, a);
      LoadStepKnown(g, flash, index, a, i);
    }
  }

  lemma LoadedFresh(g: Geometry, flash: Flash, e: Entry, a: Address)
    requires Has(flash, a) && At(flash, a) == e
    ensures Sound(g, flash, Descriptor(g, e, [a])) && EntryOf(flash, Descriptor(g, e, [a])) == e
    ensures Listed(g, flash, Descriptor(g, e, [a]), a)
  {
    assert InSector(a.sector, [a]) by {
      assert [a][0] == a;
    }
  }

  lemma LoadStepKnown(g: Geometry, flash: Flash, index: Index, a: Address, i: nat)
    requires UniqueIds(flash) && NoCollision(g, flash) && Has(flash, a)
    requires i < |index| && Sound(g, flash, index[i]) && i == IndexOf(index, g.hash(At(flash, a).key))
    requires forall j :: 0 <= j < |index[i].addresses| ==> index[i].addresses[j] != a
    requires Sound(g, flash, Descriptor(g, At(flash, a), [a]))
    requires Listed(g, flash, Descriptor(g, At(flash, a), [a]), a)
    ensures LoadOutcome(g, flash, index, a, i, LoadedAtAddress(g, flash, index, a).0)
    ensures LoadedAtAddress(g, flash, index, a).1 in {Ok, DataLoss}
    ensures LoadedAtAddress(g, flash, index, a).1 == DataLoss ==> !Clean(flash)
  {
    hide LoadOutcome, IndexOf, UniqueIds, NoCollision, Clean, Listed;
    var e, m := At(flash, a), index[i];
    SameKey(g, flash, m, a);
    if m.id < e.id {
      NewerIsTaken(g, flash, index, a, i);
    } else if m.id == e.id {
      SameIdSameEntry(g, flash, m, a);
      if InSector(a.sector, m.addresses) {
        DoubledInSector(g, flash, m, a);
        KnownIsLeft(g, flash, index, a, i);
      } else if |m.addresses| < g.redundancy {
        CopyIsAdded(g, flash, index, a, i);
      } else {
        KnownIsLeft(g, flash, index, a, i);
      }
    } else {
      KnownIsLeft(g, flash, index, a, i);
    }
  }

  lemma SameKey(g: Geometry, flash: Flash, m: Metadata, a: Address)
    requires NoCollision(g, flash) && Has(flash, a) && Sound(g, flash, m) && m.hash == g.hash(At(flash, a).key)
    ensures EntryOf(flash, m).key == At(flash, a).key
  {
    assert Has(flash, m.addresses[0]);
  }

  lemma SameIdSameEntry(g: Geometry, flash: Flash, m: Metadata, a: Address)
    requires UniqueIds(flash) && Has(flash, a) && Sound(g, flash, m)
    requires EntryOf(flash, m).key == At(flash, a).key && m.id == At(flash, a).id
    ensures EntryOf(flash, m) == At(flash, a)
  {
    assert Has(flash, m.addresses[0]);
  }

  lemma DoubledInSector(g: Geometry, flash: Flash, m: Metadata, a: Address)
    requires Has(flash, a) && Sound(g, flash, m) && EntryOf(flash, m) == At(flash, a) && InSector(a.sector, m.addresses)
    requires forall j :: 0 <= j < |m.addresses| ==> m.addresses[j] != a
    ensures !Clean(flash)
  {
    var j :| 0 <= j < |m.addresses| && m.addresses[j].sector == a.sector;
    assert Has(flash, m.addresses[j]) && At(flash, m.addresses[j]) == At(flash, a);
  }

  lemma NewerIsTaken(g: Geometry, flash: Flash, index: Index, a: Address, i: nat)
    requires Has(flash, a) && i < |index| && Sound(g, flash, index[i])
    requires index[i].hash == g.hash(At(flash, a).key) && index[i].id < At(flash, a).id
    requires Sound(g, flash, Descriptor(g, At(flash, a), [a])) && Listed(g, flash, Descriptor(g, At(flash, a), [a]), a)
    ensures LoadOutcome(g, flash, index, a, i, index[i := Descriptor(g, At(flash, a), [a])])
  {
  }

  lemma KnownIsLeft(g: Geometry, flash: Flash, index: Index, a: Address, i: nat)
    requires Has(flash, a) && i < |index| && Sound(g, flash, index[i])
    requires index[i].hash == g.hash(At(flash, a).key) && EntryOf(flash, index[i]).key == At(flash, a).key
    requires At(flash, a).id <= index[i].id
    requires At(flash, a).id == index[i].id ==>
      InSector(a.sector, index[i].addresses) || g.redundancy <= |index[i].addresses|
    ensures LoadOutcome(g, flash, index, a, i, index)
  {
    hide InSector;
  }

  lemma CopyIsAdded(g: Geometry, flash: Flash, index: Index, a: Address, i: nat)
    requires Has(flash, a) && i < |index| && Sound(g, flash, index[i]) && EntryOf(flash, index[i]) == At(flash, a)
    requires index[i].hash == g.hash(At(flash, a).key)
    requires |index[i].addresses| < g.redundancy && !InSector(a.sector, index[i].addresses)
    ensures LoadOutcome(g, flash, index, a, i, index[i := index[i].(addresses := index[i].addresses + [a])])
  {
    hide InSector;
    OneMoreCopy(g, flash, index[i], a);
  }

  lemma OneMoreCopy(g: Geometry, flash: Flash, m: Metadata, a: Address)
    requires Sound(g, flash, m) && Has(flash, a) && At(flash, a) == EntryOf(flash, m)
    requires |m.addresses| < g.redundancy && !InSector(a.sector, m.addresses)
    ensures var m' := m.(addresses := m.addresses + [a]);
            && Sound(g, flash, m') && EntryOf(flash, m') == EntryOf(flash, m) && InSector(a.sector, m'.addresses)
            && forall t :: InSector(t, m.addresses) ==> InSector(t, m'.addresses)
  {
    var m' := m.(addresses := m.addresses + [a]);
    assert m'.addresses[|m.addresses|] == a;
    assert m'.addresses[0] == m.addresses[0];
    forall t | InSector(t, m.addresses)
      ensures InSector(t, m'.addresses)
    {
      var j :| 0 <= j < |m.addresses| && m.addresses[j].sector == t;
      assert m'.addresses[j].sector == t;
    }
  }

  /** Loading the entry at the position takes the scan past it. */
  lemma ScanStep(g: Geometry, flash: Flash, index: Index, s: nat, o: nat, end: nat)
    requires Recoverable(g, flash) && s < |flash| && Position(g, flash[s], o, end) && o in flash[s]
    requires Scanned(g, flash, index, s, o)
    ensures var (index', status) := LoadedAtAddress(g, flash, index, Address(s, o));
            && Scanned(g, flash, index', s, After(g, flash[s], o))
            && status in {Ok, DataLoss} && (status == DataLoss ==> !Clean(flash))
  {
    var a, next := Address(s, o), After(g, flash[s], o);
    var index' := LoadedAtAddress(g, flash, index, a).0;
    var i := LoadStep(g, flash, index, a, s, o);
    assert forall b :: Has(flash, b) ==> (Before(b, s, next) <==> Before(b, s, o) || b == a) by {
      forall b | Has(flash, b)
        ensures Before(b, s, next) <==> Before(b, s, o) || b == a
      {
        BeforeNext(g, flash, s, o, end, b);
      }
    }
    LoadKeepsIndexed(g, flash, index, a, i, index');
    LoadKeepsBehind(g, flash, index, a, i, index', s, o, next);
    LoadCovers(g, flash, index, a, i, index', s, o, next);
    LoadLists(g, flash, index, a, i, index', s, o, next);
  }

  lemma LoadElsewhere(g: Geometry, flash: Flash, index: Index, a: Address, i: nat, index': Index, k: nat)
    requires Has(flash, a) && LoadOutcome(g, flash, index, a, i, index') && k < |index'| && k != i
    ensures k < |index| && index'[k] == index[k]
  {
  }

  lemma LoadKeepsIndexed(g: Geometry, flash: Flash, index: Index, a: Address, i: nat, index': Index)
    requires Has(flash, a) && LoadOutcome(g, flash, index, a, i, index') && Indexed(g, flash, index)
    ensures Indexed(g, flash, index')
  {
    forall k | 0 <= k < |index'|
      ensures Sound(g, flash, index'[k])
      ensures k != i ==> index'[k].hash != index'[i].hash
    {
      if k != i {
        LoadElsewhere(g, flash, index, a, i, index', k);
      }
    }
  }

  lemma LoadKeepsBehind(g: Geometry, flash: Flash, index: Index, a: Address, i: nat, index': Index, s: nat, o: nat, next: nat)
    requires a == Address(s, o) && o < next
    requires Has(flash, a) && LoadOutcome(g, flash, index, a, i, index')
    requires forall k :: 0 <= k < |index| ==> Behind(index[k], s, o)
    ensures forall k :: 0 <= k < |index'| ==> Behind(index'[k], s, next)
  {
    forall k | 0 <= k < |index'|
      ensures Behind(index'[k], s, next)
    {
      if k != i {
        LoadElsewhere(g, flash, index, a, i, index', k);
      }
      if k < |index| {
        assert Behind(index[k], s, o);
      }
    }
  }

  lemma LoadCovers(g: Geometry, flash: Flash, index: Index, a: Address, i: nat, index': Index, s: nat, o: nat, next: nat)
    requires Has(flash, a) && LoadOutcome(g, flash, index, a, i, index') && NoCollision(g, flash)
    requires forall b :: Has(flash, b) ==> (Before(b, s, next) <==> Before(b, s, o) || b == a)
    requires CoveredBefore(g, flash, index, s, o)
    ensures CoveredBefore(g, flash, index', s, next)
  {
    forall b | Has(flash, b) && Before(b, s, next)
      ensures HasCover(g, flash, index', At(flash, b))
    {
      if b == a {
        assert Covers(g, flash, index'[i], At(flash, b));
      } else {
        assert HasCover(g, flash, index, At(flash, b));
        var k :| 0 <= k < |index| && Covers(g, flash, index[k], At(flash, b));
        if k != i {
          assert index'[k] == index[k];
        } else {
          assert Has(flash, index[i].addresses[0]);
        }
        assert Covers(g, flash, index'[k], At(flash, b));
      }
    }
  }

  lemma LoadLists(g: Geometry, flash: Flash, index: Index, a: Address, i: nat, index': Index, s: nat, o: nat, next: nat)
    requires Has(flash, a) && LoadOutcome(g, flash, index, a, i, index') && Indexed(g, flash, index)
    requires NoCollision(g, flash)
    requires forall b :: Has(flash, b) ==> (Before(b, s, next) <==> Before(b, s, o) || b == a)
    requires CoveredBefore(g, flash, index, s, o) && ListedBefore(g, flash, index, s, o)
    ensures ListedBefore(g, flash, index', s, next)
  {
    forall b, k | Has(flash, b) && Before(b, s, next) && 0 <= k < |index'|
      ensures Listed(g, flash, index'[k], b)
    {
      if k == i {
        if b != a {
          LoadListsOld(g, flash, index, a, i, index', s, o, b);
        }
      } else {
        LoadElsewhere(g, flash, index, a, i, index', k);
        if b == a {
          ListsOtherHash(g, flash, index', i, k, a);
        } else {
          assert ListedInAll(g, flash, index, b);
        }
      }
    }
    forall b | Has(flash, b) && Before(b, s, next)
      ensures ListedInAll(g, flash, index', b)
    {
    }
  }

  lemma ListsOtherHash(g: Geometry, flash: Flash, index': Index, i: nat, k: nat, a: Address)
    requires Has(flash, a) && i < |index'| && k < |index'|
    requires Sound(g, flash, index'[i]) && EntryOf(flash, index'[i]).key == At(flash, a).key
    requires index'[k].hash != index'[i].hash
    ensures Listed(g, flash, index'[k], a)
  {
  }

  lemma LoadListsOld(g: Geometry, flash: Flash, index: Index, a: Address, i: nat, index': Index, s: nat, o: nat, b: Address)
    requires Has(flash, a) && LoadOutcome(g, flash, index, a, i, index') && Indexed(g, flash, index)
    requires Has(flash, b) && Before(b, s, o)
    requires CoveredBefore(g, flash, index, s, o) && ListedBefore(g, flash, index, s, o)
    ensures Listed(g, flash, index'[i], b)
  {
    assert ListedInAll(g, flash, index, b);
    if EntryOf(flash, index'[i]) == At(flash, b) {
      assert HasCover(g, flash, index, At(flash, b));
      var k :| 0 <= k < |index| && Covers(g, flash, index[k], At(flash, b));
      if i < |index| {
        assert index[k].hash == index[i].hash;
        HashesApart(index, i, k);
        assert index'[i].id == index[i].id;
        assert Listed(g, flash, index[i], b);
      } else {
        assert false;
      }
    }
  }
}
