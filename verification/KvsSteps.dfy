/**
 The steps every operation of the store is made of, on flash, descriptors and index together: what each
 keeps, and what it does to the contents.
 */
module KvsSteps {
  import opened KvsEntry
  import opened KvsFlash
  import opened KvsContents
  import opened KvsSectors
  import opened KvsAccounting
  import opened KvsIndex

  /** The invariant of a healthy store: its accounting is exact and its index agrees with the flash. */
  ghost predicate Consistent(g: Geometry, flash: Flash, ds: Descriptors, index: Index) {
    && Accounts(g, flash, ds, Live(index))
    && Agrees(g, flash, index)
  }

  /** Two descriptors, each sound in its own flash, describe one and the same entry, the second no fewer copies. */
  ghost predicate SameMeaning(g: Geometry, flash: Flash, m: Metadata, flash': Flash, m': Metadata) {
    && Sound(g, flash, m) && Sound(g, flash', m') && EntryOf(flash, m) == EntryOf(flash', m')
    && |m.addresses| <= |m'.addresses|
  }

  /** Entries may have moved, but the index still lists the same ones in the same order. */
  ghost predicate Moved(g: Geometry, flash: Flash, index: Index, flash': Flash, index': Index) {
    |index| == |index'| && forall i :: 0 <= i < |index| ==> SameMeaning(g, flash, index[i], flash', index'[i])
  }

  /** Every indexed entry has all its copies. */
  ghost predicate NoneMissing(g: Geometry, index: Index) {
    forall i :: 0 <= i < |index| ==> |index[i].addresses| == g.redundancy
  }

  /** Where entries only move, no copy is lost. */
  lemma MovedKeepsCopies(g: Geometry, flash: Flash, index: Index, flash': Flash, index': Index)
    requires Moved(g, flash, index, flash', index') && NoneMissing(g, index)
    ensures NoneMissing(g, index')
  {
    forall i | 0 <= i < |index'|
      ensures |index'[i].addresses| == g.redundancy
    {
      assert SameMeaning(g, flash, index[i], flash', index'[i]);
    }
  }

  lemma MovedTransitive(g: Geometry, f0: Flash, i0: Index, f1: Flash, i1: Index, f2: Flash, i2: Index)
    requires Moved(g, f0, i0, f1, i1) && Moved(g, f1, i1, f2, i2)
    ensures Moved(g, f0, i0, f2, i2)
  {
    forall i | 0 <= i < |i0|
      ensures SameMeaning(g, f0, i0[i], f2, i2[i])
    {
      assert SameMeaning(g, f0, i0[i], f1, i1[i]) && SameMeaning(g, f1, i1[i], f2, i2[i]);
    }
  }

  lemma MovedNowhere(g: Geometry, flash: Flash, index: Index)
    requires Indexed(g, flash, index)
    ensures Moved(g, flash, index, flash, index)
  {
    forall i | 0 <= i < |index|
      ensures SameMeaning(g, flash, index[i], flash, index[i])
    {
      assert Sound(g, flash, index[i]);
    }
  }

  // ---------------------------------------------------------------- relocation

  /** The descriptors after a copy is appended to `to` and the one in `from` stops counting. */
  function Relocated(ds: Descriptors, from: nat, to: nat, size: nat): Descriptors
    requires from < |ds| && to < |ds|
  {
    var appended := ds[to := Appended(ds[to], size)];
    appended[from := appended[from].RemoveValid(size)]
  }

  function Readdressed(index: Index, i: nat, j: nat, b: Address): Index
    requires i < |index| && j < |index[i].addresses|
  {
    index[i := index[i].(addresses := index[i].addresses[j := b])]
  }

  lemma AddressSetReplaced(addresses: seq<Address>, j: nat, b: Address)
    requires j < |addresses| && DistinctSectors(addresses) && forall k :: 0 <= k < |addresses| ==> addresses[k].sector != b.sector
    ensures AddressSet(addresses[j := b]) == AddressSet(addresses) - {addresses[j]} + {b}
  {
    var addresses' := addresses[j := b];
    forall a | a in AddressSet(addresses) - {addresses[j]} + {b}
      ensures a in AddressSet(addresses')
    {
      if a == b {
        assert addresses'[j] == b;
      } else {
        var k :| 0 <= k < |addresses| && a == addresses[k];
        assert addresses'[k] == a;
      }
    }
    forall a | a in AddressSet(addresses')
      ensures a in AddressSet(addresses) - {addresses[j]} + {b}
    {
      var k :| 0 <= k < |addresses'| && a == addresses'[k];
      if k < j {
        assert addresses[k].sector != addresses[j].sector;
      } else if j < k {
        assert addresses[j].sector != addresses[k].sector;
      }
    }
  }

  lemma LiveReaddressed(g: Geometry, flash: Flash, index: Index, i: nat, j: nat, b: Address)
    requires Indexed(g, flash, index) && i < |index| && j < |index[i].addresses|
    requires !Has(flash, b)
    requires forall k :: 0 <= k < |index[i].addresses| ==> index[i].addresses[k].sector != b.sector
    ensures Live(Readdressed(index, i, j, b)) == Live(index) + {b} - {index[i].addresses[j]}
  {
    var m := index[i];
    var a := m.addresses[j];
    assert Sound(g, flash, m);
    LiveReplaced(g, flash, index, i, m.(addresses := m.addresses[j := b]));
    AddressSetReplaced(m.addresses, j, b);
    assert AddressSet(m.addresses) <= Live(index);
    assert a in AddressSet(m.addresses);
    LiveHas(g, flash, index);
  }

  /** Conditions under which copy j of descriptor i may move to sector `to`. */
  ghost predicate Relocatable(g: Geometry, flash: Flash, ds: Descriptors, index: Index, i: nat, j: nat, to: nat) {
    && i < |index| && j < |index[i].addresses| && to < |ds|
    && Sound(g, flash, index[i])
    && (forall k :: 0 <= k < |index[i].addresses| ==> index[i].addresses[k].sector != to)
    && ds[to].tailFree <= g.sectorSize
    && ds[to].HasSpace(Size(g, EntryOf(flash, index[i])))
  }

  lemma RelocateAccounts(g: Geometry, flash: Flash, ds: Descriptors, index: Index, i: nat, j: nat, to: nat)
    requires Consistent(g, flash, ds, index) && Relocatable(g, flash, ds, index, i, j, to)
    ensures index[i].addresses[j].sector < |ds|
    ensures var e, b := EntryOf(flash, index[i]), NextWritable(g, ds, to);
            Accounts(g, Put(flash, b, e), Relocated(ds, index[i].addresses[j].sector, to, Size(g, e)),
                     Live(Readdressed(index, i, j, b)))
  {
    var m := index[i];
    var e, a, b := EntryOf(flash, m), m.addresses[j], NextWritable(g, ds, to);
    assert At(flash, a) == e && a in Live(index);
    RoomAtNextWritable(g, flash, ds, Live(index), to, e);
    AccountsAppend(g, flash, ds, Live(index), to, e);
    PutHas(flash, b, e);
    AccountsRemove(g, Put(flash, b, e), ds[to := Appended(ds[to], Size(g, e))], Live(index) + {b}, a);
    LiveReaddressed(g, flash, index, i, j, b);
  }

  lemma RelocateAgrees(g: Geometry, flash: Flash, index: Index, i: nat, j: nat, b: Address)
    requires Agrees(g, flash, index) && i < |index| && j < |index[i].addresses| && Sound(g, flash, index[i])
    requires b.sector < |flash| && !Has(flash, b)
    requires forall k :: 0 <= k < |index[i].addresses| ==> index[i].addresses[k].sector != b.sector
    ensures var e := EntryOf(flash, index[i]);
            && Agrees(g, Put(flash, b, e), Readdressed(index, i, j, b))
            && Contents(Put(flash, b, e)) == Contents(flash)
            && Moved(g, flash, index, Put(flash, b, e), Readdressed(index, i, j, b))
  {
    var m := index[i];
    var e, a := EntryOf(flash, m), m.addresses[0];
    var flash' := Put(flash, b, e);
    ContentsAfterCopy(flash, b, a);
    AgreesAfterCopy(g, flash, index, b, a);
    SoundAfterPut(g, flash, b, e, m);
    PutHas(flash, b, e);
    DescribesReaddressed(g, flash', m, e, j, b);
    AgreesAfterReaddress(g, flash', index, i, m.addresses[j := b]);
    MovedByPut(g, flash, index, b, e, i, m.addresses[j := b]);
  }

  /** Moving one copy of a live entry to a sector with none of its copies. */
  lemma RelocateStep(g: Geometry, flash: Flash, ds: Descriptors, index: Index, i: nat, j: nat, to: nat)
    requires Consistent(g, flash, ds, index) && Relocatable(g, flash, ds, index, i, j, to)
    ensures index[i].addresses[j].sector < |ds|
    ensures var e, a, b := EntryOf(flash, index[i]), index[i].addresses[j], NextWritable(g, ds, to);
            && Consistent(g, Put(flash, b, e), Relocated(ds, a.sector, to, Size(g, e)), Readdressed(index, i, j, b))
            && Contents(Put(flash, b, e)) == Contents(flash)
            && Moved(g, flash, index, Put(flash, b, e), Readdressed(index, i, j, b))
  {
    RelocateAccounts(g, flash, ds, index, i, j, to);
    RoomAtNextWritable(g, flash, ds, Live(index), to, EntryOf(flash, index[i]));
    RelocateAgrees(g, flash, index, i, j, NextWritable(g, ds, to));
  }

  lemma DescribesReaddressed(g: Geometry, flash: Flash, m: Metadata, e: Entry, j: nat, b: Address)
    requires Describes(g, flash, m, e) && j < |m.addresses| && Has(flash, b) && At(flash, b) == e
    requires forall k :: 0 <= k < |m.addresses| ==> m.addresses[k].sector != b.sector
    ensures Describes(g, flash, m.(addresses := m.addresses[j := b]), e)
  {
  }

  lemma MovedByPut(g: Geometry, flash: Flash, index: Index, b: Address, e: Entry, i: nat, addresses: seq<Address>)
    requires Indexed(g, flash, index) && b.sector < |flash| && !Has(flash, b) && i < |index|
    requires Sound(g, flash, index[i]) && e == EntryOf(flash, index[i]) && |index[i].addresses| <= |addresses|
    requires Describes(g, Put(flash, b, e), index[i].(addresses := addresses), e)
    ensures Moved(g, flash, index, Put(flash, b, e), index[i := index[i].(addresses := addresses)])
  {
    var flash', index' := Put(flash, b, e), index[i := index[i].(addresses := addresses)];
    forall k | 0 <= k < |index|
      ensures SameMeaning(g, flash, index[k], flash', index'[k])
    {
      if k != i {
        SoundAfterPut(g, flash, b, e, index[k]);
      }
    }
  }

  // ---------------------------------------------------------------- the first copy of a new entry

  /** The index after the first copy of an entry is written: a changed descriptor, or a new one. */
  function Reindexed(g: Geometry, index: Index, i: nat, e: Entry, a: Address): Index
    requires i <= |index|
  {
    if i < |index| then index[i := Descriptor(g, e, [a])] else index + [Descriptor(g, e, [a])]
  }

  /** Descriptors after the valid bytes of the first n addresses are taken out. */
  function Discounted(ds: Descriptors, addresses: seq<Address>, n: nat, size: nat): Descriptors
    requires n <= |addresses| && forall k :: 0 <= k < |addresses| ==> addresses[k].sector < |ds|
    ensures |Discounted(ds, addresses, n, size)| == |ds|
  {
    if n == 0 then ds else
    var rest := Discounted(ds, addresses, n - 1, size);
    var s := addresses[n - 1].sector;
    rest[s := rest[s].RemoveValid(size)]
  }

  ghost function Prefix(addresses: seq<Address>, n: nat): set<Address>
    requires n <= |addresses|
  {
    set j | 0 <= j < n :: addresses[j]
  }

  lemma PrefixOneMore(addresses: seq<Address>, n: nat, live: set<Address>)
    requires n < |addresses| && DistinctSectors(addresses) && addresses[n] in live
    ensures addresses[n] in live - Prefix(addresses, n)
    ensures live - Prefix(addresses, n + 1) == live - Prefix(addresses, n) - {addresses[n]}
  {
    forall k | 0 <= k < n
      ensures addresses[k] != addresses[n]
    {
      assert addresses[k].sector != addresses[n].sector;
    }
  }

  lemma LiveSectors(g: Geometry, flash: Flash, ds: Descriptors, live: set<Address>, addresses: seq<Address>)
    requires Accounts(g, flash, ds, live) && forall k :: 0 <= k < |addresses| ==> addresses[k] in live
    ensures forall k :: 0 <= k < |addresses| ==> addresses[k].sector < |ds|
  {
  }

  lemma AccountsDiscounted(
    g: Geometry, flash: Flash, ds: Descriptors, live: set<Address>, addresses: seq<Address>, e: Entry, n: nat)
    requires Accounts(g, flash, ds, live) && n <= |addresses| && DistinctSectors(addresses)
    requires forall k :: 0 <= k < |addresses| ==> addresses[k] in live && At(flash, addresses[k]) == e
    ensures forall k :: 0 <= k < |addresses| ==> addresses[k].sector < |ds|
    ensures Accounts(g, flash, Discounted(ds, addresses, n, Size(g, e)), live - Prefix(addresses, n))
  {
    hide Accounts, DistinctSectors;
    LiveSectors(g, flash, ds, live, addresses);
    if n == 0 {
      assert live - Prefix(addresses, 0) == live;
    } else {
      AccountsDiscounted(g, flash, ds, live, addresses, e, n - 1);
      PrefixOneMore(addresses, n - 1, live);
      AccountsRemove(g, flash, Discounted(ds, addresses, n - 1, Size(g, e)), live - Prefix(addresses, n - 1), addresses[n - 1]);
    }
  }

  /** Place i of the index may get an entry with this key: its own place, or a new one. */
  ghost predicate PlaceFor(g: Geometry, flash: Flash, index: Index, i: nat, key: Key) {
    && i <= |index|
    && (i == |index| ==> |index| < g.maxEntries && forall k :: 0 <= k < |index| ==> index[k].hash != g.hash(key))
    && (i < |index| ==> Sound(g, flash, index[i]) && EntryOf(flash, index[i]).key == key)
  }

  /** The descriptors when the copies of the prior entry at place i, if any, become stale. */
  ghost function Superseded(g: Geometry, flash: Flash, ds: Descriptors, index: Index, i: nat): Descriptors
    requires i < |index| ==> Sound(g, flash, index[i])
    requires |flash| <= |ds|
  {
    if i < |index| then
      Discounted(ds, index[i].addresses, |index[i].addresses|, Size(g, EntryOf(flash, index[i])))
    else ds
  }

  lemma FirstCopyAccounts(g: Geometry, flash: Flash, ds: Descriptors, index: Index, i: nat, e: Entry, s: nat)
    requires Consistent(g, flash, ds, index) && PlaceFor(g, flash, index, i, e.key)
    requires s < |ds| && ds[s].tailFree <= g.sectorSize && ds[s].HasSpace(Size(g, e))
    ensures var a := NextWritable(g, ds, s);
            Accounts(g, Put(flash, a, e), Superseded(g, flash, ds[s := Appended(ds[s], Size(g, e))], index, i),
                     Live(Reindexed(g, index, i, e, a)))
  {
    var a := NextWritable(g, ds, s);
    var m := Descriptor(g, e, [a]);
    RoomAtNextWritable(g, flash, ds, Live(index), s, e);
    AccountsAppend(g, flash, ds, Live(index), s, e);
    AddressSetOne(a);
    LiveHas(g, flash, index);
    if i == |index| {
      LiveExtended(index, m);
    } else {
      FirstCopySupersedes(g, flash, ds[s := Appended(ds[s], Size(g, e))], index, i, e, a);
      LiveReplaced(g, flash, index, i, m);
      LiveSwap(Live(index), AddressSet(index[i].addresses), a);
    }
  }

  lemma FirstCopySupersedes(g: Geometry, flash: Flash, ds: Descriptors, index: Index, i: nat, e: Entry, a: Address)
    requires i < |index| && Sound(g, flash, index[i]) && a.sector < |flash| <= |ds| && !Has(flash, a)
    requires Accounts(g, Put(flash, a, e), ds, Live(index) + {a})
    ensures Accounts(g, Put(flash, a, e), Superseded(g, flash, ds, index, i),
                     Live(index) + {a} - AddressSet(index[i].addresses))
  {
    var addresses := index[i].addresses;
    PutHas(flash, a, e);
    forall k | 0 <= k < |addresses|
      ensures addresses[k] in Live(index)
    {
    }
    AccountsDiscounted(g, Put(flash, a, e), ds, Live(index) + {a}, addresses, EntryOf(flash, index[i]), |addresses|);
    assert Prefix(addresses, |addresses|) == AddressSet(addresses);
  }

  lemma AddressSetOne(a: Address)
    ensures AddressSet([a]) == {a}
  {
    assert [a][0] == a;
  }

  lemma LiveSwap(live: set<Address>, gone: set<Address>, a: Address)
    requires a !in live && gone <= live
    ensures live + {a} - gone == live - gone + {a}
  {
  }

  /** The first copy of an entry with a new id: it is indexed, its prior copies are stale, its key is set. */
  lemma FirstCopyStep(g: Geometry, flash: Flash, ds: Descriptors, index: Index, i: nat, e: Entry, s: nat)
    requires Consistent(g, flash, ds, index) && PlaceFor(g, flash, index, i, e.key)
    requires s < |ds| && ds[s].tailFree <= g.sectorSize && ds[s].HasSpace(Size(g, e))
    requires forall b :: Has(flash, b) ==> At(flash, b).id < e.id
    ensures var a := NextWritable(g, ds, s);
            && Consistent(g, Put(flash, a, e), Superseded(g, flash, ds[s := Appended(ds[s], Size(g, e))], index, i),
                          Reindexed(g, index, i, e, a))
            && Contents(Put(flash, a, e)) == Updated(Contents(flash), e)
  {
    var a := NextWritable(g, ds, s);
    RoomAtNextWritable(g, flash, ds, Live(index), s, e);
    FirstCopyAccounts(g, flash, ds, index, i, e, s);
    ContentsAfterWrite(flash, a, e);
    AgreesAfterWrite(g, flash, index, a, e, i);
  }

  // ---------------------------------------------------------------- a further copy

  /** Descriptor i after one more copy of its entry at the address. */
  function Copied(index: Index, i: nat, a: Address): Index
    requires i < |index|
  {
    index[i := index[i].(addresses := index[i].addresses + [a])]
  }

  lemma ExtraCopyAgrees(g: Geometry, flash: Flash, index: Index, i: nat, a: Address)
    requires Agrees(g, flash, index) && i < |index| && Sound(g, flash, index[i]) && |index[i].addresses| < g.redundancy
    requires a.sector < |flash| && !Has(flash, a)
    requires forall k :: 0 <= k < |index[i].addresses| ==> index[i].addresses[k].sector != a.sector
    ensures var e := EntryOf(flash, index[i]);
            && Agrees(g, Put(flash, a, e), Copied(index, i, a))
            && Contents(Put(flash, a, e)) == Contents(flash)
            && Moved(g, flash, index, Put(flash, a, e), Copied(index, i, a))
  {
    var m := index[i];
    var e := EntryOf(flash, m);
    var flash' := Put(flash, a, e);
    ContentsAfterCopy(flash, a, m.addresses[0]);
    AgreesAfterCopy(g, flash, index, a, m.addresses[0]);
    PutHas(flash, a, e);
    SoundAfterPut(g, flash, a, e, m);
    DescribesCopied(g, flash', m, e, a);
    AgreesAfterReaddress(g, flash', index, i, m.addresses + [a]);
    MovedByPut(g, flash, index, a, e, i, m.addresses + [a]);
  }

  lemma DescribesCopied(g: Geometry, flash: Flash, m: Metadata, e: Entry, a: Address)
    requires Describes(g, flash, m, e) && Has(flash, a) && At(flash, a) == e && |m.addresses| < g.redundancy
    requires forall k :: 0 <= k < |m.addresses| ==> m.addresses[k].sector != a.sector
    ensures Describes(g, flash, m.(addresses := m.addresses + [a]), e)
  {
  }

  lemma ExtraCopyLive(g: Geometry, flash: Flash, index: Index, i: nat, a: Address)
    requires Indexed(g, flash, index) && i < |index|
    ensures Live(Copied(index, i, a)) == Live(index) + {a}
  {
    var m := index[i].(addresses := index[i].addresses + [a]);
    LiveReplaced(g, flash, index, i, m);
    AddressSetExtended(index[i].addresses, a);
    assert AddressSet(index[i].addresses) <= Live(index);
  }

  /** Writing one more copy of an indexed entry to a sector that has none. */
  lemma ExtraCopyStep(g: Geometry, flash: Flash, ds: Descriptors, index: Index, i: nat, s: nat)
    requires Consistent(g, flash, ds, index)
    requires i < |index| && s < |ds| && Sound(g, flash, index[i]) && |index[i].addresses| < g.redundancy
    requires forall k :: 0 <= k < |index[i].addresses| ==> index[i].addresses[k].sector != s
    requires ds[s].tailFree <= g.sectorSize && ds[s].HasSpace(Size(g, EntryOf(flash, index[i])))
    ensures var e, a := EntryOf(flash, index[i]), NextWritable(g, ds, s);
            && Consistent(g, Put(flash, a, e), ds[s := Appended(ds[s], Size(g, e))], Copied(index, i, a))
            && Contents(Put(flash, a, e)) == Contents(flash)
            && Moved(g, flash, index, Put(flash, a, e), Copied(index, i, a))
  {
    var e, a := EntryOf(flash, index[i]), NextWritable(g, ds, s);
    RoomAtNextWritable(g, flash, ds, Live(index), s, e);
    AccountsAppend(g, flash, ds, Live(index), s, e);
    ExtraCopyLive(g, flash, index, i, a);
    ExtraCopyAgrees(g, flash, index, i, a);
  }

  lemma AddressSetExtended(addresses: seq<Address>, a: Address)
    ensures AddressSet(addresses + [a]) == AddressSet(addresses) + {a}
  {
    var more := addresses + [a];
    forall b | b in AddressSet(addresses) + {a}
      ensures b in AddressSet(more)
    {
      if b == a {
        assert more[|addresses|] == a;
      } else {
        var k :| 0 <= k < |addresses| && b == addresses[k];
        assert more[k] == b;
      }
    }
  }

  // ---------------------------------------------------------------- erasing

  lemma WipeStep(g: Geometry, flash: Flash, ds: Descriptors, index: Index, s: nat)
    requires Consistent(g, flash, ds, index) && s < |ds| && ds[s].validBytes == 0
    ensures Consistent(g, Wiped(flash, s), ds[s := SectorDescriptor(g.sectorSize, 0)], index)
    ensures Contents(Wiped(flash, s)) == Contents(flash)
    ensures Moved(g, flash, index, Wiped(flash, s), index)
  {
    ValidBytesZero(g, flash, ds, Live(index), s);
    AccountsWipe(g, flash, ds, Live(index), s);
    AgreesAfterWipe(g, flash, index, s);
    forall i | 0 <= i < |index|
      ensures SameMeaning(g, flash, index[i], Wiped(flash, s), index[i])
    {
      assert Sound(g, flash, index[i]);
      SoundAfterWipe(g, flash, index, s, i);
    }
  }
}
