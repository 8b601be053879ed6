/**
 The second pass of InitializeMetadata: valid bytes are counted descriptor by descriptor. And what the
 flags raised by both passes say about the flash.
 */
module KvsRebuild {
  import opened KvsEntry
  import opened KvsFlash
  import opened KvsContents
  import opened KvsSectors
  import opened KvsAccounting
  import opened KvsIndex
  import opened KvsSteps
  import opened KvsRecovery
  import opened KvsScan

  // ---------------------------------------------------------------- accounting

  /** The descriptor the first pass leaves for a sector: the erased tail, and nothing counted yet. */
  ghost predicate Measured(g: Geometry, m: Sector, d: SectorDescriptor) {
    d.tailFree <= g.sectorSize && d.validBytes == 0 && Tiled(g, m, Used(g, d))
  }

  /** The first pass has left exact tails in all sectors before s. */
  ghost predicate MeasuredBefore(g: Geometry, flash: Flash, ds: Descriptors, s: nat) {
    && |flash| == |ds| == g.sectorCount
    && forall t :: 0 <= t < |ds| && t < s ==> Measured(g, flash[t], ds[t])
  }

  lemma MeasuredIsExact(g: Geometry, flash: Flash, ds: Descriptors)
    requires MeasuredBefore(g, flash, ds, |ds|)
    ensures Accounts(g, flash, ds, {})
  {
    forall s | 0 <= s < |ds|
      ensures Exact(g, flash[s], ds[s], s, {})
    {
      assert Measured(g, flash[s], ds[s]);
      LiveBytesNone(g, flash[s], s, {}, 0, Used(g, ds[s]));
    }
  }

  lemma ExactCount(g: Geometry, m: Sector, d: SectorDescriptor, s: nat, live: set<Address>, o: nat)
    requires Exact(g, m, d, s, live) && o in m && Address(s, o) !in live
    ensures Exact(g, m, d.AddValid(Size(g, m[o])), s, live + {Address(s, o)})
  {
    BelowEnd(g, m, Used(g, d), o);
    LiveBytesAdd(g, m, s, live, o, 0, Used(g, d));
  }

  lemma AccountsCount(g: Geometry, flash: Flash, ds: Descriptors, live: set<Address>, a: Address)
    requires Accounts(g, flash, ds, live) && Has(flash, a) && a !in live
    ensures a.sector < |ds|
    ensures Accounts(g, flash, ds[a.sector := ds[a.sector].AddValid(Size(g, At(flash, a)))], live + {a})
  {
    var s := a.sector;
    var ds', live' := ds[s := ds[s].AddValid(Size(g, At(flash, a)))], live + {a};
    assert a == Address(s, a.offset);
    assert Exact(g, flash[s], ds[s], s, live);
    ExactCount(g, flash[s], ds[s], s, live, a.offset);
    forall t | 0 <= t < |ds'|
      ensures Exact(g, flash[t], ds'[t], t, live')
    {
      if t != s {
        assert Exact(g, flash[t], ds[t], t, live);
        ExactElsewhere(g, flash[t], ds[t], t, live, live');
      }
    }
  }

  /** The addresses of the first i descriptors, and the first j of the next. */
  ghost function CountedTo(index: Index, i: nat, j: nat): set<Address>
    requires i <= |index| && if i < |index| then j <= |index[i].addresses| else j == 0
  {
    Live(index[..i]) + if i < |index| then AddressSet(index[i].addresses[..j]) else {}
  }

  lemma CountNextAddress(g: Geometry, flash: Flash, index: Index, i: nat, j: nat)
    requires Indexed(g, flash, index) && i < |index| && j < |index[i].addresses|
    ensures var a := index[i].addresses[j];
            Has(flash, a) && a !in CountedTo(index, i, j) && CountedTo(index, i, j + 1) == CountedTo(index, i, j) + {a}
  {
    var addresses := index[i].addresses;
    var a := addresses[j];
    assert Sound(g, flash, index[i]);
    assert AddressSet(addresses[..j + 1]) == AddressSet(addresses[..j]) + {a} by {
      forall b | b in AddressSet(addresses[..j]) + {a}
        ensures b in AddressSet(addresses[..j + 1])
      {
        if b == a {
          assert addresses[..j + 1][j] == a;
        } else {
          var l :| 0 <= l < j && b == addresses[..j][l];
          assert addresses[..j + 1][l] == b;
        }
      }
    }
    if a in Live(index[..i]) {
      var k, l :| 0 <= k < i && 0 <= l < |index[..i][k].addresses| && a == index[..i][k].addresses[l];
      AddressesApart(g, flash, index, i, j, k, l);
    }
    forall l | 0 <= l < j
      ensures addresses[..j][l] != a
    {
      assert addresses[l].sector != addresses[j].sector;
    }
  }

  lemma CountNextDescriptor(index: Index, i: nat)
    requires i < |index|
    ensures CountedTo(index, i, |index[i].addresses|) == CountedTo(index, i + 1, 0)
  {
    var addresses := index[i].addresses;
    assert addresses[..|addresses|] == addresses;
    assert index[..i + 1] == index[..i] + [index[i]];
    LiveExtended(index[..i], index[i]);
    assert i + 1 < |index| ==> AddressSet(index[i + 1].addresses[..0]) == {};
  }

  lemma CountEnds(index: Index)
    ensures CountedTo(index, 0, 0) == {}
    ensures CountedTo(index, |index|, 0) == Live(index)
  {
    assert index[..|index|] == index;
    assert Live(index[..0]) == {};
    assert |index| > 0 ==> AddressSet(index[0].addresses[..0]) == {};
  }

  // ---------------------------------------------------------------- what the flags mean

  /** This entry lies whole in as many sectors as there should be copies. */
  ghost predicate HasCopies(g: Geometry, flash: Flash, e: Entry) {
    exists c: seq<Address> :: AreCopies(g, flash, e, c)
  }

  ghost predicate AreCopies(g: Geometry, flash: Flash, e: Entry, c: seq<Address>) {
    && |c| == g.redundancy && DistinctSectors(c)
    && forall j :: 0 <= j < |c| ==> Has(flash, c[j]) && At(flash, c[j]) == e
  }

  /** The newest entry of every key has all its copies. */
  ghost predicate FullyCopied(g: Geometry, flash: Flash) {
    forall a :: Newest(flash, a) ==> HasCopies(g, flash, At(flash, a))
  }

  ghost predicate HasErasedSector(flash: Flash) {
    exists s :: 0 <= s < |flash| && flash[s] == map[]
  }

  /** The highest id among the first n descriptors, or 0 if there are none. */
  ghost predicate Highest(index: Index, n: nat, lastId: nat) {
    && n <= |index|
    && (forall i :: 0 <= i < n ==> index[i].id <= lastId)
    && (lastId == 0 || exists i :: 0 <= i < n && index[i].id == lastId)
  }

  lemma HighestStep(index: Index, n: nat, lastId: nat)
    requires Highest(index, n, lastId) && n < |index|
    ensures Highest(index, n + 1, if lastId < index[n].id then index[n].id else lastId)
  {
  }

  lemma NoneMissingStep(g: Geometry, index: Index, n: nat)
    requires n < |index|
    ensures NoneMissing(g, index[..n + 1]) <==> NoneMissing(g, index[..n]) && |index[n].addresses| == g.redundancy
  {
    assert index[..n + 1] == index[..n] + [index[n]];
  }

  lemma FullIndexMeansCopied(g: Geometry, flash: Flash, index: Index)
    requires Agrees(g, flash, index) && NoneMissing(g, index)
    ensures FullyCopied(g, flash)
  {
    forall a | Newest(flash, a)
      ensures HasCopies(g, flash, At(flash, a))
    {
      var k := Cover(g, flash, index, a);
      var b := index[k].addresses[0];
      assert Has(flash, b) && At(flash, b).key == At(flash, a).key;
      assert At(flash, b).id <= At(flash, a).id <= At(flash, b).id;
      assert At(flash, a) == At(flash, b);
      assert AreCopies(g, flash, At(flash, a), index[k].addresses);
    }
  }

  lemma SectorsFit(c: seq<Address>, addresses: seq<Address>)
    requires DistinctSectors(c) && forall j :: 0 <= j < |c| ==> InSector(c[j].sector, addresses)
    ensures |c| <= |addresses|
  {
    var list := seq(|addresses|, j requires 0 <= j < |addresses| => addresses[j].sector);
    var sectors := set j | 0 <= j < |addresses| :: addresses[j].sector;
    forall s | s in sectors
      ensures s in list
    {
      var j :| 0 <= j < |addresses| && addresses[j].sector == s;
      assert list[j] == s;
    }
    ImageFits(sectors, list);
    var mine := seq(|c|, j requires 0 <= j < |c| => c[j].sector);
    forall j | 0 <= j < |mine|
      ensures mine[j] in sectors
    {
      assert InSector(c[j].sector, addresses);
    }
    DistinctFits(mine, sectors);
  }

  lemma CountBegins(g: Geometry, index: Index)
    ensures CountedTo(index, 0, 0) == {}
    ensures CountedTo(index, |index|, 0) == Live(index)
    ensures NoneMissing(g, index[..0]) && Highest(index, 0, 0)
  {
    CountEnds(index);
  }

  lemma CopiedMeansFullIndex(g: Geometry, flash: Flash, index: Index)
    requires Agrees(g, flash, index) && FullyCopied(g, flash)
    requires forall a :: Has(flash, a) ==> ListedInAll(g, flash, index, a)
    ensures NoneMissing(g, index)
  {
    forall i | 0 <= i < |index|
      ensures |index[i].addresses| == g.redundancy
    {
      assert Sound(g, flash, index[i]);
      var m := index[i];
      IndexedIsNewest(g, flash, index, i, 0);
      assert HasCopies(g, flash, At(flash, m.addresses[0]));
      var c: seq<Address> :| AreCopies(g, flash, EntryOf(flash, m), c);
      if |m.addresses| < g.redundancy {
        forall j | 0 <= j < |c|
          ensures InSector(c[j].sector, m.addresses)
        {
          assert ListedInAll(g, flash, index, c[j]);
        }
        SectorsFit(c, m.addresses);
      }
    }
  }

  /** The highest id among the descriptors is the highest on flash. */
  lemma HighestId(g: Geometry, flash: Flash, index: Index, lastId: nat)
    requires Agrees(g, flash, index) && Regular(g, flash, MAX_TRANSACTION_ID)
    requires Highest(index, |index|, lastId)
    ensures Regular(g, flash, lastId) && lastId <= MAX_TRANSACTION_ID
    ensures lastId == 0 || exists a :: Has(flash, a) && At(flash, a).id == lastId
  {
    forall a | Has(flash, a)
      ensures At(flash, a).id <= lastId
    {
      var k := Cover(g, flash, index, a);
    }
    if lastId != 0 {
      var i :| 0 <= i < |index| && index[i].id == lastId;
      assert Sound(g, flash, index[i]);
      assert Has(flash, index[i].addresses[0]) && At(flash, index[i].addresses[0]).id == lastId;
    }
  }

  lemma EmptyIsErased(g: Geometry, m: Sector, d: SectorDescriptor)
    requires d.tailFree <= g.sectorSize && Tiled(g, m, Used(g, d))
    ensures d.Empty(g) <==> m == map[]
  {
    if d.Empty(g) {
      forall o | o in m
        ensures false
      {
        BelowEnd(g, m, Used(g, d), o);
      }
    }
  }
}
