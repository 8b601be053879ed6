/** What a flash must satisfy for InitializeMetadata to rebuild the store from it, and why it always does. */
module KvsRecovery {
  import opened KvsEntry
  import opened KvsFlash
  import opened KvsContents
  import opened KvsSectors
  import opened KvsAccounting
  import opened KvsIndex
  import opened KvsSteps

  ghost predicate TiledSector(g: Geometry, m: Sector) {
    exists end :: 0 <= end <= g.sectorSize && Tiled(g, m, end)
  }

  ghost function KeysOn(flash: Flash): set<Key> {
    set s, o | 0 <= s < |flash| && o in flash[s] :: flash[s][o].key
  }

  /** Whole entries back to back in every sector, no clash of ids or hashes, room for all keys, and only keys in use. */
  ghost predicate Recoverable(g: Geometry, flash: Flash) {
    && |flash| == g.sectorCount
    && (forall s :: 0 <= s < |flash| ==> TiledSector(g, flash[s]))
    && UniqueIds(flash)
    && NoCollision(g, flash)
    && |KeysOn(flash)| <= g.maxEntries
    && Regular(g, flash, MAX_TRANSACTION_ID)
  }

  /** No sector holds two copies of one entry. */
  ghost predicate Clean(flash: Flash) {
    forall a, b :: Has(flash, a) && Has(flash, b) && a.sector == b.sector && At(flash, a) == At(flash, b) ==> a == b
  }

  /** Every entry is on flash only once. */
  ghost predicate Single(flash: Flash) {
    forall a, b :: Has(flash, a) && Has(flash, b) && At(flash, a) == At(flash, b) ==> a == b
  }

  /** Every entry is on flash once, not counting the copies left behind in sector s. */
  ghost predicate SingleBut(flash: Flash, s: nat) {
    && Clean(flash)
    && forall a, b ::
      Has(flash, a) && Has(flash, b) && At(flash, a) == At(flash, b) && a.sector != s && b.sector != s ==> a == b
  }

  lemma KeyOnFlash(flash: Flash, a: Address)
    requires Has(flash, a)
    ensures At(flash, a).key in KeysOn(flash)
  {
  }

  lemma {:induction false} ImageFits<T>(keys: set<T>, list: seq<T>)
    requires forall k :: k in keys ==> k in list
    ensures |keys| <= |list|
  {
    if list == [] {
      assert keys == {};
    } else {
      var n := |list| - 1;
      forall k | k in keys - {list[n]}
        ensures k in list[..n]
      {
        var i :| 0 <= i < |list| && list[i] == k;
        assert list[..n][i] == k;
      }
      ImageFits(keys - {list[n]}, list[..n]);
    }
  }

  lemma {:induction false} DistinctFits<T>(list: seq<T>, keys: set<T>)
    requires forall i, k :: 0 <= i < k < |list| ==> list[i] != list[k]
    requires forall i :: 0 <= i < |list| ==> list[i] in keys
    ensures |list| <= |keys|
  {
    if list != [] {
      var n := |list| - 1;
      DistinctFits(list[..n], keys - {list[n]});
    }
  }

  lemma CoveredKeysFit(g: Geometry, flash: Flash, index: Index)
    requires Indexed(g, flash, index) && Covered(g, flash, index)
    ensures |KeysOn(flash)| <= |index|
  {
    forall i | 0 <= i < |index|
      ensures Sound(g, flash, index[i])
    {
    }
    var list := seq(|index|, i requires 0 <= i < |index| => EntryOf(flash, index[i]).key);
    forall k | k in KeysOn(flash)
      ensures k in list
    {
      var s, o :| 0 <= s < |flash| && o in flash[s] && k == flash[s][o].key;
      var i := Cover(g, flash, index, Address(s, o));
      assert list[i] == k;
    }
    ImageFits(KeysOn(flash), list);
  }

  /** Every flash state a healthy store passes through is one it can be rebuilt from. */
  lemma ConsistentIsRecoverable(g: Geometry, flash: Flash, ds: Descriptors, index: Index, lastId: nat)
    requires Consistent(g, flash, ds, index) && Regular(g, flash, lastId) && lastId <= MAX_TRANSACTION_ID
    ensures Recoverable(g, flash)
  {
    forall s | 0 <= s < |flash|
      ensures TiledSector(g, flash[s])
    {
      assert Exact(g, flash[s], ds[s], s, Live(index));
      assert Tiled(g, flash[s], Used(g, ds[s]));
    }
    AgreementHasNoCollision(g, flash, index);
    CoveredKeysFit(g, flash, index);
  }

  // ---------------------------------------------------------------- one copy of each entry

  lemma SingleIsSingleBut(flash: Flash, s: nat)
    requires Single(flash)
    ensures SingleBut(flash, s)
  {
  }

  lemma SingleAfterWrite(flash: Flash, a: Address, e: Entry)
    requires Single(flash) && a.sector < |flash| && !Has(flash, a)
    requires forall b :: Has(flash, b) ==> At(flash, b).id < e.id
    ensures Single(Put(flash, a, e))
  {
    PutHas(flash, a, e);
  }

  /** Moving the only live copy out of s, with s never the target, leaves doubles only across s. */
  lemma SingleButAfterMove(flash: Flash, s: nat, a: Address, b: Address)
    requires SingleBut(flash, s) && Has(flash, a) && a.sector == s
    requires b.sector < |flash| && b.sector != s && !Has(flash, b)
    requires forall c :: Has(flash, c) && At(flash, c) == At(flash, a) ==> c == a
    ensures SingleBut(Put(flash, b, At(flash, a)), s)
    ensures forall c :: Has(Put(flash, b, At(flash, a)), c) && At(Put(flash, b, At(flash, a)), c) == At(flash, a) ==> c == a || c == b
  {
    PutHas(flash, b, At(flash, a));
  }

  lemma SingleAfterWipe(flash: Flash, s: nat)
    requires SingleBut(flash, s) && s < |flash|
    ensures Single(Wiped(flash, s))
  {
    WipedHas(flash, s);
  }

  lemma SingleIsClean(flash: Flash)
    requires Single(flash)
    ensures Clean(flash)
  {
  }
}
