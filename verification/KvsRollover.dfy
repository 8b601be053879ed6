/** What happens when the 32-bit counter of transaction ids is at its end, which the store does not handle. */
module KvsRollover {
  import opened KvsEntry
  import opened KvsFlash
  import opened KvsContents
  import opened KvsIndex

  /** Two sectors: the highest id there is, then an entry with the id behind it. */
  ghost function Wrapped(key: Key, first: Bytes, second: Bytes): Flash {
    [map[0 := Entry(key, first, false, MAX_TRANSACTION_ID)],
     map[0 := Entry(key, second, false, (MAX_TRANSACTION_ID + 1) % 0x1_0000_0000)]]
  }

  /**
   Why the counter must not wrap around: were the id after the highest one 0, as it is in 32 bits, the old
   value of a key would be the one that counts.
   */
  lemma WrapAroundLosesValue(key: Key, first: Bytes, second: Bytes)
    requires first != second
    ensures key in Contents(Wrapped(key, first, second)) && Contents(Wrapped(key, first, second))[key] != second
  {
    var flash := Wrapped(key, first, second);
    forall b | Has(flash, b)
      ensures b == Address(0, 0) || b == Address(1, 0)
    {
    }
    assert Has(flash, Address(0, 0)) && At(flash, Address(0, 0)) == Entry(key, first, false, MAX_TRANSACTION_ID);
    assert Newest(flash, Address(0, 0));
    ContentsAt(flash, Address(0, 0));
  }

  /** An entry with id 0 behind another one of its key does not count. */
  lemma RolledOver(f: Flash, a: Address, e: Entry)
    requires UniqueIds(f) && a.sector < |f| && !Has(f, a) && e.id == 0
    requires forall b :: Has(f, b) ==> 0 < At(f, b).id
    ensures UniqueIds(Put(f, a, e))
    ensures (exists b :: Has(f, b) && At(f, b).key == e.key) ==> Contents(Put(f, a, e)) == Contents(f)
    ensures (forall b :: Has(f, b) ==> At(f, b).key != e.key) ==> Contents(Put(f, a, e)) == Updated(Contents(f), e)
  {
    var f' := Put(f, a, e);
    PutHas(f, a, e);
    forall key | key != e.key
      ensures AgreeOn(f, f', key)
    {
      OtherKeyAfterPut(f, a, e, key);
    }
    if forall b :: Has(f, b) ==> At(f, b).key != e.key {
      assert Newest(f', a);
      ContentsAt(f', a);
      AgreeingButAt(f, f', e);
    } else {
      StaleFromTheStart(f, a, e);
      SameContents(f, f');
    }
  }

  lemma StaleFromTheStart(f: Flash, a: Address, e: Entry)
    requires a.sector < |f| && UniqueIds(f) && UniqueIds(Put(f, a, e)) && !Has(f, a) && e.id == 0
    requires forall b :: Has(f, b) ==> 0 < At(f, b).id
    requires exists b :: Has(f, b) && At(f, b).key == e.key
    ensures AgreeOn(f, Put(f, a, e), e.key)
  {
    var f' := Put(f, a, e);
    PutHas(f, a, e);
    var known :| Has(f, known) && At(f, known).key == e.key;
    assert Has(f', known) && At(f', known) == At(f, known);
    if Present(f, e.key) {
      var b :| NewestPresent(f, b, e.key);
      assert Newest(f', b);
      SameNewest(f, f', b, b);
    } else if Present(f', e.key) {
      var b :| NewestPresent(f', b, e.key);
      assert b != a;
      assert NewestPresent(f, b, e.key);
    }
  }

  /**
   Exactly when a write with the next 32-bit id sets its key: the counter must not be at its end, unless there
   is no other entry of the key, or nothing to change.
   */
  lemma NextIdCounts(f: Flash, a: Address, e: Entry, lastId: nat)
    requires UniqueIds(f) && a.sector < |f| && !Has(f, a)
    requires lastId <= MAX_TRANSACTION_ID && forall b :: Has(f, b) ==> 0 < At(f, b).id <= lastId
    requires e.id == (lastId + 1) % 0x1_0000_0000
    ensures Contents(Put(f, a, e)) == Updated(Contents(f), e)
      <==> (lastId < MAX_TRANSACTION_ID
            || (forall b :: Has(f, b) ==> At(f, b).key != e.key)
            || Contents(f) == Updated(Contents(f), e))
  {
    hide Updated, Contents;
    if lastId < MAX_TRANSACTION_ID {
      ContentsAfterWrite(f, a, e);
    } else {
      RolledOver(f, a, e);
    }
  }
}
