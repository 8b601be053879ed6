/**
 What a flash means, with no cache in sight: each key denotes the value of its entry with the highest
 transaction id, or nothing when that entry is a tombstone.
 */
module KvsContents {
  import opened KvsEntry
  import opened KvsFlash

  /** Two entries of one key with one id are copies of each other. */
  ghost predicate UniqueIds(flash: Flash) {
    forall a, b ::
      Has(flash, a) && Has(flash, b) && At(flash, a).key == At(flash, b).key && At(flash, a).id == At(flash, b).id
      ==> At(flash, a) == At(flash, b)
  }

  /** No two different keys on flash have one hash. */
  ghost predicate NoCollision(g: Geometry, flash: Flash) {
    forall a, b :: Has(flash, a) && Has(flash, b) && g.hash(At(flash, a).key) == g.hash(At(flash, b).key)
      ==> At(flash, a).key == At(flash, b).key
  }

  ghost predicate Newest(flash: Flash, a: Address) {
    Has(flash, a)
    && forall b :: Has(flash, b) && At(flash, b).key == At(flash, a).key ==> At(flash, b).id <= At(flash, a).id
  }

  ghost predicate NewestPresent(flash: Flash, a: Address, key: Key) {
    Newest(flash, a) && At(flash, a).key == key && !At(flash, a).deleted
  }

  ghost predicate Present(flash: Flash, key: Key) {
    exists a :: NewestPresent(flash, a, key)
  }

  ghost function Value(flash: Flash, key: Key): Bytes
    requires Present(flash, key)
  {
    var a :| NewestPresent(flash, a, key); At(flash, a).value
  }

  ghost function Contents(flash: Flash): imap<Key, Bytes> {
    imap key | Present(flash, key) :: Value(flash, key)
  }

  ghost function Without(m: imap<Key, Bytes>, key: Key): imap<Key, Bytes> {
    imap k | k in m && k != key :: m[k]
  }

  /** The contents after one entry more: its value, or its absence. */
  ghost function Updated(m: imap<Key, Bytes>, e: Entry): imap<Key, Bytes> {
    if e.deleted then Without(m, e.key) else m[e.key := e.value]
  }

  lemma ContentsAt(flash: Flash, a: Address)
    requires UniqueIds(flash) && Newest(flash, a)
    ensures Present(flash, At(flash, a).key) <==> !At(flash, a).deleted
    ensures Present(flash, At(flash, a).key) ==> Value(flash, At(flash, a).key) == At(flash, a).value
  {
    var e := At(flash, a);
    forall b | NewestPresent(flash, b, e.key)
      ensures At(flash, b) == e
    {
      assert At(flash, b).id == e.id;
    }
    if !e.deleted {
      assert NewestPresent(flash, a, e.key);
    }
  }

  ghost predicate AgreeOn(f: Flash, f': Flash, key: Key) {
    && (Present(f, key) <==> Present(f', key))
    && (Present(f, key) ==> Value(f, key) == Value(f', key))
  }

  lemma SameContents(f: Flash, f': Flash)
    requires forall key :: AgreeOn(f, f', key)
    ensures Contents(f) == Contents(f')
  {
    hide Present, Value;
    var m, m' := Contents(f), Contents(f');
    forall key
      ensures key in m <==> key in m'
      ensures key in m ==> m[key] == m'[key]
    {
      assert AgreeOn(f, f', key);
    }
  }

  /** Two flashes with the same newest entry for a key agree on that key. */
  lemma SameNewest(f: Flash, f': Flash, a: Address, a': Address)
    requires UniqueIds(f) && UniqueIds(f')
    requires Newest(f, a) && Newest(f', a') && At(f, a) == At(f', a')
    ensures AgreeOn(f, f', At(f, a).key)
  {
    ContentsAt(f, a);
    ContentsAt(f', a');
  }

  lemma PutHas(f: Flash, a: Address, e: Entry)
    requires a.sector < |f|
    ensures forall b :: Has(Put(f, a, e), b) <==> Has(f, b) || b == a
    ensures forall b :: Has(Put(f, a, e), b) ==> At(Put(f, a, e), b) == if b == a then e else At(f, b)
  {
  }

  lemma WipedHas(f: Flash, s: nat)
    requires s < |f|
    ensures forall b :: Has(Wiped(f, s), b) <==> Has(f, b) && b.sector != s
    ensures forall b :: Has(Wiped(f, s), b) ==> At(Wiped(f, s), b) == At(f, b)
  {
  }

  lemma NewestAfterPut(f: Flash, a: Address, e: Entry)
    requires UniqueIds(f) && a.sector < |f| && !Has(f, a)
    requires forall b :: Has(f, b) ==> At(f, b).id < e.id
    ensures UniqueIds(Put(f, a, e)) && Newest(Put(f, a, e), a)
  {
    PutHas(f, a, e);
  }

  /** Writing an entry with an id above all others sets its key, and changes no other key. */
  lemma ContentsAfterWrite(f: Flash, a: Address, e: Entry)
    requires UniqueIds(f) && a.sector < |f| && !Has(f, a)
    requires forall b :: Has(f, b) ==> At(f, b).id < e.id
    ensures UniqueIds(Put(f, a, e)) && Newest(Put(f, a, e), a)
    ensures Contents(Put(f, a, e)) == Updated(Contents(f), e)
  {
    var f' := Put(f, a, e);
    NewestAfterPut(f, a, e);
    assert Has(f', a) && At(f', a) == e;
    ContentsAt(f', a);
    forall key | key != e.key
      ensures AgreeOn(f, f', key)
    {
      OtherKeyAfterPut(f, a, e, key);
    }
    AgreeingButAt(f, f', e);
  }

  lemma AgreeingButAt(f: Flash, f': Flash, e: Entry)
    requires forall key :: key != e.key ==> AgreeOn(f, f', key)
    requires Present(f', e.key) <==> !e.deleted
    requires Present(f', e.key) ==> Value(f', e.key) == e.value
    ensures Contents(f') == Updated(Contents(f), e)
  {
    hide Present, Value;
    var m, m' := Updated(Contents(f), e), Contents(f');
    forall key
      ensures key in m <==> key in m'
      ensures key in m ==> m[key] == m'[key]
    {
      if key != e.key {
        assert AgreeOn(f, f', key);
      }
    }
  }

  lemma OtherKeyAfterPut(f: Flash, a: Address, e: Entry, key: Key)
    requires a.sector < |f| && !Has(f, a) && key != e.key
    requires UniqueIds(f) && UniqueIds(Put(f, a, e))
    ensures AgreeOn(f, Put(f, a, e), key)
  {
    var f' := Put(f, a, e);
    PutHas(f, a, e);
    if Present(f, key) {
      var b :| NewestPresent(f, b, key);
      assert Newest(f', b);
      SameNewest(f, f', b, b);
    } else if Present(f', key) {
      var b :| NewestPresent(f', b, key);
      assert NewestPresent(f, b, key);
    }
  }

  /** One more copy of an entry already on flash changes nothing. */
  lemma ContentsAfterCopy(f: Flash, a: Address, b: Address)
    requires UniqueIds(f) && a.sector < |f| && !Has(f, a) && Has(f, b)
    ensures UniqueIds(Put(f, a, At(f, b)))
    ensures Contents(Put(f, a, At(f, b))) == Contents(f)
  {
    var f' := Put(f, a, At(f, b));
    PutHas(f, a, At(f, b));
    forall key
      ensures AgreeOn(f, f', key)
    {
      AgreeAfterCopy(f, a, b, key);
    }
    hide AgreeOn;
    SameContents(f, f');
  }

  lemma AgreeAfterCopy(f: Flash, a: Address, b: Address, key: Key)
    requires UniqueIds(f) && a.sector < |f| && !Has(f, a) && Has(f, b) && UniqueIds(Put(f, a, At(f, b)))
    ensures AgreeOn(f, Put(f, a, At(f, b)), key)
  {
    var f' := Put(f, a, At(f, b));
    PutHas(f, a, At(f, b));
    if Present(f, key) {
      var c :| NewestPresent(f, c, key);
      assert Newest(f', c);
      SameNewest(f, f', c, c);
    } else if Present(f', key) {
      var c :| NewestPresent(f', c, key);
      assert NewestPresent(f, if c == a then b else c, key);
    }
  }

  /** Each key on flash has a newest copy outside the sector. */
  ghost predicate Dispensable(f: Flash, s: nat) {
    forall a :: Has(f, a) ==> KeptOutside(f, s, At(f, a).key)
  }

  ghost predicate KeptOutside(f: Flash, s: nat, key: Key) {
    exists b :: Newest(f, b) && b.sector != s && At(f, b).key == key
  }

  /** Erasing a sector changes nothing when each key on flash has a newest copy elsewhere. */
  lemma ContentsAfterErase(f: Flash, s: nat)
    requires UniqueIds(f) && s < |f| && Dispensable(f, s)
    ensures UniqueIds(Wiped(f, s))
    ensures Contents(Wiped(f, s)) == Contents(f)
  {
    var f' := Wiped(f, s);
    WipedHas(f, s);
    forall key
      ensures AgreeOn(f, f', key)
    {
      if KeptOutside(f, s, key) {
        var b :| Newest(f, b) && b.sector != s && At(f, b).key == key;
        assert Newest(f', b);
        SameNewest(f, f', b, b);
      }
    }
    SameContents(f, f');
  }
}
