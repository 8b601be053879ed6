/** Why writing the copies of an entry keeps the store healthy and sets exactly its key. */
module KvsWrites {
  import opened KvsEntry
  import opened KvsFlash
  import opened KvsContents
  import opened KvsSectors
  import opened KvsAccounting
  import opened KvsIndex
  import opened KvsSteps
  import opened KvsRecovery
  import opened KvsProgress
  import opened KvsQuiet

  lemma DiscountedTails(ds: Descriptors, addresses: seq<Address>, n: nat, size: nat)
    requires n <= |addresses| && forall k :: 0 <= k < |addresses| ==> addresses[k].sector < |ds|
    ensures forall t :: 0 <= t < |ds| ==> Discounted(ds, addresses, n, size)[t].tailFree == ds[t].tailFree
  {
    if n != 0 {
      DiscountedTails(ds, addresses, n - 1, size);
    }
  }

  /** The store right after the first copy of e is written at the next writable address of s and indexed. */
  ghost predicate FirstCopied(g: Geometry, a: Moment, b: Moment, i: nat, e: Entry, s: nat) {
    && PlaceFor(g, a.flash, a.index, i, e.key) && Storable(e) && g.inUse(e.key)
    && s < |a.ds| == |a.flash| && a.ds[s].tailFree <= g.sectorSize && a.ds[s].HasSpace(Size(g, e))
    && var at := NextWritable(g, a.ds, s);
    && b.flash == Put(a.flash, at, e)
    && b.ds == Superseded(g, a.flash, a.ds[s := Appended(a.ds[s], Size(g, e))], a.index, i)
    && b.index == Reindexed(g, a.index, i, e, at)
    && b.history == a.history + [b.flash]
  }

  lemma FirstCopyIsHealthy(g: Geometry, a: Moment, b: Moment, i: nat, e: Entry, s: nat, lastId: nat)
    requires HealthyAt(g, a, lastId) && lastId < MAX_TRANSACTION_ID && e.id == lastId + 1
    requires FirstCopied(g, a, b, i, e, s)
    ensures HealthyAt(g, b, lastId + 1) && Recoverable(g, b.flash)
    ensures Contents(b.flash) == Updated(Contents(a.flash), e)
    ensures i < |b.index| && b.index[i].addresses == [NextWritable(g, a.ds, s)]
    ensures Sound(g, b.flash, b.index[i]) && EntryOf(b.flash, b.index[i]) == e
  {
    hide Consistent, Contents, Updated, Recoverable, Sound, Superseded, Accounts;
    FirstCopyStep(g, a.flash, a.ds, a.index, i, e, s);
    PutHas(a.flash, NextWritable(g, a.ds, s), e);
    ConsistentIsRecoverable(g, b.flash, b.ds, b.index, lastId + 1);
    FirstCopyIsSound(g, a, b, i, e, s);
  }

  lemma FirstCopyIsSound(g: Geometry, a: Moment, b: Moment, i: nat, e: Entry, s: nat)
    requires FirstCopied(g, a, b, i, e, s)
    ensures i < |b.index| && b.index[i].addresses == [NextWritable(g, a.ds, s)]
    ensures Sound(g, b.flash, b.index[i]) && EntryOf(b.flash, b.index[i]) == e
  {
    hide Superseded;
    PutHas(a.flash, NextWritable(g, a.ds, s), e);
    assert Has(b.flash, b.index[i].addresses[0]);
  }

  /** Only sector s loses writable bytes. */
  lemma FirstCopyTails(g: Geometry, a: Moment, b: Moment, i: nat, e: Entry, s: nat, lastId: nat)
    requires HealthyAt(g, a, lastId) && FirstCopied(g, a, b, i, e, s)
    ensures |b.ds| == |a.ds|
    ensures forall t :: 0 <= t < |a.ds| && t != s ==> b.ds[t].tailFree == a.ds[t].tailFree
  {
    if i < |a.index| {
      DiscountedTails(a.ds[s := Appended(a.ds[s], Size(g, e))], a.index[i].addresses, |a.index[i].addresses|,
                      Size(g, EntryOf(a.flash, a.index[i])));
    }
  }

  lemma FirstCopyIsTidy(g: Geometry, a: Moment, b: Moment, i: nat, e: Entry, s: nat, t: nat, lastId: nat)
    requires HealthyAt(g, a, lastId) && e.id == lastId + 1 && FirstCopied(g, a, b, i, e, s)
    requires Tidy(g, a.ds) && t < |a.ds| && t != s && a.ds[t].Empty(g)
    ensures Tidy(g, b.ds)
    ensures Single(a.flash) ==> Single(b.flash) && Clean(b.flash)
  {
    FirstCopyTails(g, a, b, i, e, s, lastId);
    RoomAtNextWritable(g, a.flash, a.ds, Live(a.index), s, e);
    assert b.ds[t].Empty(g);
    if Single(a.flash) {
      SingleAfterWrite(a.flash, NextWritable(g, a.ds, s), e);
      SingleIsClean(b.flash);
    }
  }

  /** The store after one more copy of the entry of descriptor i, at the next writable address of s. */
  ghost predicate ExtraCopied(g: Geometry, a: Moment, b: Moment, i: nat, s: nat) {
    && i < |a.index| && Sound(g, a.flash, a.index[i]) && |a.index[i].addresses| < g.redundancy
    && !InSector(s, a.index[i].addresses)
    && s < |a.ds| == |a.flash| && a.ds[s].tailFree <= g.sectorSize
    && var e := EntryOf(a.flash, a.index[i]);
    && a.ds[s].HasSpace(Size(g, e))
    && var at := NextWritable(g, a.ds, s);
    && b == Moment(Put(a.flash, at, e), a.ds[s := Appended(a.ds[s], Size(g, e))], Copied(a.index, i, at),
                   a.history + [Put(a.flash, at, e)])
  }

  lemma ExtraCopyIsHealthy(g: Geometry, a: Moment, b: Moment, i: nat, s: nat, lastId: nat)
    requires HealthyAt(g, a, lastId) && ExtraCopied(g, a, b, i, s)
    ensures HealthyAt(g, b, lastId) && Recoverable(g, b.flash)
    ensures Contents(b.flash) == Contents(a.flash)
    ensures Sound(g, b.flash, b.index[i]) && EntryOf(b.flash, b.index[i]) == EntryOf(a.flash, a.index[i])
  {
    ExtraCopyStep(g, a.flash, a.ds, a.index, i, s);
    PutHas(a.flash, NextWritable(g, a.ds, s), EntryOf(a.flash, a.index[i]));
    ConsistentIsRecoverable(g, b.flash, b.ds, b.index, lastId);
    assert SameMeaning(g, a.flash, a.index[i], b.flash, b.index[i]);
  }

  /** From a to b the key of e was set and nothing else, and at each state flash meant one or the other. */
  ghost predicate Written(g: Geometry, a: Moment, b: Moment, e: Entry) {
    && a.history <= b.history
    && Contents(b.flash) == Updated(Contents(a.flash), e)
    && Passed(g, b.history, |a.history|, Contents(a.flash), Contents(b.flash))
    && StaysTidy(g, a, b)
  }

  lemma PassedOneMore(g: Geometry, start: Moment, a: Moment, flash: Flash, after: imap<Key, Bytes>)
    requires start.history <= a.history
    requires Passed(g, a.history, |start.history|, Contents(start.flash), after)
    requires Recoverable(g, flash) && Contents(flash) == after
    ensures Passed(g, a.history + [flash], |start.history|, Contents(start.flash), after)
  {
    var h := a.history + [flash];
    forall i | |start.history| <= i < |h|
      ensures Recoverable(g, h[i]) && (Contents(h[i]) == Contents(start.flash) || Contents(h[i]) == after)
    {
      if i < |a.history| {
        assert h[i] == a.history[i];
      }
    }
  }

  lemma PassedWeaker(g: Geometry, h: seq<Flash>, from: nat, before: imap<Key, Bytes>, after: imap<Key, Bytes>)
    requires Passed(g, h, from, before, before)
    ensures Passed(g, h, from, before, after)
  {
  }

  /** Every indexed entry but the one of descriptor i has all its copies. */
  ghost predicate OthersFull(g: Geometry, index: Index, i: nat) {
    forall k :: 0 <= k < |index| && k != i ==> |index[k].addresses| == g.redundancy
  }

  /** While the copies of e are written, begun at `start`, k of them are in place. */
  ghost predicate Copying(
    g: Geometry, start: Moment, m: Moment, i: nat, e: Entry, addresses: seq<Address>, k: nat, lastId: nat)
  {
    && HealthyAt(g, m, lastId)
    && Written(g, start, m, e)
    && i < |m.index| && Sound(g, m.flash, m.index[i]) && EntryOf(m.flash, m.index[i]) == e
    && 1 <= k <= |addresses| == g.redundancy && DistinctSectors(addresses)
    && m.index[i].addresses == addresses[..k]
    && (NoneMissing(g, start.index) ==> OthersFull(g, m.index, i))
    && Awaiting(g, m.ds, addresses, k, Size(g, e))
  }

  lemma AwaitingElsewhere(g: Geometry, ds: Descriptors, ds': Descriptors, addresses: seq<Address>, k: nat, size: nat)
    requires Awaiting(g, ds, addresses, k, size) && k < |addresses| && DistinctSectors(addresses)
    requires |ds| == |ds'|
    requires forall t :: 0 <= t < |ds| && t != addresses[k].sector ==> ds'[t].tailFree == ds[t].tailFree
    ensures Awaiting(g, ds', addresses, k + 1, size)
  {
    forall l | k + 1 <= l < |addresses|
      ensures AwaitingAt(g, ds', addresses[l], size)
    {
      assert AwaitingAt(g, ds, addresses[l], size);
      assert addresses[k].sector != addresses[l].sector;
    }
  }

  /** The first copy completes the write of its key. */
  lemma WrittenBegins(g: Geometry, start: Moment, a: Moment, b: Moment, i: nat, e: Entry, addresses: seq<Address>, lastId: nat)
    requires HealthyAt(g, a, lastId) && lastId < MAX_TRANSACTION_ID && e.id == lastId + 1
    requires Swept(g, [], start, a) && 0 < |addresses|
    requires Tidy(g, start.ds) ==>
      exists t :: 0 <= t < |a.ds| && a.ds[t].Empty(g) && !InSector(t, addresses)
    requires FirstCopied(g, a, b, i, e, addresses[0].sector)
    ensures Written(g, start, b, e)
  {
    hide Consistent, Moved, Sound, Clean, Single, PlaceFor, Superseded, Reindexed;
    var s := addresses[0].sector;
    FirstCopyIsHealthy(g, a, b, i, e, s, lastId);
    PassedWeaker(g, a.history, |start.history|, Contents(start.flash), Contents(b.flash));
    PassedOneMore(g, start, a, b.flash, Contents(b.flash));
    if Tidy(g, start.ds) {
      var t :| 0 <= t < |a.ds| && a.ds[t].Empty(g) && !InSector(t, addresses);
      FirstCopyIsTidy(g, a, b, i, e, s, t, lastId);
      if Single(start.flash) {
        CleanOneMore(start, a, b.flash);
      }
    }
  }

  /** Reserving addresses and writing the first copy. */
  lemma CopyingBegins(
    g: Geometry, start: Moment, a: Moment, b: Moment, i: nat, e: Entry, addresses: seq<Address>, lastId: nat)
    requires HealthyAt(g, a, lastId) && lastId < MAX_TRANSACTION_ID && e.id == lastId + 1
    requires Swept(g, [], start, a)
    requires |addresses| == g.redundancy && DistinctSectors(addresses) && Awaiting(g, a.ds, addresses, 0, Size(g, e))
    requires Tidy(g, start.ds) ==>
      exists t :: 0 <= t < |a.ds| && a.ds[t].Empty(g) && !InSector(t, addresses)
    requires FirstCopied(g, a, b, i, e, addresses[0].sector)
    ensures Copying(g, start, b, i, e, addresses, 1, lastId + 1)
  {
    hide Written, Consistent, Swept, Sound, Superseded;
    WrittenBegins(g, start, a, b, i, e, addresses, lastId);
    assert AwaitingAt(g, a.ds, addresses[0], Size(g, e));
    FirstCopyIsHealthy(g, a, b, i, e, addresses[0].sector, lastId);
    FirstCopyTails(g, a, b, i, e, addresses[0].sector, lastId);
    AwaitingElsewhere(g, a.ds, b.ds, addresses, 0, Size(g, e));
    assert addresses[..1] == [addresses[0]];
    if NoneMissing(g, start.index) {
      SweptMoves(g, [], start, a);
      MovedKeepsCopies(g, start.flash, start.index, a.flash, a.index);
    }
  }

  /** A further copy changes nothing that was written. */
  lemma WrittenStep(g: Geometry, start: Moment, a: Moment, b: Moment, i: nat, e: Entry, s: nat, lastId: nat)
    requires HealthyAt(g, a, lastId) && Written(g, start, a, e) && ExtraCopied(g, a, b, i, s)
    requires 1 < g.redundancy
    ensures Written(g, start, b, e)
  {
    hide Consistent, Sound, Clean, Single, Copied;
    ExtraCopyIsHealthy(g, a, b, i, s, lastId);
    PassedOneMore(g, start, a, b.flash, Contents(b.flash));
  }

  /** Writing one more copy at the next reserved address. */
  lemma CopyingStep(
    g: Geometry, start: Moment, a: Moment, b: Moment, i: nat, e: Entry, addresses: seq<Address>, k: nat, lastId: nat)
    requires Copying(g, start, a, i, e, addresses, k, lastId) && k < |addresses|
    requires ExtraCopied(g, a, b, i, addresses[k].sector)
    ensures Copying(g, start, b, i, e, addresses, k + 1, lastId)
  {
    hide Written, Consistent, Sound, HealthyAt, DistinctSectors, Recoverable;
    ExtraCopyIsHealthy(g, a, b, i, addresses[k].sector, lastId);
    WrittenStep(g, start, a, b, i, e, addresses[k].sector, lastId);
    assert AwaitingAt(g, a.ds, addresses[k], Size(g, e));
    AwaitingElsewhere(g, a.ds, b.ds, addresses, k, Size(g, e));
    assert addresses[..k] + [addresses[k]] == addresses[..k + 1];
  }

  /** The next reserved address may take a copy. */
  lemma CopyingFits(g: Geometry, start: Moment, a: Moment, i: nat, e: Entry, addresses: seq<Address>, k: nat, lastId: nat)
    requires Copying(g, start, a, i, e, addresses, k, lastId) && k < |addresses|
    ensures |a.flash| == |a.ds|
    ensures AwaitingAt(g, a.ds, addresses[k], Size(g, e))
    ensures !InSector(addresses[k].sector, a.index[i].addresses) && |a.index[i].addresses| < g.redundancy
    ensures Writable(g, a.flash, addresses[k], e)
  {
    assert AwaitingAt(g, a.ds, addresses[k], Size(g, e));
    RoomAtNextWritable(g, a.flash, a.ds, Live(a.index), addresses[k].sector, e);
    forall l | 0 <= l < k
      ensures addresses[..k][l].sector != addresses[k].sector
    {
      assert addresses[l].sector != addresses[k].sector;
    }
  }

  /** A place in the index stays the right one for its key while entries move. */
  lemma PlaceForMoved(g: Geometry, a: Moment, b: Moment, i: nat, key: Key)
    requires PlaceFor(g, a.flash, a.index, i, key) && Moved(g, a.flash, a.index, b.flash, b.index)
    ensures PlaceFor(g, b.flash, b.index, i, key)
    ensures i < |a.index| ==> EntryOf(b.flash, b.index[i]) == EntryOf(a.flash, a.index[i])
  {
    forall k | 0 <= k < |a.index|
      ensures b.index[k].hash == a.index[k].hash
    {
      assert SameMeaning(g, a.flash, a.index[k], b.flash, b.index[k]);
    }
    if i < |a.index| {
      assert SameMeaning(g, a.flash, a.index[i], b.flash, b.index[i]);
    }
  }

  lemma ConsistentAgrees(g: Geometry, m: Moment, lastId: nat)
    requires HealthyAt(g, m, lastId)
    ensures Agrees(g, m.flash, m.index)
  {
  }

  /** Skipping a write of what is already there is a write. */
  lemma SameValueIsWritten(g: Geometry, m: Moment, i: nat, e: Entry, lastId: nat)
    requires HealthyAt(g, m, lastId) && i < |m.index| && Sound(g, m.flash, m.index[i])
    requires var prior := EntryOf(m.flash, m.index[i]);
             prior.key == e.key && prior.value == e.value && prior.deleted == e.deleted
    ensures Written(g, m, m, e)
  {
    hide Tidy, Clean, Recoverable, Consistent, Present, Value;
    ConsistentAgrees(g, m, lastId);
    LookupIsContents(g, m.flash, m.index, i);
    assert Contents(m.flash) == Updated(Contents(m.flash), e);
  }

  lemma SweptMoves(g: Geometry, reserved: seq<Address>, a: Moment, b: Moment)
    requires Swept(g, reserved, a, b)
    ensures Moved(g, a.flash, a.index, b.flash, b.index)
  {
  }

  lemma AwaitingFirst(g: Geometry, ds: Descriptors, addresses: seq<Address>, size: nat)
    requires Awaiting(g, ds, addresses, 0, size) && 0 < |addresses|
    ensures AwaitingAt(g, ds, addresses[0], size)
  {
  }

  lemma CopyingIsWritten(
    g: Geometry, start: Moment, m: Moment, i: nat, e: Entry, addresses: seq<Address>, k: nat, lastId: nat)
    requires Copying(g, start, m, i, e, addresses, k, lastId)
    ensures Written(g, start, m, e) && HealthyAt(g, m, lastId)
    ensures k == g.redundancy && NoneMissing(g, start.index) ==> NoneMissing(g, m.index)
  {
  }
}
