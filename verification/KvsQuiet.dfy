/** What garbage collection may and may not do to a store, as a relation between two moments. */
module KvsQuiet {
  import opened KvsEntry
  import opened KvsFlash
  import opened KvsContents
  import opened KvsSectors
  import opened KvsAccounting
  import opened KvsIndex
  import opened KvsSteps
  import opened KvsRecovery
  import opened KvsProgress

  /** The store at one moment: flash, sector descriptors, index, and the states flash has passed through. */
  datatype Moment = Moment(flash: Flash, ds: Descriptors, index: Index, history: seq<Flash>)

  /** The invariant of a store that is ready for use. */
  ghost predicate HealthyAt(g: Geometry, m: Moment, lastId: nat) {
    && Consistent(g, m.flash, m.ds, m.index)
    && lastId <= MAX_TRANSACTION_ID
    && Regular(g, m.flash, lastId)
  }

  /** From index `from` on, every state flash went through is recoverable and means `before` or `after`. */
  ghost predicate Passed(g: Geometry, history: seq<Flash>, from: nat, before: imap<Key, Bytes>, after: imap<Key, Bytes>) {
    forall i :: from <= i < |history| ==>
      Recoverable(g, history[i]) && (Contents(history[i]) == before || Contents(history[i]) == after)
  }

  ghost predicate PassedClean(history: seq<Flash>, from: nat) {
    forall i :: from <= i < |history| ==> Clean(history[i])
  }

  /** If every entry was on flash only once, it still is, and no sector held two copies of one on the way. */
  ghost predicate StaysSingle(a: Moment, b: Moment) {
    Single(a.flash) ==> Single(b.flash) && PassedClean(b.history, |a.history|)
  }

  /** A store that keeps one copy of each entry and has an empty sector still has one. */
  ghost predicate StaysTidy(g: Geometry, a: Moment, b: Moment) {
    Tidy(g, a.ds) ==> Tidy(g, b.ds) && StaysSingle(a, b)
  }

  /** Sectors with a reserved address keep their entries and their write position. */
  ghost predicate Untouched(reserved: seq<Address>, a: Moment, b: Moment) {
    && |a.flash| == |b.flash| && |a.ds| == |b.ds|
    && forall t :: 0 <= t < |a.flash| && t < |a.ds| && InSector(t, reserved) ==>
        a.flash[t] == b.flash[t] && a.ds[t] == b.ds[t]
  }

  /** From a to b entries only moved: the same ones are indexed, the contents never changed on the way. */
  ghost predicate Quiet(g: Geometry, reserved: seq<Address>, a: Moment, b: Moment) {
    && Moved(g, a.flash, a.index, b.flash, b.index)
    && Contents(a.flash) == Contents(b.flash)
    && a.history <= b.history
    && Passed(g, b.history, |a.history|, Contents(a.flash), Contents(a.flash))
    && Untouched(reserved, a, b)
  }

  lemma QuietStart(g: Geometry, reserved: seq<Address>, a: Moment)
    requires Agrees(g, a.flash, a.index)
    ensures Quiet(g, reserved, a, a)
  {
    MovedNowhere(g, a.flash, a.index);
  }

  lemma QuietGrows(g: Geometry, reserved: seq<Address>, a: Moment, b: Moment)
    requires Quiet(g, reserved, a, b)
    ensures a.history <= b.history && |a.index| == |b.index|
  {
  }

  lemma QuietTransitive(g: Geometry, reserved: seq<Address>, a: Moment, b: Moment, c: Moment)
    requires Quiet(g, reserved, a, b) && Quiet(g, reserved, b, c)
    ensures Quiet(g, reserved, a, c)
  {
    MovedTransitive(g, a.flash, a.index, b.flash, b.index, c.flash, c.index);
    forall i | |a.history| <= i < |c.history|
      ensures Recoverable(g, c.history[i]) && Contents(c.history[i]) == Contents(a.flash)
    {
      if i < |b.history| {
        assert c.history[i] == b.history[i];
      }
    }
  }

  lemma PassedCleanTransitive(a: Moment, b: Moment, c: Moment)
    requires a.history <= b.history && b.history <= c.history
    requires PassedClean(b.history, |a.history|) && PassedClean(c.history, |b.history|)
    ensures PassedClean(c.history, |a.history|)
  {
    forall i | |a.history| <= i < |c.history|
      ensures Clean(c.history[i])
    {
      if i < |b.history| {
        assert c.history[i] == b.history[i];
      }
    }
  }

  lemma StaysTidyTransitive(g: Geometry, a: Moment, b: Moment, c: Moment)
    requires a.history <= b.history && b.history <= c.history
    requires StaysTidy(g, a, b) && StaysTidy(g, b, c)
    ensures StaysTidy(g, a, c)
  {
    hide Tidy, Single;
    if Tidy(g, a.ds) && Single(a.flash) {
      PassedCleanTransitive(a, b, c);
    }
  }

  lemma CleanOneMore(start: Moment, a: Moment, flash: Flash)
    requires start.history <= a.history && PassedClean(a.history, |start.history|) && Clean(flash)
    ensures PassedClean(a.history + [flash], |start.history|)
  {
    var h := a.history + [flash];
    forall i | |start.history| <= i < |h|
      ensures Clean(h[i])
    {
      if i < |a.history| {
        assert h[i] == a.history[i];
      }
    }
  }

  /** One step that writes or erases once is quiet if it only moves entries. */
  lemma QuietStep(g: Geometry, reserved: seq<Address>, a: Moment, b: Moment, lastId: nat)
    requires HealthyAt(g, b, lastId)
    requires Moved(g, a.flash, a.index, b.flash, b.index) && Contents(a.flash) == Contents(b.flash)
    requires b.history == a.history + [b.flash]
    requires Untouched(reserved, a, b)
    ensures Quiet(g, reserved, a, b)
  {
    ConsistentIsRecoverable(g, b.flash, b.ds, b.index, lastId);
  }

  lemma RelocationIsHealthy(g: Geometry, a: Moment, b: Moment, i: nat, j: nat, to: nat, lastId: nat)
    requires HealthyAt(g, a, lastId)
    requires Relocation(g, a.flash, a.ds, a.index, i, j, to, b.flash, b.ds, b.index)
    ensures HealthyAt(g, b, lastId)
    ensures Moved(g, a.flash, a.index, b.flash, b.index) && Contents(a.flash) == Contents(b.flash)
  {
    hide Consistent, Moved, Regular, Contents, Relocated, Readdressed;
    RelocateStep(g, a.flash, a.ds, a.index, i, j, to);
    RegularAfterCopy(g, a.flash, NextWritable(g, a.ds, to), a.index[i].addresses[0], lastId);
  }

  lemma RegularAfterCopy(g: Geometry, flash: Flash, a: Address, b: Address, lastId: nat)
    requires Regular(g, flash, lastId) && a.sector < |flash| && Has(flash, b)
    ensures Regular(g, Put(flash, a, At(flash, b)), lastId)
  {
    PutHas(flash, a, At(flash, b));
  }

  lemma RelocationSpares(g: Geometry, reserved: seq<Address>, a: Moment, b: Moment, i: nat, j: nat, to: nat)
    requires Relocation(g, a.flash, a.ds, a.index, i, j, to, b.flash, b.ds, b.index)
    requires !InSector(to, reserved) && !InSector(a.index[i].addresses[j].sector, reserved)
    ensures Untouched(reserved, a, b)
  {
    hide Sound, InSector, Appended;
    forall t | 0 <= t < |a.flash| && t < |a.ds| && InSector(t, reserved)
      ensures a.flash[t] == b.flash[t] && a.ds[t] == b.ds[t]
    {
      assert t != to && t != a.index[i].addresses[j].sector;
    }
  }

  /** A relocation is a quiet step when neither end is in a reserved sector. */
  lemma RelocationIsQuiet(g: Geometry, reserved: seq<Address>, a: Moment, b: Moment, i: nat, j: nat, to: nat, lastId: nat)
    requires HealthyAt(g, a, lastId)
    requires Relocation(g, a.flash, a.ds, a.index, i, j, to, b.flash, b.ds, b.index)
    requires b.history == a.history + [b.flash]
    requires !InSector(to, reserved) && !InSector(a.index[i].addresses[j].sector, reserved)
    ensures HealthyAt(g, b, lastId)
    ensures Quiet(g, reserved, a, b)
  {
    hide Relocation, HealthyAt, Quiet, Moved, Untouched;
    RelocationIsHealthy(g, a, b, i, j, to, lastId);
    RelocationSpares(g, reserved, a, b, i, j, to);
    QuietStep(g, reserved, a, b, lastId);
  }

  /** What the draining of sector s has kept from `start` on, with the descriptors up to n, then n', done. */
  ghost predicate Drained(g: Geometry, start: Moment, m: Moment, s: nat, n: nat, n': nat) {
    Draining(g, start.ds, s) ==>
      && Draining(g, m.ds, s)
      && (DrainingSingly(start.flash, start.index, s, n) ==>
            DrainingSingly(m.flash, m.index, s, n') && PassedClean(m.history, |start.history|))
  }

  lemma DrainFinds(g: Geometry, m: Moment, s: nat, i: nat, j: nat, lastNew: nat, found: Option<nat>, lastNew': nat)
    requires Consistent(g, m.flash, m.ds, m.index) && Draining(g, m.ds, s) && lastNew < |m.ds|
    requires i < |m.index| && Sound(g, m.flash, m.index[i])
    requires j < |m.index[i].addresses| && m.index[i].addresses[j].sector == s
    requires Answer(g, m.ds, Request(true, Size(g, EntryOf(m.flash, m.index[i])), m.index[i].addresses + []),
                    lastNew, found, lastNew')
    ensures found.Some? && j == 0 && |m.index[i].addresses| == 1
    ensures forall m': Moment :: Relocation(g, m.flash, m.ds, m.index, i, 0, found.value, m'.flash, m'.ds, m'.index) ==>
      Draining(g, m'.ds, s)
  {
    var a := m.index[i].addresses[0];
    assert m.index[i].addresses == [a] && a == Address(s, a.offset);
    assert m.index[i].addresses + [] == [Address(s, a.offset)];
    DrainStep(g, m.flash, m.ds, m.index, s, i, lastNew, found, lastNew');
  }

  ghost predicate OthersKept(before: Index, after: Index, i: nat) {
    && |before| == |after| && i < |before|
    && |before[i].addresses| == |after[i].addresses|
    && forall k :: 0 <= k < |before| && k != i ==> after[k] == before[k]
  }

  /** The loop that moves descriptor i out of sector s, begun at `start`, is at address j. */
  ghost predicate MovingOut(g: Geometry, reserved: seq<Address>, start: Moment, m: Moment, s: nat, i: nat, j: nat) {
    && Quiet(g, reserved, start, m)
    && OthersKept(start.index, m.index, i)
    && j <= |m.index[i].addresses| && !InSector(s, m.index[i].addresses[..j])
    && (reserved == [] ==> Drained(g, start, m, s, i, if j == 0 then i else i + 1))
  }

  lemma MovingOutBegins(g: Geometry, reserved: seq<Address>, start: Moment, s: nat, i: nat)
    requires Agrees(g, start.flash, start.index) && i < |start.index|
    ensures MovingOut(g, reserved, start, start, s, i, 0)
  {
    QuietStart(g, reserved, start);
  }

  lemma MovingOutSkips(g: Geometry, reserved: seq<Address>, start: Moment, m: Moment, s: nat, i: nat, j: nat)
    requires MovingOut(g, reserved, start, m, s, i, j)
    requires j < |m.index[i].addresses| && m.index[i].addresses[j].sector != s
    ensures MovingOut(g, reserved, start, m, s, i, j + 1)
  {
    NotInSectorNext(s, m.index[i].addresses, j);
    if DrainingSingly(m.flash, m.index, s, i) && j == 0 {
      SingleSkip(m.flash, m.index, s, i);
    }
  }

  lemma NotInSectorNext(s: nat, addresses: seq<Address>, j: nat)
    requires j < |addresses| && !InSector(s, addresses[..j]) && addresses[j].sector != s
    ensures !InSector(s, addresses[..j + 1])
  {
    var next := addresses[..j + 1];
    forall k | 0 <= k < |next|
      ensures next[k].sector != s
    {
      if k < j {
        assert addresses[..j][k] == next[k];
      }
    }
  }

  lemma MovingOutMoves(
    g: Geometry, reserved: seq<Address>, start: Moment, a: Moment, b: Moment, s: nat, i: nat, j: nat,
    target: Option<nat>, lastId: nat)
    requires MovingOut(g, reserved, start, a, s, i, j)
    requires HealthyAt(g, a, lastId)
    requires j < |a.index[i].addresses| && a.index[i].addresses[j].sector == s && !InSector(s, reserved)
    requires target.Some? && !InSector(target.value, reserved)
    requires Relocation(g, a.flash, a.ds, a.index, i, j, target.value, b.flash, b.ds, b.index)
    requires b.history == a.history + [b.flash]
    requires reserved == [] && Draining(g, start.ds, s) ==> j == 0 && |a.index[i].addresses| == 1 && Draining(g, b.ds, s)
    ensures MovingOut(g, reserved, start, b, s, i, j + 1)
    ensures HealthyAt(g, b, lastId)
  {
    RelocationIsQuiet(g, reserved, a, b, i, j, target.value, lastId);
    QuietTransitive(g, reserved, start, a, b);
    var before, after := a.index[i].addresses, b.index[i].addresses;
    assert after == before[j := after[j]] && after[j].sector == target.value;
    assert before[j].sector == s && target.value != s;
    assert after[..j] == before[..j];
    NotInSectorNext(s, after, j);
    if reserved == [] && Draining(g, start.ds, s) && DrainingSingly(start.flash, start.index, s, i) {
      SingleStep(g, a.flash, a.ds, a.index, s, i, target.value, b.flash, b.ds, b.index);
      CleanOneMore(start, a, b.flash);
    }
  }

  /** A drained sector never lacks a target for an entry, and the entry has its only copy there. */
  lemma MovingOutFinds(
    g: Geometry, reserved: seq<Address>, start: Moment, a: Moment, s: nat, i: nat, j: nat,
    lastNew: nat, target: Option<nat>, lastNew': nat)
    requires MovingOut(g, reserved, start, a, s, i, j) && reserved == [] && Draining(g, start.ds, s)
    requires Consistent(g, a.flash, a.ds, a.index) && lastNew < |a.ds| && Sound(g, a.flash, a.index[i])
    requires j < |a.index[i].addresses| && a.index[i].addresses[j].sector == s
    requires Answer(g, a.ds, Request(true, Size(g, EntryOf(a.flash, a.index[i])), a.index[i].addresses + reserved),
                    lastNew, target, lastNew')
    ensures target.Some? && j == 0 && |a.index[i].addresses| == 1
    ensures forall b: Moment :: Relocation(g, a.flash, a.ds, a.index, i, j, target.value, b.flash, b.ds, b.index) ==>
      Draining(g, b.ds, s)
  {
    assert |a.index[i].addresses| == 1;
    DrainFinds(g, a, s, i, j, lastNew, target, lastNew');
  }

  /** Garbage collection of sector s, begun at `start`, has done the first n descriptors. */
  ghost predicate Collecting(g: Geometry, reserved: seq<Address>, start: Moment, m: Moment, s: nat, n: nat) {
    && Quiet(g, reserved, start, m)
    && n <= |m.index| == |start.index|
    && (forall k :: 0 <= k < n ==> !InSector(s, m.index[k].addresses))
    && (reserved == [] ==> Drained(g, start, m, s, 0, n))
  }

  lemma CollectingBegins(g: Geometry, reserved: seq<Address>, start: Moment, s: nat)
    requires Agrees(g, start.flash, start.index)
    ensures Collecting(g, reserved, start, start, s, 0)
  {
    QuietStart(g, reserved, start);
  }

  /** Once the loop over the addresses of descriptor n is through, the next one is due. */
  lemma CollectingStep(g: Geometry, reserved: seq<Address>, start: Moment, a: Moment, b: Moment, s: nat, n: nat)
    requires Collecting(g, reserved, start, a, s, n) && n < |a.index|
    requires n < |b.index| && 0 < |b.index[n].addresses|
    requires MovingOut(g, reserved, a, b, s, n, |b.index[n].addresses|)
    ensures Collecting(g, reserved, start, b, s, n + 1)
  {
    hide Quiet, Draining, DrainingSingly;
    QuietGrows(g, reserved, start, a);
    QuietGrows(g, reserved, a, b);
    QuietTransitive(g, reserved, start, a, b);
    var addresses := b.index[n].addresses;
    assert addresses[..|addresses|] == addresses;
    if reserved == [] && Draining(g, start.ds, s) && DrainingSingly(start.flash, start.index, s, 0) {
      PassedCleanTransitive(start, a, b);
    }
  }

  lemma HasAddresses(g: Geometry, m: Moment, i: nat, lastId: nat)
    requires HealthyAt(g, m, lastId) && i < |m.index|
    ensures 0 < |m.index[i].addresses|
  {
    assert Sound(g, m.flash, m.index[i]);
  }

  lemma CollectingStops(g: Geometry, reserved: seq<Address>, start: Moment, a: Moment, b: Moment, s: nat, n: nat, reached: nat)
    requires Collecting(g, reserved, start, a, s, n) && n < |a.index|
    requires MovingOut(g, reserved, a, b, s, n, reached)
    ensures Quiet(g, reserved, start, b)
  {
    QuietTransitive(g, reserved, start, a, b);
  }

  lemma CollectedHasNoValidBytes(g: Geometry, reserved: seq<Address>, start: Moment, m: Moment, s: nat, lastId: nat)
    requires HealthyAt(g, m, lastId) && s < g.sectorCount
    requires Collecting(g, reserved, start, m, s, |m.index|)
    ensures s < |m.ds| && m.ds[s].validBytes == 0
  {
    forall a | a in Live(m.index)
      ensures a.sector != s
    {
      var k, l :| 0 <= k < |m.index| && 0 <= l < |m.index[k].addresses| && a == m.index[k].addresses[l];
      assert !InSector(s, m.index[k].addresses);
    }
    ValidBytesZero(g, m.flash, m.ds, Live(m.index), s);
  }

  /** Erasing a sector without valid bytes is a quiet step. */
  lemma EraseIsQuiet(g: Geometry, reserved: seq<Address>, start: Moment, a: Moment, b: Moment, s: nat, lastId: nat)
    requires HealthyAt(g, a, lastId) && Quiet(g, reserved, start, a)
    requires s < g.sectorCount && s < |a.ds| && a.ds[s].validBytes == 0 && s < |a.flash| && !InSector(s, reserved)
    requires b == Moment(Wiped(a.flash, s), a.ds[s := SectorDescriptor(g.sectorSize, 0)], a.index, a.history + [b.flash])
    ensures HealthyAt(g, b, lastId) && Quiet(g, reserved, start, b)
  {
    WipeStep(g, a.flash, a.ds, a.index, s);
    WipedHas(a.flash, s);
    QuietStep(g, reserved, a, b, lastId);
    QuietTransitive(g, reserved, start, a, b);
  }

  /** A drained and erased sector leaves the store tidy. */
  lemma EraseIsTidy(g: Geometry, start: Moment, a: Moment, b: Moment, s: nat)
    requires Collecting(g, [], start, a, s, |a.index|) && Draining(g, start.ds, s)
    requires Single(start.flash) ==> DrainingSingly(start.flash, start.index, s, 0)
    requires s < |a.ds| && s < |a.flash|
    requires b == Moment(Wiped(a.flash, s), a.ds[s := SectorDescriptor(g.sectorSize, 0)], a.index, a.history + [b.flash])
    ensures StaysTidy(g, start, b)
  {
    hide Draining;
    DrainEnds(g, a.ds, s);
    if Single(start.flash) {
      SingleAfterWipe(a.flash, s);
      SingleIsClean(b.flash);
      CleanOneMore(start, a, b.flash);
    }
  }

  lemma DrainedIsNotEmpty(g: Geometry, start: Moment, a: Moment, s: nat)
    requires Collecting(g, [], start, a, s, |a.index|) && Draining(g, start.ds, s)
    ensures s < |a.ds| && !a.ds[s].Empty(g)
  {
  }

  /** Erasing a sector that held only stale entries leaves a tidy store tidy. */
  lemma StaleEraseIsTidy(g: Geometry, a: Moment, b: Moment, s: nat)
    requires s < |a.ds| && s < |a.flash|
    requires b == Moment(Wiped(a.flash, s), a.ds[s := SectorDescriptor(g.sectorSize, 0)], a.index, a.history + [b.flash])
    ensures StaysTidy(g, a, b)
  {
    assert b.ds[s].Empty(g);
    if Single(a.flash) {
      SingleIsSingleBut(a.flash, s);
      SingleAfterWipe(a.flash, s);
      SingleIsClean(b.flash);
    }
  }

  lemma QuietForFewer(g: Geometry, reserved: seq<Address>, a: Moment, b: Moment)
    requires Quiet(g, reserved, a, b)
    ensures Quiet(g, [], a, b)
  {
  }

  /** What a search for room needs of a healthy store. */
  lemma HealthyIsSane(g: Geometry, m: Moment, lastId: nat)
    requires HealthyAt(g, m, lastId)
    ensures |m.flash| == |m.ds| == g.sectorCount && AllSane(g, m.ds)
    ensures forall s :: 0 <= s < |m.ds| ==> m.ds[s].tailFree <= g.sectorSize
    ensures Agrees(g, m.flash, m.index)
  {
    AccountsAreSane(g, m.flash, m.ds, Live(m.index));
    forall s | 0 <= s < |m.ds|
      ensures m.ds[s].tailFree <= g.sectorSize
    {
      assert Exact(g, m.flash[s], m.ds[s], s, Live(m.index));
    }
  }

  /** Addresses from k on are the next writable ones of their sectors, which have room. */
  ghost predicate Awaiting(g: Geometry, ds: Descriptors, addresses: seq<Address>, k: nat, size: nat) {
    forall i :: k <= i < |addresses| ==> AwaitingAt(g, ds, addresses[i], size)
  }

  ghost predicate AwaitingAt(g: Geometry, ds: Descriptors, a: Address, size: nat) {
    && a.sector < |ds| && ds[a.sector].tailFree <= g.sectorSize
    && a == NextWritable(g, ds, a.sector)
    && ds[a.sector].HasSpace(size)
  }

  /** Garbage collection for a later copy does not disturb the addresses already reserved. */
  lemma ReservedStayAwaiting(g: Geometry, reserved: seq<Address>, a: Moment, b: Moment, size: nat)
    requires Quiet(g, reserved, a, b) && Awaiting(g, a.ds, reserved, 0, size)
    requires |a.flash| == |a.ds|
    ensures Awaiting(g, b.ds, reserved, 0, size)
  {
    forall i | 0 <= i < |reserved|
      ensures AwaitingAt(g, b.ds, reserved[i], size)
    {
      assert AwaitingAt(g, a.ds, reserved[i], size);
      assert InSector(reserved[i].sector, reserved);
    }
  }

  lemma AwaitingOneMore(g: Geometry, ds: Descriptors, reserved: seq<Address>, s: nat, size: nat)
    requires Awaiting(g, ds, reserved, 0, size) && DistinctSectors(reserved) && !InSector(s, reserved)
    requires s < |ds| && ds[s].tailFree <= g.sectorSize && ds[s].HasSpace(size)
    ensures Awaiting(g, ds, reserved + [NextWritable(g, ds, s)], 0, size)
    ensures DistinctSectors(reserved + [NextWritable(g, ds, s)])
  {
    var more := reserved + [NextWritable(g, ds, s)];
    forall i | 0 <= i < |more|
      ensures AwaitingAt(g, ds, more[i], size)
    {
      if i < |reserved| {
        assert AwaitingAt(g, ds, reserved[i], size);
      }
    }
  }

  /** Quiet, and in a store with single copies tidy and clean all the way: what garbage collection promises. */
  ghost predicate Swept(g: Geometry, reserved: seq<Address>, a: Moment, b: Moment) {
    Quiet(g, reserved, a, b) && (reserved == [] ==> StaysTidy(g, a, b))
  }

  lemma SweptStart(g: Geometry, reserved: seq<Address>, m: Moment, lastId: nat)
    requires HealthyAt(g, m, lastId)
    ensures Swept(g, reserved, m, m)
  {
    QuietStart(g, reserved, m);
  }

  lemma SweptTransitive(g: Geometry, reserved: seq<Address>, a: Moment, b: Moment, c: Moment)
    requires Swept(g, reserved, a, b) && Swept(g, reserved, b, c)
    ensures Swept(g, reserved, a, c)
  {
    QuietTransitive(g, reserved, a, b, c);
    if reserved == [] {
      StaysTidyTransitive(g, a, b, c);
    }
  }

  /** An answer to a request for room to append, as GetSectorForWrite passes it on. */
  ghost predicate RoomFound(g: Geometry, ds: Descriptors, reserved: seq<Address>, size: nat, s: nat) {
    && s < |ds| && ds[s].tailFree <= g.sectorSize && ds[s].HasSpace(size)
    && !InSector(s, reserved)
    && (HasEmpty(g, ds) ==> exists t :: 0 <= t < |ds| && t != s && ds[t].Empty(g))
  }

  lemma AnswerIsRoom(g: Geometry, m: Moment, reserved: seq<Address>, size: nat, lastNew: nat, found: Option<nat>, lastNew': nat, lastId: nat)
    requires HealthyAt(g, m, lastId) && AllSane(g, m.ds) && lastNew < |m.ds| && size <= g.sectorSize
    requires Answer(g, m.ds, Request(false, size, reserved), lastNew, found, lastNew') && found.Some?
    ensures RoomFound(g, m.ds, reserved, size, found.value)
  {
    var r := Request(false, size, reserved);
    HealthyIsSane(g, m, lastId);
    AnswerFits(g, m.ds, r, lastNew, found, lastNew');
    if HasEmpty(g, m.ds) {
      AppendLeavesEmpty(g, m.ds, r, lastNew, found, lastNew');
    }
  }

  /** Room without garbage collection: a sector in use with space, or two empty ones. */
  ghost predicate RoomAtOnce(g: Geometry, ds: Descriptors, reserved: seq<Address>, size: nat) {
    AllSane(g, ds) && var r := Request(false, size, reserved); AnyFirst(g, ds, r) || TwoSeconds(g, ds, r)
  }

  lemma RoomAtOnceIsFound(g: Geometry, ds: Descriptors, reserved: seq<Address>, size: nat, lastNew: nat, found: Option<nat>, lastNew': nat)
    requires AllSane(g, ds) && lastNew < |ds|
    requires Answer(g, ds, Request(false, size, reserved), lastNew, found, lastNew')
    ensures found.Some? <==> RoomAtOnce(g, ds, reserved, size)
  {
    var r := Request(false, size, reserved);
    if AnyPartial(g, ds, r) {
      var s :| 0 <= s < |ds| && r.Partial(g, ds, s);
      assert r.First(g, ds, s);
    }
    if TwoSeconds(g, ds, r) {
      var s, t :| 0 <= s < |ds| && 0 <= t < |ds| && s != t && r.Second(g, ds, s) && r.Second(g, ds, t);
      assert AnySecond(g, ds, r);
    }
  }
}
