/** What garbage collection gains: stale bytes become writable, live ones only move, and when that is enough. */
module KvsReclaim {
  import opened KvsEntry
  import opened KvsFlash
  import opened KvsSectors
  import opened KvsAccounting
  import opened KvsIndex
  import opened KvsSteps
  import opened KvsRecovery
  import opened KvsProgress
  import opened KvsQuiet

  datatype GarbageCollectOnWrite = Disabled | OneSector | AsManySectorsNeeded

  /** The live bytes of all sectors. */
  function TotalValid(ds: Descriptors): nat {
    if ds == [] then 0 else TotalValid(ds[..|ds| - 1]) + ds[|ds| - 1].validBytes
  }

  /** How many sectors have stale bytes. */
  function Wasteful(g: Geometry, ds: Descriptors): (n: nat)
    requires AllSane(g, ds)
    ensures n <= |ds|
  {
    if ds == [] then 0
    else
      var n := |ds| - 1;
      Wasteful(g, ds[..n]) + if 0 < ds[n].Recoverable(g) then 1 else 0
  }

  lemma {:induction false} TotalAfterUpdate(ds: Descriptors, s: nat, d: SectorDescriptor)
    requires s < |ds|
    ensures TotalValid(ds[s := d]) + ds[s].validBytes == TotalValid(ds) + d.validBytes
  {
    var n := |ds| - 1;
    if s == n {
      assert ds[s := d][..n] == ds[..n];
    } else {
      assert ds[s := d][..n] == ds[..n][s := d];
      TotalAfterUpdate(ds[..n], s, d);
    }
  }

  /** If stale bytes are as they were everywhere but in s, which had some and has none now, one less sector has some. */
  lemma {:induction false} WastefulElsewhere(g: Geometry, ds: Descriptors, ds': Descriptors, s: nat)
    requires AllSane(g, ds) && AllSane(g, ds') && |ds| == |ds'|
    requires forall t :: 0 <= t < |ds| && t != s ==> ds'[t].Recoverable(g) == ds[t].Recoverable(g)
    ensures s < |ds| && 0 < ds[s].Recoverable(g) && ds'[s].Recoverable(g) == 0 ==>
      Wasteful(g, ds') + 1 == Wasteful(g, ds)
    ensures |ds| <= s ==> Wasteful(g, ds') == Wasteful(g, ds)
  {
    if ds != [] {
      var n := |ds| - 1;
      WastefulElsewhere(g, ds[..n], ds'[..n], s);
    }
  }

  lemma {:induction false} NoneWasteful(g: Geometry, ds: Descriptors)
    requires AllSane(g, ds)
    ensures Wasteful(g, ds) == 0 <==> forall t :: 0 <= t < |ds| ==> ds[t].Recoverable(g) == 0
  {
    if ds != [] {
      var n := |ds| - 1;
      NoneWasteful(g, ds[..n]);
      assert forall t :: 0 <= t < n ==> ds[..n][t] == ds[t];
    }
  }

  // ---------------------------------------------------------------- what a collection does

  /** Live bytes left s for other sectors, whose stale bytes stay what they are. */
  ghost predicate Emptying(g: Geometry, before: Descriptors, after: Descriptors, s: nat) {
    && AllSane(g, before) && AllSane(g, after) && s < |before| == |after|
    && TotalValid(after) == TotalValid(before)
    && after[s].tailFree == before[s].tailFree
    && forall t :: 0 <= t < |before| && t != s ==> after[t].Recoverable(g) == before[t].Recoverable(g)
  }

  lemma EmptyingBegins(g: Geometry, ds: Descriptors, s: nat)
    requires AllSane(g, ds) && s < |ds|
    ensures Emptying(g, ds, ds, s)
  {
  }

  lemma EmptyingTransitive(g: Geometry, a: Descriptors, b: Descriptors, c: Descriptors, s: nat)
    requires Emptying(g, a, b, s) && Emptying(g, b, c, s)
    ensures Emptying(g, a, c, s)
  {
  }

  lemma EmptyingKeepsTail(g: Geometry, a: Descriptors, b: Descriptors, s: nat)
    requires Emptying(g, a, b, s)
    ensures s < |a| == |b| && (a[s].Empty(g) <==> b[s].Empty(g))
  {
  }

  /** A relocation out of s moves the bytes of its entry, no more and no less. */
  lemma RelocationEmpties(g: Geometry, ds: Descriptors, s: nat, to: nat, size: nat)
    requires AllSane(g, ds) && s < |ds| && to < |ds| && s != to
    requires ds[to].tailFree <= g.sectorSize && ds[to].HasSpace(size) && size <= ds[s].validBytes
    ensures Emptying(g, ds, Relocated(ds, s, to, size), s)
  {
    hide TotalValid;
    var appended := ds[to := Appended(ds[to], size)];
    TotalAfterUpdate(ds, to, Appended(ds[to], size));
    TotalAfterUpdate(appended, s, appended[s].RemoveValid(size));
    AppendedIsSane(g, ds[to], size);
  }

  /** So does any relocation of a copy in s, as an entry's bytes are among the live ones of its sector. */
  lemma RelocationStepEmpties(g: Geometry, a: Moment, b: Moment, s: nat, i: nat, j: nat, to: nat, lastId: nat)
    requires HealthyAt(g, a, lastId) && Relocation(g, a.flash, a.ds, a.index, i, j, to, b.flash, b.ds, b.index)
    requires a.index[i].addresses[j].sector == s
    ensures Emptying(g, a.ds, b.ds, s)
  {
    hide Emptying, Relocated;
    var m := a.index[i];
    assert m.addresses[j] in Live(a.index);
    assert At(a.flash, m.addresses[j]) == EntryOf(a.flash, m);
    AccountsRemove(g, a.flash, a.ds, Live(a.index), m.addresses[j]);
    HealthyIsSane(g, a, lastId);
    RelocationEmpties(g, a.ds, s, to, Size(g, EntryOf(a.flash, m)));
  }

  lemma AppendedIsSane(g: Geometry, d: SectorDescriptor, size: nat)
    requires d.Sane(g) && d.tailFree <= g.sectorSize && d.HasSpace(size)
    ensures Appended(d, size).Sane(g) && Appended(d, size).Recoverable(g) == d.Recoverable(g)
    ensures Appended(d, size).validBytes == d.validBytes + size
  {
  }

  /** Sector s was collected: it is empty now, and its stale bytes are the ones that were reclaimed. */
  ghost predicate Reclaimed(g: Geometry, before: Descriptors, after: Descriptors, s: nat) {
    && AllSane(g, before) && AllSane(g, after) && s < |before| == |after|
    && TotalValid(after) == TotalValid(before)
    && !before[s].Empty(g) && after[s] == SectorDescriptor(g.sectorSize, 0)
    && (forall t :: 0 <= t < |before| && t != s ==> after[t].Recoverable(g) == before[t].Recoverable(g))
    && (before[s].validBytes == 0 ==> after == before[s := after[s]])
  }

  lemma ErasureReclaims(g: Geometry, start: Descriptors, ds: Descriptors, s: nat)
    requires Emptying(g, start, ds, s) && ds[s].validBytes == 0 && !ds[s].Empty(g)
    requires start[s].validBytes == 0 ==> ds == start
    ensures Reclaimed(g, start, ds[s := SectorDescriptor(g.sectorSize, 0)], s)
  {
    hide TotalValid;
    TotalAfterUpdate(ds, s, SectorDescriptor(g.sectorSize, 0));
    assert g.sectorSize != CORRUPT_SECTOR;
  }

  /** Why the store may be tidy again once s is erased: its entries were drained, or it had none and nothing happened. */
  ghost predicate ReadyToErase(g: Geometry, start: Moment, a: Moment, s: nat) {
    if s < |start.ds| && start.ds[s].validBytes == 0 then a == start
    else
      && Collecting(g, [], start, a, s, |a.index|) && Draining(g, start.ds, s)
      && (Single(start.flash) ==> DrainingSingly(start.flash, start.index, s, 0))
  }

  lemma ErasureIsSwept(g: Geometry, reserved: seq<Address>, start: Moment, a: Moment, b: Moment, s: nat, lastId: nat)
    requires HealthyAt(g, a, lastId) && Quiet(g, reserved, start, a)
    requires s < g.sectorCount && s < |a.ds| && a.ds[s].validBytes == 0 && s < |a.flash| && !InSector(s, reserved)
    requires b == Moment(Wiped(a.flash, s), a.ds[s := SectorDescriptor(g.sectorSize, 0)], a.index, a.history + [b.flash])
    requires reserved == [] && Tidy(g, start.ds) ==> ReadyToErase(g, start, a, s)
    ensures HealthyAt(g, b, lastId) && Swept(g, reserved, start, b)
  {
    hide HealthyAt, Quiet, StaysTidy, Collecting, Draining, DrainingSingly, Single;
    EraseIsQuiet(g, reserved, start, a, b, s, lastId);
    if reserved == [] {
      if Tidy(g, start.ds) {
        if s < |start.ds| && start.ds[s].validBytes == 0 {
          StaleEraseIsTidy(g, start, b, s);
        } else {
          EraseIsTidy(g, start, a, b, s);
        }
      } else {
        NotTidy(g, start, b);
      }
    }
  }

  lemma QuietIsSwept(g: Geometry, reserved: seq<Address>, a: Moment, b: Moment)
    requires Quiet(g, reserved, a, b) && !(reserved == [] && Tidy(g, a.ds))
    ensures Swept(g, reserved, a, b)
  {
  }

  lemma NotTidy(g: Geometry, a: Moment, b: Moment)
    requires !Tidy(g, a.ds)
    ensures StaysTidy(g, a, b)
  {
  }

  /** A sector in use, all of whose bytes are stale. */
  predicate IsStale(g: Geometry, d: SectorDescriptor) {
    d.validBytes == 0 && !d.Empty(g)
  }

  ghost predicate AnyStale(g: Geometry, ds: Descriptors, reserved: seq<Address>) {
    exists s :: 0 <= s < |ds| && IsStale(g, ds[s]) && !InSector(s, reserved)
  }

  ghost predicate AnyWasteful(g: Geometry, ds: Descriptors, reserved: seq<Address>)
    requires AllSane(g, ds)
  {
    exists s :: 0 <= s < |ds| && 0 < ds[s].Recoverable(g) && !InSector(s, reserved)
  }

  /** Of the unreserved sectors one was collected: one with stale bytes if there was any, and with no others if possible. */
  ghost predicate Collected(g: Geometry, before: Descriptors, after: Descriptors, reserved: seq<Address>) {
    exists s ::
      && 0 <= s < |before| && !InSector(s, reserved) && Reclaimed(g, before, after, s)
      && (AnyStale(g, before, reserved) ==> before[s].validBytes == 0)
      && (AnyWasteful(g, before, reserved) ==> 0 < before[s].Recoverable(g))
  }

  lemma VictimIsWorst(g: Geometry, ds: Descriptors, reserved: seq<Address>, lastNew: nat, s: nat)
    requires AllSane(g, ds) && lastNew < |ds| && Victim(g, ds, reserved, lastNew, Some(s))
    ensures s < |ds|
    ensures AnyStale(g, ds, reserved) ==> ds[s].validBytes == 0
    ensures AnyWasteful(g, ds, reserved) ==> 0 < ds[s].Recoverable(g)
  {
    hide AllSane, Rotation, HeaviestAt;
    if Heaviest(g, ds, reserved, Stale, lastNew, |ds|, None) {
      NoneHasWeight(g, ds, reserved, Stale, lastNew);
      NotStale(g, ds, reserved);
      if Heaviest(g, ds, reserved, MostRecoverable, lastNew, |ds|, None) {
        NoneHasWeight(g, ds, reserved, MostRecoverable, lastNew);
        NotWasteful(g, ds, reserved);
      } else {
        HasWeight(g, ds, reserved, MostRecoverable, lastNew, s);
      }
    } else {
      HasWeight(g, ds, reserved, Stale, lastNew, s);
    }
  }

  lemma HasWeight(g: Geometry, ds: Descriptors, reserved: seq<Address>, pass: Pass, lastNew: nat, s: nat)
    requires AllSane(g, ds) && lastNew < |ds| && Heaviest(g, ds, reserved, pass, lastNew, |ds|, Some(s))
    ensures s < |ds| && 0 < Weight(g, ds, reserved, pass, s)
  {
    var k :| HeaviestAt(g, ds, reserved, pass, lastNew, |ds|, s, k);
  }

  lemma NotStale(g: Geometry, ds: Descriptors, reserved: seq<Address>)
    requires AllSane(g, ds) && forall s :: 0 <= s < |ds| ==> Weight(g, ds, reserved, Stale, s) == 0
    ensures !AnyStale(g, ds, reserved)
  {
    forall s | 0 <= s < |ds|
      ensures !IsStale(g, ds[s]) || InSector(s, reserved)
    {
      assert Weight(g, ds, reserved, Stale, s) == 0;
    }
  }

  lemma NotWasteful(g: Geometry, ds: Descriptors, reserved: seq<Address>)
    requires AllSane(g, ds) && forall s :: 0 <= s < |ds| ==> Weight(g, ds, reserved, MostRecoverable, s) == 0
    ensures !AnyWasteful(g, ds, reserved)
  {
    forall s | 0 <= s < |ds|
      ensures ds[s].Recoverable(g) == 0 || InSector(s, reserved)
    {
      assert Weight(g, ds, reserved, MostRecoverable, s) == 0;
    }
  }

  // ---------------------------------------------------------------- when it is enough

  /** Erasing a stale sector of a tidy store leaves two empty ones. */
  lemma StaleMakesRoom(g: Geometry, before: Descriptors, after: Descriptors, size: nat)
    requires HasEmpty(g, before) && AnyStale(g, before, []) && Collected(g, before, after, [])
    ensures RoomAtOnce(g, after, [], size)
  {
    hide Wasteful, TotalValid;
    var s :| 0 <= s < |before| && Reclaimed(g, before, after, s) && before[s].validBytes == 0;
    var t :| 0 <= t < |before| && before[t].Empty(g);
    var r := Request(false, size, []);
    assert g.sectorSize != CORRUPT_SECTOR;
    assert r.Second(g, after, s) && r.Second(g, after, t) && s != t;
  }

  /** An entry of this size fits, if live bytes are packed as badly as they can be. */
  predicate FitsAnyhow(g: Geometry, ds: Descriptors, size: nat) {
    size <= g.sectorSize && TotalValid(ds) <= (g.sectorCount - 1) * (g.sectorSize - size)
  }

  /** At least this much, when every sector but one has so many live bytes. */
  lemma {:induction false} TotalAtLeast(ds: Descriptors, e: nat, x: nat)
    requires forall t :: 0 <= t < |ds| && t != e ==> x <= ds[t].validBytes
    ensures if e < |ds| then (|ds| - 1) * x <= TotalValid(ds) else |ds| * x <= TotalValid(ds)
  {
    if ds != [] {
      var n := |ds| - 1;
      TotalAtLeast(ds[..n], e, x);
    }
  }

  /** Without room, every sector but the empty one is so full of live bytes that the entry does not fit behind them. */
  lemma OthersAreFull(g: Geometry, ds: Descriptors, size: nat, e: nat)
    requires AllSane(g, ds) && size <= g.sectorSize && e < |ds| && ds[e].Empty(g)
    requires forall t :: 0 <= t < |ds| ==> ds[t].Recoverable(g) == 0
    requires !RoomAtOnce(g, ds, [], size)
    ensures forall t :: 0 <= t < |ds| && t != e ==> g.sectorSize - size + 1 <= ds[t].validBytes
  {
    var r := Request(false, size, []);
    assert r.Second(g, ds, e);
    forall t | 0 <= t < |ds| && t != e
      ensures g.sectorSize - size + 1 <= ds[t].validBytes
    {
      assert !r.Second(g, ds, t);
      assert !r.First(g, ds, t);
    }
  }

  lemma OneMoreEach(n: nat, x: nat)
    requires 0 < n
    ensures n * x < n * (x + 1)
  {
  }

  /** With no stale byte left there is room for what fits anyhow. */
  lemma PackedHasRoom(g: Geometry, ds: Descriptors, size: nat)
    requires AllSane(g, ds) && |ds| == g.sectorCount && HasEmpty(g, ds)
    requires forall t :: 0 <= t < |ds| ==> ds[t].Recoverable(g) == 0
    requires FitsAnyhow(g, ds, size)
    ensures RoomAtOnce(g, ds, [], size)
  {
    hide TotalValid, RoomAtOnce;
    if !RoomAtOnce(g, ds, [], size) {
      var e :| 0 <= e < |ds| && ds[e].Empty(g);
      OthersAreFull(g, ds, size, e);
      TotalAtLeast(ds, e, g.sectorSize - size + 1);
      OneMoreEach(g.sectorCount - 1, g.sectorSize - size);
      assert false;
    }
  }

  /** As long as no room is found for what fits anyhow, each collection leaves one sector less with stale bytes. */
  lemma CollectionPacks(g: Geometry, before: Descriptors, after: Descriptors, size: nat)
    requires AllSane(g, before) && |before| == g.sectorCount && HasEmpty(g, before)
    requires FitsAnyhow(g, before, size) && !RoomAtOnce(g, before, [], size) && Collected(g, before, after, [])
    ensures AllSane(g, after) && FitsAnyhow(g, after, size)
    ensures Wasteful(g, after) + 1 == Wasteful(g, before)
  {
    hide Wasteful, TotalValid, RoomAtOnce;
    if !AnyWasteful(g, before, []) {
      forall t | 0 <= t < |before|
        ensures before[t].Recoverable(g) == 0
      {
        assert !InSector(t, []);
      }
      PackedHasRoom(g, before, size);
      assert false;
    }
    var s :| 0 <= s < |before| && Reclaimed(g, before, after, s) && 0 < before[s].Recoverable(g);
    assert g.sectorSize != CORRUPT_SECTOR;
    WastefulElsewhere(g, before, after, s);
  }

  // ---------------------------------------------------------------- when it is not

  /** No copy of this entry can be moved: every sector without one, and not reserved, is in use and too full. */
  ghost predicate StuckAt(g: Geometry, m: Moment, reserved: seq<Address>, i: nat) {
    && i < |m.index| && Sound(g, m.flash, m.index[i])
    && (exists j :: 0 <= j < |m.index[i].addresses| && !InSector(m.index[i].addresses[j].sector, reserved))
    && forall t :: 0 <= t < |m.ds| && !InSector(t, m.index[i].addresses + reserved) ==>
        !m.ds[t].Empty(g) && !m.ds[t].HasSpace(Size(g, EntryOf(m.flash, m.index[i])))
  }

  /** Some entry in a sector that may be collected has nowhere to go. */
  ghost predicate Stuck(g: Geometry, m: Moment, reserved: seq<Address>) {
    exists i :: StuckAt(g, m, reserved, i)
  }

  /** Every sector that may be collected is empty. */
  ghost predicate NothingToCollect(g: Geometry, ds: Descriptors, reserved: seq<Address>) {
    forall s :: 0 <= s < |ds| && !InSector(s, reserved) ==> ds[s].Empty(g)
  }

  lemma NoTargetIsStuck(g: Geometry, m: Moment, reserved: seq<Address>, i: nat, j: nat, lastNew: nat, lastNew': nat)
    requires AllSane(g, m.ds) && lastNew < |m.ds| && i < |m.index| && Sound(g, m.flash, m.index[i])
    requires j < |m.index[i].addresses| && !InSector(m.index[i].addresses[j].sector, reserved)
    requires Answer(g, m.ds, Request(true, Size(g, EntryOf(m.flash, m.index[i])), m.index[i].addresses + reserved),
                    lastNew, None, lastNew')
    ensures StuckAt(g, m, reserved, i)
  {
    var r := Request(true, Size(g, EntryOf(m.flash, m.index[i])), m.index[i].addresses + reserved);
    hide InSector;
    forall t | 0 <= t < |m.ds| && !InSector(t, r.skip)
      ensures !m.ds[t].Empty(g) && !m.ds[t].HasSpace(r.size)
    {
      assert !r.Second(g, m.ds, t);
      assert !r.Partial(g, m.ds, t);
    }
  }

  /** With nothing to collect and nothing reserved there is room, as there are two sectors at least. */
  lemma AllEmptyIsRoom(g: Geometry, ds: Descriptors, size: nat)
    requires AllSane(g, ds) && |ds| == g.sectorCount && NothingToCollect(g, ds, [])
    ensures RoomAtOnce(g, ds, [], size)
  {
    var r := Request(false, size, []);
    assert r.Second(g, ds, 0) && r.Second(g, ds, 1);
  }

  // ---------------------------------------------------------------- giving up

  /**
   What it takes for the search for room to fail, after so many erasures: there is nothing left to collect, or something
   that cannot be moved, or the policy allows no more. Unless a collection was broken off or they were too many, no sector
   has room then.
   */
  ghost predicate GaveUp(
    g: Geometry, policy: GarbageCollectOnWrite, m: Moment, reserved: seq<Address>, size: nat, erasures: int)
  {
    var enough := g.sectorCount + 2 < erasures;
    && (RoomAtOnce(g, m.ds, reserved, size) ==> Stuck(g, m, reserved) || (enough && policy == AsManySectorsNeeded))
    && match policy
       case Disabled => erasures == 0
       case OneSector => erasures == 1 || (erasures == 0 && CannotCollect(g, m, reserved))
       case AsManySectorsNeeded => enough || CannotCollect(g, m, reserved)
  }

  /** How many sectors a policy lets one search collect. */
  function MostCollections(g: Geometry, policy: GarbageCollectOnWrite): nat {
    match policy
    case Disabled => 0
    case OneSector => 1
    case AsManySectorsNeeded => g.sectorCount + 3
  }

  ghost predicate CannotCollect(g: Geometry, m: Moment, reserved: seq<Address>) {
    NothingToCollect(g, m.ds, reserved) || Stuck(g, m, reserved)
  }

  /**
   When the search for room cannot fail: a tidy store may collect, and has a sector with nothing but stale bytes; or it may
   collect as much as is needed, and the entry fits anyhow.
   */
  ghost predicate CertainRoom(g: Geometry, policy: GarbageCollectOnWrite, ds: Descriptors, size: nat) {
    && Tidy(g, ds)
    && ((policy != Disabled && AnyStale(g, ds, []))
        || (policy == AsManySectorsNeeded && FitsAnyhow(g, ds, size)))
  }

  lemma OneCopyIfCertain(g: Geometry, policy: GarbageCollectOnWrite, ds: Descriptors, size: nat)
    ensures CertainRoom(g, policy, ds, size) ==> g.redundancy == 1
  {
  }

  /** What the loop of GetSectorForWrite keeps of that: after so many collections, room is found or more is still to be had. */
  ghost predicate Promising(
    g: Geometry, policy: GarbageCollectOnWrite, start: Descriptors, ds: Descriptors, size: nat, found: bool, collected: nat)
  {
    CertainRoom(g, policy, start, size) && !found ==>
      && AllSane(g, ds) && |ds| == g.sectorCount && Tidy(g, ds)
      && if AnyStale(g, start, []) then collected == 0 && ds == start
         else policy == AsManySectorsNeeded && FitsAnyhow(g, ds, size) && Wasteful(g, ds) + collected <= g.sectorCount
  }

  lemma PromisingBegins(g: Geometry, policy: GarbageCollectOnWrite, ds: Descriptors, size: nat, found: bool)
    requires AllSane(g, ds) && |ds| == g.sectorCount
    ensures Promising(g, policy, ds, ds, size, found, 0)
  {
    hide TotalValid, AnyStale;
  }

  lemma PromisingStep(
    g: Geometry, policy: GarbageCollectOnWrite, start: Descriptors, a: Descriptors, b: Descriptors, size: nat,
    found: bool, collected: nat)
    requires Promising(g, policy, start, a, size, false, collected) && !RoomAtOnce(g, a, [], size)
    requires Collected(g, a, b, []) && (Tidy(g, a) ==> Tidy(g, b)) && AllSane(g, b) && |b| == g.sectorCount
    requires found <==> RoomAtOnce(g, b, [], size)
    ensures Promising(g, policy, start, b, size, found, collected + 1)
  {
    hide TotalValid, Wasteful, RoomAtOnce, AnyStale, Collected, FitsAnyhow;
    if CertainRoom(g, policy, start, size) {
      if AnyStale(g, start, []) {
        StaleMakesRoom(g, a, b, size);
      } else {
        CollectionPacks(g, a, b, size);
      }
    }
  }

  /** So where it is promised it does not give up: neither the policy nor the bound on collections stops it. */
  lemma PromisingGoesOn(
    g: Geometry, policy: GarbageCollectOnWrite, start: Descriptors, ds: Descriptors, reserved: seq<Address>, size: nat,
    collected: nat)
    requires reserved == [] ==> Promising(g, policy, start, ds, size, false, collected)
    ensures reserved == [] && CertainRoom(g, policy, start, size) ==>
      && collected <= g.sectorCount && policy != Disabled && (policy == OneSector ==> collected == 0)
      && Tidy(g, ds) && AllSane(g, ds) && |ds| == g.sectorCount
  {
    hide TotalValid, AnyStale, FitsAnyhow;
  }

  /** The search for room, begun at `start`, has collected so many sectors, and found room or not. */
  ghost predicate Searching(
    g: Geometry, policy: GarbageCollectOnWrite, start: Moment, m: Moment, reserved: seq<Address>, size: nat,
    found: bool, collected: nat, goesOn: bool)
  {
    && Swept(g, reserved, start, m)
    && (found <==> RoomAtOnce(g, m.ds, reserved, size))
    && (if collected == 0 then m == start else !RoomAtOnce(g, start.ds, reserved, size))
    && (goesOn <==> policy == AsManySectorsNeeded || (policy == OneSector && collected == 0))
    && (policy == Disabled ==> collected == 0) && (policy == OneSector ==> collected <= 1)
    && (reserved == [] ==> Promising(g, policy, start.ds, m.ds, size, found, collected))
  }

  lemma SearchBegins(
    g: Geometry, policy: GarbageCollectOnWrite, start: Moment, reserved: seq<Address>, size: nat, found: bool, lastId: nat)
    requires HealthyAt(g, start, lastId) && (found <==> RoomAtOnce(g, start.ds, reserved, size))
    ensures Searching(g, policy, start, start, reserved, size, found, 0, policy != Disabled)
  {
    HealthyIsSane(g, start, lastId);
    SweptStart(g, reserved, start, lastId);
    PromisingBegins(g, policy, start.ds, size, found);
  }

  lemma SearchStep(
    g: Geometry, policy: GarbageCollectOnWrite, start: Moment, a: Moment, b: Moment, reserved: seq<Address>, size: nat,
    found: bool, collected: nat, lastId: nat)
    requires Searching(g, policy, start, a, reserved, size, false, collected, true)
    requires Swept(g, reserved, a, b) && Collected(g, a.ds, b.ds, reserved) && HealthyAt(g, b, lastId)
    requires found <==> RoomAtOnce(g, b.ds, reserved, size)
    ensures Searching(g, policy, start, b, reserved, size, found, collected + 1, policy == AsManySectorsNeeded)
    ensures Swept(g, reserved, start, b)
    ensures g.sectorCount + 2 < collected + 1 ==>
      && GaveUp(g, policy, b, reserved, size, collected + 1)
      && !(reserved == [] && CertainRoom(g, policy, start.ds, size))
  {
    HealthyIsSane(g, b, lastId);
    SweptTransitive(g, reserved, start, a, b);
    PromisingGoesOn(g, policy, start.ds, a.ds, reserved, size, collected);
    hide Promising, RoomAtOnce, Collected, Tidy, Quiet, HealthyAt, CertainRoom, Stuck;
    if reserved == [] {
      PromisingStep(g, policy, start.ds, a.ds, b.ds, size, found, collected);
    }
  }

  /** A collection that fails finds nothing to collect or cannot move what is there. Where room is promised it succeeds. */
  lemma SearchBreaksOff(
    g: Geometry, policy: GarbageCollectOnWrite, start: Moment, a: Moment, b: Moment, reserved: seq<Address>, size: nat,
    collected: nat)
    requires Searching(g, policy, start, a, reserved, size, false, collected, true) && Swept(g, reserved, a, b)
    requires Stuck(g, b, reserved) || (NothingToCollect(g, b.ds, reserved) && a == b)
    requires reserved == [] && Tidy(g, a.ds) ==> NothingToCollect(g, b.ds, reserved) && a == b
    ensures Swept(g, reserved, start, b) && GaveUp(g, policy, b, reserved, size, collected)
    ensures !RoomAtOnce(g, start.ds, reserved, size)
    ensures !(reserved == [] && CertainRoom(g, policy, start.ds, size))
  {
    SweptTransitive(g, reserved, start, a, b);
    PromisingGoesOn(g, policy, start.ds, a.ds, reserved, size, collected);
    hide Promising, CertainRoom, RoomAtOnce, Tidy, Swept, Stuck, NothingToCollect;
    if reserved == [] && CertainRoom(g, policy, start.ds, size) {
      AllEmptyIsRoom(g, b.ds, size);
    }
  }

  lemma SearchEnds(
    g: Geometry, policy: GarbageCollectOnWrite, start: Moment, m: Moment, reserved: seq<Address>, size: nat,
    found: bool, collected: nat, goesOn: bool)
    requires Searching(g, policy, start, m, reserved, size, found, collected, goesOn) && (found || !goesOn)
    ensures Swept(g, reserved, start, m)
    ensures !found ==>
      && GaveUp(g, policy, m, reserved, size, collected) && !RoomAtOnce(g, start.ds, reserved, size)
      && !(reserved == [] && CertainRoom(g, policy, start.ds, size))
    ensures RoomAtOnce(g, start.ds, reserved, size) ==> collected == 0 && m == start
    ensures policy == Disabled && !RoomAtOnce(g, start.ds, reserved, size) ==> !found
    ensures collected <= g.sectorCount + 3 ==> collected <= MostCollections(g, policy)
  {
    if !found {
      PromisingGoesOn(g, policy, start.ds, m.ds, reserved, size, collected);
    }
    hide Promising, CertainRoom, RoomAtOnce, Swept, Stuck;
  }

  lemma SearchCollects(
    g: Geometry, policy: GarbageCollectOnWrite, start: Moment, m: Moment, reserved: seq<Address>, size: nat, collected: nat)
    requires Searching(g, policy, start, m, reserved, size, false, collected, true)
    ensures !RoomAtOnce(g, start.ds, reserved, size)
    ensures policy != Disabled && (policy == OneSector ==> collected == 0)
    ensures collected <= g.sectorCount + 2 ==> collected + 1 <= MostCollections(g, policy)
  {
    hide RoomAtOnce, Swept;
  }

  /**
   No place for all copies of an entry of this size: for one of them the search gave up, with the places of those before it
   reserved, and after as many erasures of its own.
   */
  ghost predicate NoPlace(g: Geometry, policy: GarbageCollectOnWrite, m: Moment, size: nat, erasures: int) {
    exists reserved: seq<Address>, own: nat ::
      && |reserved| < g.redundancy && own <= erasures && (g.redundancy == 1 ==> reserved == [] && own == erasures)
      && GaveUp(g, policy, m, reserved, size, own)
  }

  lemma GivenUpFor(
    g: Geometry, policy: GarbageCollectOnWrite, m: Moment, reserved: seq<Address>, size: nat, own: nat, erasures: int)
    requires |reserved| < g.redundancy && own <= erasures && (reserved == [] ==> own == erasures)
    requires GaveUp(g, policy, m, reserved, size, own)
    ensures NoPlace(g, policy, m, size, erasures)
  {
  }
}
