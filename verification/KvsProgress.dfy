/** Why garbage collection does not get stuck when the store keeps one copy of each entry. */
module KvsProgress {
  import opened KvsEntry
  import opened KvsFlash
  import opened KvsContents
  import opened KvsSectors
  import opened KvsAccounting
  import opened KvsIndex
  import opened KvsSteps
  import opened KvsRecovery

  ghost predicate HasEmpty(g: Geometry, ds: Descriptors) {
    exists t :: 0 <= t < |ds| && ds[t].Empty(g)
  }

  /** A sector that takes `need` bytes in one go or bit by bit: empty, or in use with no stale byte. */
  ghost predicate Takes(g: Geometry, d: SectorDescriptor, need: nat)
    requires d.Sane(g)
  {
    d.Empty(g) || (d.Recoverable(g) == 0 && need <= d.Writable())
  }

  /** Some sector other than s takes all live bytes of s. */
  ghost predicate Room(g: Geometry, ds: Descriptors, s: nat)
    requires AllSane(g, ds) && s < |ds|
  {
    exists t :: 0 <= t < |ds| && t != s && Takes(g, ds[t], ds[s].validBytes)
  }

  lemma EmptyIsRoom(g: Geometry, ds: Descriptors, s: nat)
    requires AllSane(g, ds) && s < |ds| && HasEmpty(g, ds) && !ds[s].Empty(g)
    ensures Room(g, ds, s)
  {
    var t :| 0 <= t < |ds| && ds[t].Empty(g);
    assert Takes(g, ds[t], ds[s].validBytes);
  }

  /** What moving copy j of descriptor i to sector `to` makes of flash, descriptors and index. */
  ghost predicate Relocation(
    g: Geometry, flash: Flash, ds: Descriptors, index: Index, i: nat, j: nat, to: nat,
    flash': Flash, ds': Descriptors, index': Index)
  {
    && Relocatable(g, flash, ds, index, i, j, to)
    && to < |flash| && index[i].addresses[j].sector < |ds|
    && var e, b := EntryOf(flash, index[i]), NextWritable(g, ds, to);
    && flash' == Put(flash, b, e)
    && ds' == Relocated(ds, index[i].addresses[j].sector, to, Size(g, e))
    && index' == Readdressed(index, i, j, b)
  }

  /** The request RelocateEntry makes for an entry whose only copy is in s. */
  function MoveRequest(s: nat, offset: nat, size: nat): Request {
    Request(true, size, [Address(s, offset)])
  }

  lemma OnlySkips(s: nat, offset: nat, size: nat, t: nat)
    ensures InSector(t, MoveRequest(s, offset, size).skip) <==> t == s
  {
    assert MoveRequest(s, offset, size).skip[0].sector == s;
  }

  lemma RelocatedAt(ds: Descriptors, s: nat, to: nat, size: nat, t: nat)
    requires s < |ds| && to < |ds| && s != to && t < |ds|
    ensures Relocated(ds, s, to, size)[t] ==
      if t == to then Appended(ds[to], size) else if t == s then ds[s].RemoveValid(size) else ds[t]
  {
  }

  /** While there is room, the move of an entry out of s finds a sector, and there is room after it. */
  lemma MoveKeepsRoom(g: Geometry, ds: Descriptors, s: nat, offset: nat, size: nat, lastNew: nat, found: Option<nat>, lastNew': nat)
    requires AllSane(g, ds) && s < |ds| && lastNew < |ds| && Room(g, ds, s)
    requires 0 < size <= ds[s].validBytes
    requires Answer(g, ds, MoveRequest(s, offset, size), lastNew, found, lastNew')
    ensures found.Some? && found.value < |ds| && found.value != s && ds[found.value].HasSpace(size)
    ensures AllSane(g, Relocated(ds, s, found.value, size)) && Room(g, Relocated(ds, s, found.value, size), s)
  {
    var r := MoveRequest(s, offset, size);
    var t :| 0 <= t < |ds| && t != s && Takes(g, ds[t], ds[s].validBytes);
    OnlySkips(s, offset, size, t);
    if ds[t].Empty(g) {
      assert r.Second(g, ds, t);
    } else {
      assert r.First(g, ds, t);
    }
    var to := found.value;
    OnlySkips(s, offset, size, to);
    assert to != s && (r.First(g, ds, to) || r.Second(g, ds, to));
    var ds' := Relocated(ds, s, to, size);
    forall u | 0 <= u < |ds'|
      ensures ds'[u].Sane(g)
    {
      RelocatedAt(ds, s, to, size, u);
    }
    RelocatedAt(ds, s, to, size, s);
    RelocatedAt(ds, s, to, size, to);
    RelocatedAt(ds, s, to, size, t);
    if ds[to].Empty(g) || t == to {
      assert Takes(g, ds'[to], ds'[s].validBytes);
    } else {
      assert Takes(g, ds'[t], ds'[s].validBytes);
    }
  }

  /** An answer is a sector with room that is not to be skipped. */
  lemma AnswerFits(g: Geometry, ds: Descriptors, r: Request, lastNew: nat, found: Option<nat>, lastNew': nat)
    requires AllSane(g, ds) && lastNew < |ds| && r.size <= g.sectorSize
    requires Answer(g, ds, r, lastNew, found, lastNew') && found.Some?
    ensures found.value < |ds| && !InSector(found.value, r.skip) && ds[found.value].HasSpace(r.size)
  {
  }

  /** While appending, an empty sector is only taken if another one is left. */
  lemma AppendLeavesEmpty(g: Geometry, ds: Descriptors, r: Request, lastNew: nat, found: Option<nat>, lastNew': nat)
    requires AllSane(g, ds) && lastNew < |ds| && !r.collecting
    requires Answer(g, ds, r, lastNew, found, lastNew') && found.Some? && found.value < |ds|
    requires HasEmpty(g, ds)
    ensures exists t :: 0 <= t < |ds| && t != found.value && ds[t].Empty(g)
  {
    if ds[found.value].Empty(g) {
      var s, t :| 0 <= s < |ds| && 0 <= t < |ds| && s != t && r.Second(g, ds, s) && r.Second(g, ds, t);
      assert ds[if s == found.value then t else s].Empty(g);
    } else {
      var t :| 0 <= t < |ds| && ds[t].Empty(g);
      assert t != found.value;
    }
  }

  /** The state every operation of a store that keeps one copy of each entry leaves behind. */
  ghost predicate Tidy(g: Geometry, ds: Descriptors) {
    g.redundancy == 1 && HasEmpty(g, ds)
  }

  ghost predicate OnlyCopy(flash: Flash, a: Address) {
    Has(flash, a) && forall c :: Has(flash, c) && At(flash, c) == At(flash, a) ==> c == a
  }

  /** The invariant while sector s is drained. */
  ghost predicate Draining(g: Geometry, ds: Descriptors, s: nat) {
    g.redundancy == 1 && AllSane(g, ds) && s < |ds| && !ds[s].Empty(g) && Room(g, ds, s)
  }

  /** While s is drained and the first n descriptors are done, every other entry is on flash only once. */
  ghost predicate DrainingSingly(flash: Flash, index: Index, s: nat, n: nat) {
    && SingleBut(flash, s)
    && forall k :: n <= k < |index| && 0 < |index[k].addresses| && index[k].addresses[0].sector == s ==>
        OnlyCopy(flash, index[k].addresses[0])
  }

  lemma DrainBegins(g: Geometry, flash: Flash, ds: Descriptors, index: Index, s: nat)
    requires Consistent(g, flash, ds, index) && Tidy(g, ds) && s < |ds| && !ds[s].Empty(g)
    ensures Draining(g, ds, s)
    ensures Single(flash) ==> DrainingSingly(flash, index, s, 0)
  {
    AccountsAreSane(g, flash, ds, Live(index));
    EmptyIsRoom(g, ds, s);
    LiveHas(g, flash, index);
    if Single(flash) {
      SingleIsSingleBut(flash, s);
      forall k | 0 <= k < |index| && 0 < |index[k].addresses|
        ensures OnlyCopy(flash, index[k].addresses[0])
      {
        assert index[k].addresses[0] in Live(index);
      }
    }
  }

  /** A descriptor in s is moved: the search succeeds, and the next one can be moved too. */
  lemma DrainStep(g: Geometry, flash: Flash, ds: Descriptors, index: Index, s: nat, i: nat, lastNew: nat, found: Option<nat>, lastNew': nat)
    requires Consistent(g, flash, ds, index) && Draining(g, ds, s)
    requires i < |index| && Sound(g, flash, index[i]) && index[i].addresses == [Address(s, index[i].addresses[0].offset)]
    requires lastNew < |ds|
    requires Answer(g, ds, MoveRequest(s, index[i].addresses[0].offset, Size(g, EntryOf(flash, index[i]))), lastNew, found, lastNew')
    ensures found.Some?
    ensures forall flash', ds', index' :: Relocation(g, flash, ds, index, i, 0, found.value, flash', ds', index') ==>
      Draining(g, ds', s)
  {
    var e, a := EntryOf(flash, index[i]), index[i].addresses[0];
    assert a in Live(index);
    AccountsRemove(g, flash, ds, Live(index), a);
    MoveKeepsRoom(g, ds, s, a.offset, Size(g, e), lastNew, found, lastNew');
  }

  lemma SingleStep(
    g: Geometry, flash: Flash, ds: Descriptors, index: Index, s: nat, i: nat, to: nat, flash': Flash, ds': Descriptors, index': Index)
    requires Consistent(g, flash, ds, index) && DrainingSingly(flash, index, s, i)
    requires i < |index| && |index[i].addresses| == 1 && index[i].addresses[0].sector == s && to != s
    requires Relocation(g, flash, ds, index, i, 0, to, flash', ds', index')
    ensures DrainingSingly(flash', index', s, i + 1)
  {
    var e, a, b := EntryOf(flash, index[i]), index[i].addresses[0], NextWritable(g, ds, to);
    assert a in Live(index);
    RoomAtNextWritable(g, flash, ds, Live(index), to, e);
    PutHas(flash, b, e);
    assert OnlyCopy(flash, a);
    SingleButAfterMove(flash, s, a, b);
    forall k | i + 1 <= k < |index| && 0 < |index[k].addresses| && index[k].addresses[0].sector == s
      ensures OnlyCopy(flash', index[k].addresses[0])
    {
      AddressesApart(g, flash, index, i, 0, k, 0);
      assert OnlyCopy(flash, index[k].addresses[0]);
    }
  }

  lemma SingleSkip(flash: Flash, index: Index, s: nat, i: nat)
    requires DrainingSingly(flash, index, s, i)
    ensures DrainingSingly(flash, index, s, i + 1)
  {
  }

  lemma DrainEnds(g: Geometry, ds: Descriptors, s: nat)
    requires Draining(g, ds, s)
    ensures Tidy(g, ds[s := SectorDescriptor(g.sectorSize, 0)])
  {
    assert g.sectorSize != CORRUPT_SECTOR;
    assert ds[s := SectorDescriptor(g.sectorSize, 0)][s].Empty(g);
  }
}
