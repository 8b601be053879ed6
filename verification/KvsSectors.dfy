/** Sector bookkeeping and the choice of sectors: pw_kvs/sectors.cc and its header. */
module KvsSectors {
  import opened KvsEntry
  import opened KvsFlash

  datatype Option<+T> = None | Some(value: T)

  const CORRUPT_SECTOR := 65535

  /** What the store remembers of one sector: 16-bit counts in the source. */
  datatype SectorDescriptor = SectorDescriptor(tailFree: nat, validBytes: nat) {
    function Writable(): nat {
      if tailFree == CORRUPT_SECTOR then 0 else tailFree
    }

    function AddValid(bytes: nat): SectorDescriptor {
      this.(validBytes := validBytes + bytes)
    }

    function RemoveValid(bytes: nat): SectorDescriptor {
      this.(validBytes := if bytes > validBytes then 0 else validBytes - bytes)
    }

    function RemoveWritable(bytes: nat): SectorDescriptor {
      this.(tailFree := if bytes > Writable() then 0 else tailFree - bytes)
    }

    function Corrupted(): SectorDescriptor {
      this.(tailFree := CORRUPT_SECTOR)
    }

    predicate HasSpace(size: nat) {
      size <= Writable()
    }

    predicate Empty(g: Geometry) {
      Writable() == g.sectorSize
    }

    // Valid and writable bytes never overlap, so that the subtraction below does not wrap.
    predicate Sane(g: Geometry) {
      validBytes + Writable() <= g.sectorSize
    }

    function Recoverable(g: Geometry): nat
      requires Sane(g)
    {
      g.sectorSize - validBytes - Writable()
    }
  }

  type Descriptors = seq<SectorDescriptor>

  ghost predicate AllSane(g: Geometry, ds: Descriptors) {
    forall s :: 0 <= s < |ds| ==> ds[s].Sane(g)
  }

  predicate InSector(s: nat, addresses: seq<Address>) {
    exists i :: 0 <= i < |addresses| && addresses[i].sector == s
  }

  /** The sector visited at step j of a scan that starts behind the last newly opened sector. */
  function Rotation(count: nat, lastNew: nat, j: nat): (s: nat)
    requires j < count && lastNew < count
    ensures s < count
  {
    if lastNew + 1 + j < count then lastNew + 1 + j else lastNew + 1 + j - count
  }

  lemma RotationVisitsAll(count: nat, lastNew: nat, s: nat) returns (j: nat)
    requires lastNew < count && s < count
    ensures j < count && Rotation(count, lastNew, j) == s
  {
    j := if lastNew < s then s - lastNew - 1 else s + count - lastNew - 1;
  }

  /** A request for room: how much, where not, and whether it serves garbage collection. */
  datatype Request = Request(collecting: bool, size: nat, skip: seq<Address>) {
    predicate Partial(g: Geometry, ds: Descriptors, s: nat)
      requires s < |ds|
    {
      !InSector(s, skip) && !ds[s].Empty(g) && ds[s].HasSpace(size)
    }

    // Tier 1: a sector in use with room; while collecting, only one with nothing to reclaim.
    ghost predicate First(g: Geometry, ds: Descriptors, s: nat)
      requires s < |ds| && AllSane(g, ds)
    {
      Partial(g, ds, s) && (collecting ==> ds[s].Recoverable(g) == 0)
    }

    // Tier 2: an empty sector; while appending, only if another empty one is left.
    ghost predicate Second(g: Geometry, ds: Descriptors, s: nat)
      requires s < |ds|
    {
      !InSector(s, skip) && ds[s].Empty(g)
    }
  }

  ghost predicate AnyFirst(g: Geometry, ds: Descriptors, r: Request)
    requires AllSane(g, ds)
  {
    exists s :: 0 <= s < |ds| && r.First(g, ds, s)
  }

  ghost predicate AnySecond(g: Geometry, ds: Descriptors, r: Request) {
    exists s :: 0 <= s < |ds| && r.Second(g, ds, s)
  }

  ghost predicate TwoSeconds(g: Geometry, ds: Descriptors, r: Request) {
    exists s, t :: 0 <= s < |ds| && 0 <= t < |ds| && s != t && r.Second(g, ds, s) && r.Second(g, ds, t)
  }

  ghost predicate AnyPartial(g: Geometry, ds: Descriptors, r: Request) {
    exists s :: 0 <= s < |ds| && r.Partial(g, ds, s)
  }

  /** No sector visited before step j satisfies tier 1. */
  ghost predicate NoFirstBefore(g: Geometry, ds: Descriptors, r: Request, lastNew: nat, j: nat)
    requires AllSane(g, ds) && lastNew < |ds| && j <= |ds|
  {
    forall i :: 0 <= i < j ==> !r.First(g, ds, Rotation(|ds|, lastNew, i))
  }

  ghost predicate NoSecondBefore(g: Geometry, ds: Descriptors, r: Request, lastNew: nat, j: nat)
    requires lastNew < |ds| && j <= |ds|
  {
    forall i :: 0 <= i < j ==> !r.Second(g, ds, Rotation(|ds|, lastNew, i))
  }

  /** Among the sectors visited before step j, `best` has the most recoverable bytes of those with room. */
  ghost predicate BestBefore(g: Geometry, ds: Descriptors, r: Request, lastNew: nat, j: nat, best: Option<nat>)
    requires AllSane(g, ds) && lastNew < |ds| && j <= |ds|
  {
    && (best.Some? ==> best.value < |ds| && r.Partial(g, ds, best.value))
    && forall i :: 0 <= i < j && r.Partial(g, ds, Rotation(|ds|, lastNew, i)) ==>
        best.Some? && ds[Rotation(|ds|, lastNew, i)].Recoverable(g) <= ds[best.value].Recoverable(g)
  }

  ghost predicate Best(g: Geometry, ds: Descriptors, r: Request, best: nat)
    requires AllSane(g, ds)
  {
    && best < |ds| && r.Partial(g, ds, best)
    && forall s :: 0 <= s < |ds| && r.Partial(g, ds, s) ==> ds[s].Recoverable(g) <= ds[best].Recoverable(g)
  }

  /** The three-tier answer to a request, with the last newly opened sector before and after. */
  ghost predicate Answer(g: Geometry, ds: Descriptors, r: Request, lastNew: nat, found: Option<nat>, lastNew': nat)
    requires AllSane(g, ds) && lastNew < |ds|
  {
    if AnyFirst(g, ds, r) then
      lastNew' == lastNew && FirstInRotation(g, ds, r, lastNew, found)
    else if AnySecond(g, ds, r) && (r.collecting || TwoSeconds(g, ds, r)) then
      found == Some(lastNew') && SecondInRotation(g, ds, r, lastNew, lastNew')
    else if AnyPartial(g, ds, r) then
      lastNew' == lastNew && found.Some? && Best(g, ds, r, found.value)
    else
      lastNew' == lastNew && found == None
  }

  ghost predicate FirstInRotation(g: Geometry, ds: Descriptors, r: Request, lastNew: nat, found: Option<nat>)
    requires AllSane(g, ds) && lastNew < |ds|
  {
    exists j ::
      && 0 <= j < |ds| && NoFirstBefore(g, ds, r, lastNew, j)
      && found == Some(Rotation(|ds|, lastNew, j)) && r.First(g, ds, found.value)
  }

  ghost predicate SecondInRotation(g: Geometry, ds: Descriptors, r: Request, lastNew: nat, found: nat)
    requires lastNew < |ds|
  {
    exists j ::
      && 0 <= j < |ds| && NoSecondBefore(g, ds, r, lastNew, j)
      && found == Rotation(|ds|, lastNew, j) && r.Second(g, ds, found)
  }

  lemma FullScan(g: Geometry, ds: Descriptors, r: Request, lastNew: nat, best: Option<nat>)
    requires AllSane(g, ds) && lastNew < |ds|
    ensures NoFirstBefore(g, ds, r, lastNew, |ds|) ==> !AnyFirst(g, ds, r)
    ensures NoSecondBefore(g, ds, r, lastNew, |ds|) ==> !AnySecond(g, ds, r)
    ensures BestBefore(g, ds, r, lastNew, |ds|, best) ==>
      if best.Some? then Best(g, ds, r, best.value) else !AnyPartial(g, ds, r)
  {
    forall s | 0 <= s < |ds|
      ensures r.First(g, ds, s) ==> !NoFirstBefore(g, ds, r, lastNew, |ds|)
      ensures r.Second(g, ds, s) ==> !NoSecondBefore(g, ds, r, lastNew, |ds|)
      ensures r.Partial(g, ds, s) && BestBefore(g, ds, r, lastNew, |ds|, best) ==>
        best.Some? && ds[s].Recoverable(g) <= ds[best.value].Recoverable(g)
    {
      var j := RotationVisitsAll(|ds|, lastNew, s);
    }
  }

  /** What the scan knows of empty sectors before step j: the first one, and whether there is another. */
  ghost predicate EmptiesBefore(g: Geometry, ds: Descriptors, r: Request, lastNew: nat, j: nat, first: Option<nat>, two: bool)
    requires lastNew < |ds| && j <= |ds|
  {
    match first
    case None =>
      NoSecondBefore(g, ds, r, lastNew, j) && two == r.collecting
    case Some(k) =>
      && k < j && NoSecondBefore(g, ds, r, lastNew, k)
      && r.Second(g, ds, Rotation(|ds|, lastNew, k))
      && (two ==> r.collecting || TwoSeconds(g, ds, r))
      && (!two ==> !r.collecting
                   && forall i :: 0 <= i < j && r.Second(g, ds, Rotation(|ds|, lastNew, i)) ==> i == k)
  }

  lemma EmptiesStep(g: Geometry, ds: Descriptors, r: Request, lastNew: nat, j: nat, first: Option<nat>, two: bool)
    requires lastNew < |ds| && j < |ds|
    requires EmptiesBefore(g, ds, r, lastNew, j, first, two)
    ensures if !r.Second(g, ds, Rotation(|ds|, lastNew, j)) then EmptiesBefore(g, ds, r, lastNew, j + 1, first, two)
            else if first == None then EmptiesBefore(g, ds, r, lastNew, j + 1, Some(j), two)
            else EmptiesBefore(g, ds, r, lastNew, j + 1, first, true)
  {
    if first.Some? && r.Second(g, ds, Rotation(|ds|, lastNew, j)) {
      assert Rotation(|ds|, lastNew, first.value) != Rotation(|ds|, lastNew, j);
    }
  }

  lemma BestStep(g: Geometry, ds: Descriptors, r: Request, lastNew: nat, j: nat, best: Option<nat>)
    requires AllSane(g, ds) && lastNew < |ds| && j < |ds|
    requires BestBefore(g, ds, r, lastNew, j, best)
    ensures var s := Rotation(|ds|, lastNew, j);
            if r.Partial(g, ds, s) && (best == None || ds[best.value].Recoverable(g) < ds[s].Recoverable(g))
            then BestBefore(g, ds, r, lastNew, j + 1, Some(s))
            else BestBefore(g, ds, r, lastNew, j + 1, best)
  {
  }

  lemma NoFirstStep(g: Geometry, ds: Descriptors, r: Request, lastNew: nat, j: nat)
    requires AllSane(g, ds) && lastNew < |ds| && j < |ds|
    requires NoFirstBefore(g, ds, r, lastNew, j)
    ensures NoFirstBefore(g, ds, r, lastNew, j + 1) <==> !r.First(g, ds, Rotation(|ds|, lastNew, j))
  {
  }

  lemma ScanBegins(g: Geometry, ds: Descriptors, r: Request, lastNew: nat)
    requires AllSane(g, ds) && lastNew < |ds|
    ensures ScannedTo(g, ds, r, lastNew, 0, None, r.collecting, None)
  {
  }

  /** What the scan knows before step j. */
  ghost predicate ScannedTo(
    g: Geometry, ds: Descriptors, r: Request, lastNew: nat, j: nat, first: Option<nat>, two: bool, best: Option<nat>)
    requires AllSane(g, ds) && lastNew < |ds| && j <= |ds|
  {
    && NoFirstBefore(g, ds, r, lastNew, j)
    && EmptiesBefore(g, ds, r, lastNew, j, first, two)
    && BestBefore(g, ds, r, lastNew, j, best)
  }

  /** One sector more: it is not to be used, or has room, or is empty, or is of no use. */
  lemma ScannedOneMore(
    g: Geometry, ds: Descriptors, r: Request, lastNew: nat, j: nat, first: Option<nat>, two: bool, best: Option<nat>)
    requires AllSane(g, ds) && lastNew < |ds| && j < |ds|
    requires ScannedTo(g, ds, r, lastNew, j, first, two, best) && (best.Some? ==> best.value < |ds|)
    ensures var s := Rotation(|ds|, lastNew, j);
      if InSector(s, r.skip) || !(ds[s].Empty(g) || ds[s].HasSpace(r.size)) then
        ScannedTo(g, ds, r, lastNew, j + 1, first, two, best)
      else if ds[s].Empty(g) then
        if first == None then ScannedTo(g, ds, r, lastNew, j + 1, Some(j), two, best)
        else ScannedTo(g, ds, r, lastNew, j + 1, first, true, best)
      else if !r.collecting || ds[s].Recoverable(g) == 0 then
        Answer(g, ds, r, lastNew, Some(s), lastNew)
      else if best == None || ds[best.value].Recoverable(g) < ds[s].Recoverable(g) then
        ScannedTo(g, ds, r, lastNew, j + 1, first, two, Some(s))
      else
        ScannedTo(g, ds, r, lastNew, j + 1, first, two, best)
  {
    hide EmptiesBefore, BestBefore, NoFirstBefore, Answer, InSector, AllSane, Rotation;
    NoFirstStep(g, ds, r, lastNew, j);
    EmptiesStep(g, ds, r, lastNew, j, first, two);
    BestStep(g, ds, r, lastNew, j, best);
    if r.First(g, ds, Rotation(|ds|, lastNew, j)) {
      FirstAnswers(g, ds, r, lastNew, j);
    }
  }

  lemma NextInRotation(count: nat, lastNew: nat, j: nat)
    requires j < count && lastNew < count
    ensures var before := if j == 0 then lastNew else Rotation(count, lastNew, j - 1);
      Rotation(count, lastNew, j) == if before + 1 == count then 0 else before + 1
  {
  }

  lemma EmptiesDone(g: Geometry, ds: Descriptors, r: Request, lastNew: nat, first: Option<nat>, two: bool)
    requires lastNew < |ds|
    requires EmptiesBefore(g, ds, r, lastNew, |ds|, first, two)
    ensures first.Some? && two ==> AnySecond(g, ds, r) && (r.collecting || TwoSeconds(g, ds, r))
    ensures first.Some? && two ==> SecondInRotation(g, ds, r, lastNew, Rotation(|ds|, lastNew, first.value))
    ensures first == None || !two ==> !(AnySecond(g, ds, r) && (r.collecting || TwoSeconds(g, ds, r)))
  {
    forall s | 0 <= s < |ds| && r.Second(g, ds, s)
      ensures first.Some? && (!two ==> s == Rotation(|ds|, lastNew, first.value))
    {
      var j := RotationVisitsAll(|ds|, lastNew, s);
    }
  }

  /** The three passes of the search for a sector to garbage collect. */
  datatype Pass = Stale | MostRecoverable | MostValid

  /** How much a pass wants a sector; 0 is not at all. */
  function Weight(g: Geometry, ds: Descriptors, reserved: seq<Address>, pass: Pass, s: nat): nat
    requires AllSane(g, ds) && s < |ds|
  {
    if InSector(s, reserved) then 0 else
    match pass
    case Stale => if ds[s].validBytes == 0 && 0 < ds[s].Recoverable(g) then 1 else 0
    case MostRecoverable => ds[s].Recoverable(g)
    case MostValid => ds[s].validBytes
  }

  /** The first heaviest sector among those visited before step j, if any has weight. */
  ghost predicate Heaviest(
    g: Geometry, ds: Descriptors, reserved: seq<Address>, pass: Pass, lastNew: nat, j: nat, found: Option<nat>)
    requires AllSane(g, ds) && lastNew < |ds| && j <= |ds|
  {
    match found
    case None =>
      forall i :: 0 <= i < j ==> Weight(g, ds, reserved, pass, Rotation(|ds|, lastNew, i)) == 0
    case Some(v) =>
      v < |ds| && exists k :: HeaviestAt(g, ds, reserved, pass, lastNew, j, v, k)
  }

  ghost predicate HeaviestAt(
    g: Geometry, ds: Descriptors, reserved: seq<Address>, pass: Pass, lastNew: nat, j: nat, v: nat, k: nat)
    requires AllSane(g, ds) && lastNew < |ds| && j <= |ds| && v < |ds|
  {
    var w := Weight(g, ds, reserved, pass, v);
    && 0 <= k < j && v == Rotation(|ds|, lastNew, k) && 0 < w
    && (forall i :: 0 <= i < k ==> Weight(g, ds, reserved, pass, Rotation(|ds|, lastNew, i)) < w)
    && (forall i :: 0 <= i < j ==> Weight(g, ds, reserved, pass, Rotation(|ds|, lastNew, i)) <= w)
  }

  lemma HeaviestStep(
    g: Geometry, ds: Descriptors, reserved: seq<Address>, pass: Pass, lastNew: nat, j: nat, found: Option<nat>)
    requires AllSane(g, ds) && lastNew < |ds| && j < |ds|
    requires Heaviest(g, ds, reserved, pass, lastNew, j, found)
    ensures var s := Rotation(|ds|, lastNew, j);
            var w := if found.Some? then Weight(g, ds, reserved, pass, found.value) else 0;
            Heaviest(g, ds, reserved, pass, lastNew, j + 1,
                     if w < Weight(g, ds, reserved, pass, s) then Some(s) else found)
  {
    hide Weight, Rotation, AllSane;
    var s := Rotation(|ds|, lastNew, j);
    match found
    case None =>
      if 0 < Weight(g, ds, reserved, pass, s) {
        assert HeaviestAt(g, ds, reserved, pass, lastNew, j + 1, s, j);
      }
    case Some(v) =>
      var k :| HeaviestAt(g, ds, reserved, pass, lastNew, j, v, k);
      if Weight(g, ds, reserved, pass, v) < Weight(g, ds, reserved, pass, s) {
        assert HeaviestAt(g, ds, reserved, pass, lastNew, j + 1, s, j);
      } else {
        assert HeaviestAt(g, ds, reserved, pass, lastNew, j + 1, v, k);
      }
  }

  /** A stale sector found early stays the answer of its pass: later ones weigh no more. */
  lemma StaleIsFinal(g: Geometry, ds: Descriptors, reserved: seq<Address>, lastNew: nat, j: nat, v: nat)
    requires AllSane(g, ds) && lastNew < |ds| && j <= |ds| && v < |ds|
    requires Heaviest(g, ds, reserved, Stale, lastNew, j, Some(v))
    ensures Heaviest(g, ds, reserved, Stale, lastNew, |ds|, Some(v))
  {
    var k :| HeaviestAt(g, ds, reserved, Stale, lastNew, j, v, k);
    assert HeaviestAt(g, ds, reserved, Stale, lastNew, |ds|, v, k);
  }

  lemma NoneHasWeight(g: Geometry, ds: Descriptors, reserved: seq<Address>, pass: Pass, lastNew: nat)
    requires AllSane(g, ds) && lastNew < |ds|
    requires Heaviest(g, ds, reserved, pass, lastNew, |ds|, None)
    ensures forall s :: 0 <= s < |ds| ==> Weight(g, ds, reserved, pass, s) == 0
  {
    forall s | 0 <= s < |ds|
      ensures Weight(g, ds, reserved, pass, s) == 0
    {
      var j := RotationVisitsAll(|ds|, lastNew, s);
    }
  }

  /** The sector to garbage collect: from the first pass that wants any. */
  ghost predicate Victim(g: Geometry, ds: Descriptors, reserved: seq<Address>, lastNew: nat, found: Option<nat>)
    requires AllSane(g, ds) && lastNew < |ds|
  {
    if !Heaviest(g, ds, reserved, Stale, lastNew, |ds|, None) then
      Heaviest(g, ds, reserved, Stale, lastNew, |ds|, found)
    else if !Heaviest(g, ds, reserved, MostRecoverable, lastNew, |ds|, None) then
      Heaviest(g, ds, reserved, MostRecoverable, lastNew, |ds|, found)
    else
      Heaviest(g, ds, reserved, MostValid, lastNew, |ds|, found)
  }

  /** The victim is never reserved nor empty, and there is none only if all other sectors are empty. */
  lemma VictimIsWorthwhile(g: Geometry, ds: Descriptors, reserved: seq<Address>, lastNew: nat, found: Option<nat>)
    requires AllSane(g, ds) && lastNew < |ds|
    requires Victim(g, ds, reserved, lastNew, found)
    ensures found.Some? ==> found.value < |ds| && !InSector(found.value, reserved) && !ds[found.value].Empty(g)
    ensures found == None ==> forall s :: 0 <= s < |ds| && !InSector(s, reserved) ==> ds[s].Empty(g)
  {
    match found
    case Some(v) =>
    case None =>
      NoneHasWeight(g, ds, reserved, MostRecoverable, lastNew);
      NoneHasWeight(g, ds, reserved, MostValid, lastNew);
      forall s | 0 <= s < |ds| && !InSector(s, reserved)
        ensures ds[s].Empty(g)
      {
        assert Weight(g, ds, reserved, MostRecoverable, s) == 0 == Weight(g, ds, reserved, MostValid, s);
      }
  }

  lemma FirstAnswers(g: Geometry, ds: Descriptors, r: Request, lastNew: nat, j: nat)
    requires AllSane(g, ds) && lastNew < |ds| && j < |ds|
    requires NoFirstBefore(g, ds, r, lastNew, j) && r.First(g, ds, Rotation(|ds|, lastNew, j))
    ensures Answer(g, ds, r, lastNew, Some(Rotation(|ds|, lastNew, j)), lastNew)
  {
    assert FirstInRotation(g, ds, r, lastNew, Some(Rotation(|ds|, lastNew, j)));
  }

  lemma FullScanAnswers(
    g: Geometry, ds: Descriptors, r: Request, lastNew: nat, first: Option<nat>, two: bool, best: Option<nat>)
    requires AllSane(g, ds) && lastNew < |ds|
    requires ScannedTo(g, ds, r, lastNew, |ds|, first, two, best) && (first.Some? ==> first.value < |ds|)
    ensures if first.Some? && two
            then var s := Rotation(|ds|, lastNew, first.value); Answer(g, ds, r, lastNew, Some(s), s)
            else Answer(g, ds, r, lastNew, best, lastNew)
  {
    FullScan(g, ds, r, lastNew, best);
    EmptiesDone(g, ds, r, lastNew, first, two);
  }

  class Sectors {
    const g: Geometry
    var descriptors: Descriptors
    var lastNew: nat

    ghost predicate Valid()
      reads this
    {
      && |descriptors| == g.sectorCount
      && lastNew < g.sectorCount
      && AllSane(g, descriptors)
    }

    constructor (g: Geometry)
      ensures Valid() && this.g == g && lastNew == 0
      ensures descriptors == seq(g.sectorCount, _ => SectorDescriptor(g.sectorSize, 0))
    {
      this.g := g;
      descriptors := seq(g.sectorCount, _ => SectorDescriptor(g.sectorSize, 0));
      lastNew := 0;
    }

    method Find(r: Request) returns (found: Option<nat>)
      requires Valid()
      modifies this`lastNew
      ensures Valid()
      ensures Answer(g, descriptors, r, old(lastNew), found, lastNew)
    {
      hide ScannedTo, Answer, InSector, AllSane, Rotation;
      var firstEmpty: Option<nat> := None;
      var atLeastTwoEmpty := r.collecting;
      var fallback: Option<nat> := None;
      var sector := lastNew;
      ghost var first: Option<nat> := None;
      ScanBegins(g, descriptors, r, lastNew);
      for j := 0 to |descriptors|
        invariant lastNew == old(lastNew) && sector < |descriptors|
        invariant first.Some? ==> first.value < j
        invariant fallback.Some? ==> fallback.value < |descriptors|
        invariant sector == if j == 0 then lastNew else Rotation(|descriptors|, lastNew, j - 1)
        invariant firstEmpty == if first.Some? then Some(Rotation(|descriptors|, lastNew, first.value)) else None
        invariant ScannedTo(g, descriptors, r, lastNew, j, first, atLeastTwoEmpty, fallback)
      {
        NextInRotation(|descriptors|, lastNew, j);
        sector := sector + 1;
        if sector == |descriptors| {
          sector := 0;
        }
        ScannedOneMore(g, descriptors, r, lastNew, j, first, atLeastTwoEmpty, fallback);
        if InSector(sector, r.skip) {
          continue;
        }
        if !descriptors[sector].Empty(g) && descriptors[sector].HasSpace(r.size) {
          if !r.collecting || descriptors[sector].Recoverable(g) == 0 {
            return Some(sector);
          } else if fallback == None || descriptors[fallback.value].Recoverable(g) < descriptors[sector].Recoverable(g) {
            fallback := Some(sector);
          }
        }
        if descriptors[sector].Empty(g) {
          if firstEmpty == None {
            firstEmpty, first := Some(sector), Some(j);
          } else {
            atLeastTwoEmpty := true;
          }
        }
      }
      FullScanAnswers(g, descriptors, r, lastNew, first, atLeastTwoEmpty, fallback);
      if firstEmpty.Some? && atLeastTwoEmpty {
        lastNew := firstEmpty.value;
        return firstEmpty;
      }
      return fallback;
    }

    method FindSectorToGarbageCollect(reserved: seq<Address>) returns (candidate: Option<nat>)
      requires Valid()
      ensures Victim(g, descriptors, reserved, lastNew, candidate)
    {
      candidate := None;
      var candidateBytes := 0;
      for i := 0 to |descriptors|
        invariant candidate == None && Heaviest(g, descriptors, reserved, Stale, lastNew, i, None)
      {
        HeaviestStep(g, descriptors, reserved, Stale, lastNew, i, candidate);
        var s := Rotation(|descriptors|, lastNew, i);
        if descriptors[s].validBytes == 0 && 0 < descriptors[s].Recoverable(g) && !InSector(s, reserved) {
          StaleIsFinal(g, descriptors, reserved, lastNew, i + 1, s);
          return Some(s);
        }
      }
      for i := 0 to |descriptors|
        invariant Heaviest(g, descriptors, reserved, MostRecoverable, lastNew, i, candidate)
        invariant candidateBytes ==
          if candidate.Some? then Weight(g, descriptors, reserved, MostRecoverable, candidate.value) else 0
      {
        HeaviestStep(g, descriptors, reserved, MostRecoverable, lastNew, i, candidate);
        var s := Rotation(|descriptors|, lastNew, i);
        if candidateBytes < descriptors[s].Recoverable(g) && !InSector(s, reserved) {
          candidate, candidateBytes := Some(s), descriptors[s].Recoverable(g);
        }
      }
      if candidate == None {
        for i := 0 to |descriptors|
          invariant Heaviest(g, descriptors, reserved, MostValid, lastNew, i, candidate)
          invariant candidateBytes ==
            if candidate.Some? then Weight(g, descriptors, reserved, MostValid, candidate.value) else 0
        {
          HeaviestStep(g, descriptors, reserved, MostValid, lastNew, i, candidate);
          var s := Rotation(|descriptors|, lastNew, i);
          if candidateBytes < descriptors[s].validBytes && !InSector(s, reserved) {
            candidate, candidateBytes := Some(s), descriptors[s].validBytes;
          }
        }
      }
    }
  }
}
