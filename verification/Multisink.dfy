/** Drop accounting on top of the ring buffer, pw_multisink/multisink.cc. */
module Multisink {
  import opened Varint
  import opened RingLayout
  import opened RingBuffer
  import opened MultisinkHistory

  class Drain {
    const reader: Reader
    var lastHandledSequenceId: Uint32
    var lastHandledIngressDropCount: Uint32
    // How many ids it has handled, and how far it has been told of ingress drops.
    ghost var next: nat
    ghost var seen: nat
    ghost var carried: nat

    constructor ()
      ensures reader.ring == null && fresh(reader)
      ensures lastHandledIngressDropCount == 0 && next == seen == carried == 0
    {
      reader := new Reader();
      lastHandledSequenceId, lastHandledIngressDropCount := 0, 0;
      next, seen, carried := 0, 0, 0;
    }

    ghost function Standing(): MultisinkHistory.Standing
      reads this
    {
      MultisinkHistory.Standing(lastHandledSequenceId, lastHandledIngressDropCount, next, seen, carried)
    }
  }

  class MultiSink {
    const ring: PrefixedEntryRingBuffer
    const oldestEntryDrain: Drain
    var sequenceId: Uint32
    var totalIngressDrops: Uint32
    // What became of each id given out.
    ghost var fates: Fates

    ghost predicate Valid()
      reads this, ring, ring.buffer, ring.readers
    {
      ring.Valid() && ring.preambles && Recorded(fates, ring.log, sequenceId, totalIngressDrops)
    }

    /** The id of the next entry of a reader, or that of the next one to come. */
    ghost function Front(reader: Reader): (front: nat)
      reads this, ring, reader
    {
      FrontOf(fates, reader.entryCount)
    }

    /** The drain stands somewhere among the ids, not behind its next entry. */
    ghost predicate Placed(drain: Drain)
      reads this, ring, drain, drain.reader
    {
      Stands(fates, Front(drain.reader), drain.Standing())
    }

    /** The drain has nothing to read and knows of every id given out. */
    ghost predicate CaughtUp(drain: Drain)
      reads this, drain, drain.reader
    {
      drain.reader.entryCount == 0 && drain.lastHandledSequenceId == Minus(sequenceId, 1)
    }

    constructor (buffer: array<Byte>)
      requires MAX_VARINT32_SIZE <= buffer.Length
      ensures Valid() && fresh(ring) && ring.buffer == buffer && fresh(oldestEntryDrain) && fresh(oldestEntryDrain.reader)
      ensures ring.readers == [oldestEntryDrain.reader] && CaughtUp(oldestEntryDrain)
      ensures fates == [] && Placed(oldestEntryDrain)
      ensures oldestEntryDrain.next == oldestEntryDrain.seen == oldestEntryDrain.carried == 0
    {
      ring := new PrefixedEntryRingBuffer(buffer, true);
      oldestEntryDrain := new Drain();
      sequenceId, totalIngressDrops := 0, 0;
      fates := [];
      new;
      var status := ring.AttachReader(oldestEntryDrain.reader);
      oldestEntryDrain.lastHandledSequenceId := Minus(sequenceId, 1);
    }

    /** A new drain begins where the oldest entry is, and answers for everything since. */
    method AttachDrain(drain: Drain)
      requires Valid() && drain.reader.ring == null && drain != oldestEntryDrain && ring.readers != []
      modifies ring`readers, drain, drain.reader
      ensures Valid() && ring.readers == old(ring.readers) + [drain.reader]
      ensures drain.lastHandledSequenceId == oldestEntryDrain.lastHandledSequenceId
      ensures forall r :: r in old(ring.readers) ==> old(r.entryCount) <= drain.reader.entryCount
      ensures old(Placed(oldestEntryDrain)) && oldestEntryDrain.next == 0 ==> Placed(drain)
      ensures drain.next == oldestEntryDrain.next && drain.seen == drain.carried == 0
    {
      var status := ring.AttachReader(drain.reader);
      drain.lastHandledSequenceId := oldestEntryDrain.lastHandledSequenceId;
      drain.lastHandledIngressDropCount := 0;
      drain.next, drain.seen, drain.carried := oldestEntryDrain.next, 0, 0;
    }

    /** An entry takes the next id with it. One too large for the buffer is lost, but has taken its id. */
    method HandleEntry(data: Bytes)
      requires Valid() && |data| < TWO_TO_THE_32
      modifies this`sequenceId, this`fates, ring`writeIdx, ring`log, ring.buffer, ring.readers
      ensures Valid()
      ensures fates == old(fates) + [if ring.log == old(ring.log) then Lost else Pushed]
      ensures forall r :: r in ring.readers ==> old(Front(r)) <= Front(r)
      ensures ring.log == old(ring.log) ==> forall r :: r in ring.readers ==> r.entryCount == old(r.entryCount)
      ensures ring.log != old(ring.log) ==> forall r :: r in ring.readers && old(r.entryCount) == 0 ==>
        r.entryCount == 1 && Front(r) == |old(fates)|
      ensures sequenceId == Plus(old(sequenceId), 1)
      ensures ring.log == old(ring.log) || ring.log == old(ring.log) + [Item(old(sequenceId), data)]
      ensures ring.log == old(ring.log) <==> ring.buffer.Length < |Encoded(true, Item(old(sequenceId), data))|
    {
      hide Encoded, Kept, Follows, Recorded, FrontOf;
      var id := sequenceId;
      ghost var log := ring.log;
      sequenceId := Plus(sequenceId, 1);
      var pushBackStatus := ring.InternalPushBack(data, id, true);
      ghost var fate := if pushBackStatus == Ok then Pushed else Lost;
      RecordedEntry(fates, log, id, totalIngressDrops, fate, data);
      OneFateMore(fates, fate);
      forall r | r in ring.readers
        ensures FrontOf(fates, old(r.entryCount)) <= FrontOf(fates + [fate], r.entryCount)
        ensures fate == Pushed && old(r.entryCount) == 0 ==> FrontOf(fates + [fate], r.entryCount) == |fates|
      {
        if fate == Pushed {
          FrontAfterPush(fates, old(r.entryCount), r.entryCount);
        } else {
          FrontAfterDrop(fates, [fate], r.entryCount);
        }
      }
      fates := fates + [fate];
    }

    method HandleDropped(dropCount: Uint32)
      requires Valid()
      modifies this
      ensures Valid()
      ensures sequenceId == Plus(old(sequenceId), dropCount)
      ensures totalIngressDrops == Plus(old(totalIngressDrops), dropCount)
      ensures fates == old(fates) + Drops(dropCount)
      ensures forall r :: r in ring.readers ==> Front(r) == if r.entryCount == 0 then |fates| else old(Front(r))
    {
      hide Recorded, FrontOf;
      RecordedDrops(fates, ring.log, sequenceId, totalIngressDrops, dropCount);
      DropsMore(fates, dropCount);
      forall r | r in ring.readers
        ensures FrontOf(fates + Drops(dropCount), r.entryCount)
             == if r.entryCount == 0 then |fates + Drops(dropCount)| else FrontOf(fates, r.entryCount)
      {
        QueueWithin(ring, r);
        FrontAfterDrop(fates, Drops(dropCount), r.entryCount);
      }
      fates := fates + Drops(dropCount);
      sequenceId := Plus(sequenceId, dropCount);
      totalIngressDrops := Plus(totalIngressDrops, dropCount);
    }

    /**
     Reads or takes the next entry of a drain. Entry and drop counts together account for the advance of the
     drain's last handled id; an entry that cannot be read is discarded and counted the next time.
     */
    method PeekOrPopEntry(drain: Drain, output: Destination, pop: bool)
      returns (status: Status, bytes: Bytes, dropCount: Uint32, ingressDropCount: Uint32, entrySequenceId: Uint32)
      requires Valid() && drain.reader in ring.readers && output.Unwritten()
      modifies drain, drain.reader, output
      ensures Valid()
      ensures status in {Ok, OutOfRange, ResourceExhausted}
      ensures status == OutOfRange <==> old(drain.reader.entryCount) == 0
      ensures drain.reader.entryCount ==
        if status == ResourceExhausted || (status == Ok && pop) then old(drain.reader.entryCount) - 1
        else old(drain.reader.entryCount)
      ensures status == Ok ==>
        && old(drain.reader.entryCount <= |ring.log|)
        && var item := old(ring.Queue(drain.reader))[0];
        && bytes == item.data && output.Holds(item.data) && entrySequenceId == item.preamble
        && drain.lastHandledSequenceId == (if pop then entrySequenceId else old(drain.lastHandledSequenceId))
        && Plus(dropCount + ingressDropCount, 1) == Minus(entrySequenceId, old(drain.lastHandledSequenceId))
      ensures status == OutOfRange ==>
        && entrySequenceId == Minus(sequenceId, 1) && CaughtUp(drain)
        && dropCount + ingressDropCount == Minus(entrySequenceId, old(drain.lastHandledSequenceId))
      ensures status == ResourceExhausted ==>
        old(drain.reader.entryCount <= |ring.log|) && output.room < |old(ring.Queue(drain.reader))[0].data|
      ensures status == ResourceExhausted ==>
        dropCount == ingressDropCount == 0 && drain.lastHandledSequenceId == old(drain.lastHandledSequenceId)
      ensures old(Placed(drain)) ==> Placed(drain)
      ensures status == OutOfRange ==> old(Front(drain.reader)) == |fates|
      ensures drain.next == NextAfter(status, pop, old(Front(drain.reader)), old(drain.next))
      ensures old(Placed(drain)) && |fates| < TWO_TO_THE_32 && status != ResourceExhausted ==>
        && Told(fates, old(Front(drain.reader)), old(drain.Standing()), dropCount, ingressDropCount)
        && (drain.seen, drain.carried)
            == AfterTold(fates, old(Front(drain.reader)), old(drain.Standing()), ingressDropCount)
      ensures status == ResourceExhausted ==>
        drain.Standing() == old(drain.Standing())
      ensures (exists p :: p in output.memory && output.room <= p) <==> old(ring.Overruns(drain.reader, false, output.room))
    {
      hide Follows, Wrap, Plus, Minus, Copied, RingBuffer.Placed, Last, PrefixedEntryRingBuffer.Overruns;
      hide Recorded, FrontOf, MultiSink.Placed, Counted, Told, AfterTold;
      dropCount, ingressDropCount, bytes := 0, 0, [];
      var peekStatus;
      peekStatus, entrySequenceId := PeekInto(drain.reader, output);
      NoEntry(fates, ring.log, sequenceId, totalIngressDrops);
      if peekStatus != OutOfRange {
        FrontEntry(fates, ring.log, sequenceId, totalIngressDrops, drain.reader.entryCount);
        NextIsFront(ring, drain.reader);
      }
      if peekStatus == OutOfRange {
        entrySequenceId := Minus(sequenceId, 1);
      } else if peekStatus != Ok {
        DiscardFront(drain);
        return peekStatus, [], 0, 0, entrySequenceId;
      }
      dropCount, ingressDropCount := CountDrops(drain, entrySequenceId, peekStatus == Ok);
      if peekStatus == OutOfRange {
        HandleAll(drain, entrySequenceId);
        return peekStatus, [], dropCount, ingressDropCount, entrySequenceId;
      }
      bytes := output.Content(ring.Queue(drain.reader)[0].data);
      if pop {
        HandleFront(drain, entrySequenceId);
      }
      status := Ok;
    }


    /** Drops the entry in front, without the drain having handled it. */
    method DiscardFront(drain: Drain)
      requires Valid() && drain.reader in ring.readers && 0 < drain.reader.entryCount
      modifies drain.reader
      ensures Valid() && drain.reader.entryCount == old(drain.reader.entryCount) - 1
      ensures old(Placed(drain)) ==> Placed(drain)
    {
      hide Follows, Last, Wrap, Recorded, FrontOf, Stands;
      QueueWithin(ring, drain.reader);
      FrontEntry(fates, ring.log, sequenceId, totalIngressDrops, drain.reader.entryCount);
      if Placed(drain) {
        StandsOn(fates, Front(drain.reader), fates, FrontOf(fates, drain.reader.entryCount - 1), drain.Standing());
      }
      var status := ring.PopFront(drain.reader);
    }

    /** Drops the entry in front, which the drain has handled. */
    method HandleFront(drain: Drain, id: Uint32)
      requires Valid() && drain.reader in ring.readers && InFront(drain, id)
      modifies drain`lastHandledSequenceId, drain`next, drain.reader
      ensures Valid() && drain.reader.entryCount == old(drain.reader.entryCount) - 1
      ensures drain.lastHandledSequenceId == id && drain.next == old(Front(drain.reader)) + 1
      ensures old(Placed(drain)) ==> Placed(drain)
    {
      hide Follows, Wrap, Recorded, FrontOf, Stands;
      FrontEntry(fates, ring.log, sequenceId, totalIngressDrops, drain.reader.entryCount);
      NextIsFront(ring, drain.reader);
      ghost var front := Front(drain.reader);
      if Placed(drain) {
        StandsBehind(fates, front, FrontOf(fates, drain.reader.entryCount - 1), drain.Standing());
      }
      var status := ring.PopFront(drain.reader);
      drain.lastHandledSequenceId := id;
      drain.next := front + 1;
    }

    /** The drain has handled all ids there are. */
    method HandleAll(drain: Drain, id: Uint32)
      requires Valid() && drain.reader in ring.readers && drain.reader.entryCount == 0 && id == Minus(sequenceId, 1)
      modifies drain`lastHandledSequenceId, drain`next
      ensures Valid() && drain.lastHandledSequenceId == id && drain.next == Front(drain.reader) == |fates|
      ensures old(Placed(drain)) ==> Placed(drain)
    {
      hide Follows, Wrap, Minus, Recorded, FrontOf, Stands;
      NoEntry(fates, ring.log, sequenceId, totalIngressDrops);
      if Placed(drain) {
        StandsAtTheEnd(fates, Front(drain.reader), drain.Standing());
      }
      drain.lastHandledSequenceId := id;
      drain.next := |fates|;
    }

    function NextAfter(status: Status, pop: bool, front: nat, next: nat): nat {
      if status == OutOfRange then front
      else if status == Ok && pop then front + 1
      else next
    }

    /** What a drain remembers of the counts it is given. */
    ghost method Remember(drain: Drain, front: nat, standing: MultisinkHistory.Standing, id: Uint32, found: bool,
                          dropped: Uint32, ingressDropped: Uint32)
      requires Stands(fates, front, standing) && totalIngressDrops == Wrap(IngressDrops(fates))
      requires id == (if found then Wrap(front) else Minus(Wrap(front), 1)) && (found || front == |fates|)
      requires Counted(standing.lastId, standing.lastIngressDrops, totalIngressDrops, id, found, dropped, ingressDropped,
                       drain.lastHandledIngressDropCount)
      requires drain.Standing() == standing.(lastIngressDrops := drain.lastHandledIngressDropCount)
      modifies drain`seen, drain`carried
      ensures Stands(fates, front, drain.Standing())
      ensures |fates| < TWO_TO_THE_32 ==>
        && Told(fates, front, standing, dropped, ingressDropped)
        && (drain.seen, drain.carried) == AfterTold(fates, front, standing, ingressDropped)
    {
      hide Wrap, IngressDrops, Counted, Told, AfterTold, CountsFrom, Minus;
      if |fates| < TWO_TO_THE_32 {
        CountedIsTold(fates, front, standing, totalIngressDrops, id, found, dropped, ingressDropped,
                      drain.lastHandledIngressDropCount);
        var (seen, carried) := AfterTold(fates, front, standing, ingressDropped);
        drain.seen, drain.carried := seen, carried;
      }
    }

    /** How many ids lie between the last one handled and this one, of an entry that was found or of the last one given. */
    method CountDrops(drain: Drain, id: Uint32, found: bool) returns (dropCount: Uint32, ingressDropCount: Uint32)
      requires totalIngressDrops == Wrap(IngressDrops(fates))
      requires id == if found then Wrap(Front(drain.reader)) else Minus(Wrap(|fates|), 1)
      requires found || Front(drain.reader) == |fates|
      modifies drain`lastHandledIngressDropCount, drain`seen, drain`carried
      ensures old(Placed(drain)) ==> Placed(drain)
      ensures old(Placed(drain)) && |fates| < TWO_TO_THE_32 ==>
        && Told(fates, Front(drain.reader), old(drain.Standing()), dropCount, ingressDropCount)
        && (drain.seen, drain.carried)
            == AfterTold(fates, Front(drain.reader), old(drain.Standing()), ingressDropCount)
      ensures var gap := Minus(id, drain.lastHandledSequenceId);
        if found then Plus(dropCount + ingressDropCount, 1) == gap else dropCount + ingressDropCount == gap
    {
      hide Wrap, Plus, Minus, FrontOf, Stands, Told, AfterTold;
      ghost var standing, placed := drain.Standing(), Placed(drain);
      ingressDropCount := 0;
      dropCount := Minus(id, drain.lastHandledSequenceId);
      if found {
        OneLess(dropCount);
        dropCount := Minus(dropCount, 1);
      }
      if dropCount > 0 {
        var ingress := Minus(totalIngressDrops, drain.lastHandledIngressDropCount);
        ingressDropCount := if ingress < dropCount then ingress else dropCount;
        dropCount := dropCount - ingressDropCount;
        drain.lastHandledIngressDropCount :=
          if totalIngressDrops > ingressDropCount then totalIngressDrops - ingressDropCount else totalIngressDrops;
      }
      if placed {
        Remember(drain, Front(drain.reader), standing, id, found, dropCount, ingressDropCount);
      }
    }

    /** PeekFrontWithPreamble: the whole front entry, or as many of its bytes as there is room for at least. */
    method PeekInto(reader: Reader, output: Destination) returns (status: Status, id: Uint32)
      requires Valid() && reader in ring.readers && output.Unwritten()
      modifies output
      ensures status in {Ok, OutOfRange, ResourceExhausted} && reader.entryCount <= |ring.log|
      ensures status == OutOfRange <==> reader.entryCount == 0
      ensures status != OutOfRange ==> ring.Queue(reader) != []
      ensures status == Ok ==> output.Holds(ring.Queue(reader)[0].data)
      ensures status == ResourceExhausted ==> output.room < |ring.Queue(reader)[0].data|
      ensures status != OutOfRange ==> id == ring.Queue(reader)[0].preamble
      ensures (exists p :: p in output.memory && output.room <= p) <==> ring.Overruns(reader, false, output.room)
    {
      hide Follows, Placed, PrefixedEntryRingBuffer.Overruns;
      status, id := ring.InternalRead(reader, false, output);
      if reader.entryCount != 0 {
        ghost var data := ring.Queue(reader)[0].data;
        assert data[..|data|] == data;
        ring.FrontWithin(reader);
        CopiedBeyond(ring.UntilWrap(reader, false), |data|, output.room);
      }
    }

    /** The next entry of a drain has this id. */
    ghost predicate InFront(drain: Drain, id: Uint32)
      reads ring, drain, drain.reader
    {
      0 < drain.reader.entryCount <= |ring.log| && ring.Queue(drain.reader)[0].preamble == id
    }

    /** Takes an entry that was peeked, unless it has been handled or is not in front any more. */
    method PopEntry(drain: Drain, peekedId: Uint32) returns (status: Status)
      requires Valid() && drain.reader in ring.readers
      modifies drain`lastHandledSequenceId, drain`next, drain.reader
      ensures Valid() && status == Ok
      ensures old(InFront(drain, peekedId)) && peekedId != old(drain.lastHandledSequenceId) ==>
        && drain.lastHandledSequenceId == peekedId && drain.reader.entryCount == old(drain.reader.entryCount) - 1
        && drain.next == old(Front(drain.reader)) + 1
      ensures !old(InFront(drain, peekedId)) || peekedId == old(drain.lastHandledSequenceId) ==>
        && drain.lastHandledSequenceId == old(drain.lastHandledSequenceId) && drain.next == old(drain.next)
        && unchanged(drain.reader)
      ensures old(Placed(drain)) ==> Placed(drain)
    {
      hide Follows, Recorded, FrontOf, Stands;
      QueueWithin(ring, drain.reader);
      if peekedId == drain.lastHandledSequenceId {
        return Ok;
      }
      var peekStatus, nextEntrySequenceId := ring.PeekFrontPreamble(drain.reader);
      if peekStatus != Ok {
        return Ok;
      }
      if nextEntrySequenceId == peekedId {
        HandleFront(drain, nextEntrySequenceId);
      }
      return Ok;
    }

    /** The ids between the last one handled and the next entry were all dropped on the way in. */
    ghost predicate IngressGap(drain: Drain)
      reads this, ring, drain, drain.reader
    {
      OnlyIngress(fates, drain.next, Front(drain.reader))
    }

    /** How many ids lie between the last one handled and the next entry. */
    ghost function Gap(drain: Drain): int
      reads this, ring, drain, drain.reader
    {
      Front(drain.reader) - drain.next
    }

    method Clear()
      requires Valid()
      modifies ring`writeIdx, ring.readers
      ensures Valid() && forall r :: r in ring.readers ==> r.entryCount == 0
      ensures forall r :: r in ring.readers ==> old(Front(r)) <= Front(r)
    {
      hide Recorded;
      ring.Clear();
    }
  }

  // ---------------------------------------------------------------- runs

  datatype Operation =
    | Handle(data: Bytes)
    | Drop(count: Uint32)
    | Clear
    | Pop(room: nat)
    | Peek(room: nat)
    | PeekThenPop(room: nat)

  /** What one operation tells the user of a drain. */
  datatype Report = Report(delivered: nat, dropped: nat, ingressDropped: nat)

  function Total(report: Report): nat {
    report.delivered + report.dropped + report.ingressDropped
  }

  function TotalOf(reports: seq<Report>): nat {
    if reports == [] then 0 else TotalOf(reports[..|reports| - 1]) + Total(reports[|reports| - 1])
  }

  function With(reports: seq<Report>, delivered: nat, dropped: nat, ingressDropped: nat): seq<Report> {
    reports + [Report(delivered, dropped, ingressDropped)]
  }

  lemma NoReports()
    ensures TotalOf([]) == 0
  {
  }

  lemma OneReportMore(reports: seq<Report>, delivered: nat, dropped: nat, ingressDropped: nat)
    ensures var with := With(reports, delivered, dropped, ingressDropped);
      && TotalOf(with) == TotalOf(reports) + (delivered + dropped + ingressDropped)
      && |with| == |reports| + 1 && with[..|reports|] == reports
      && Total(with[|reports|]) == delivered + dropped + ingressDropped
      && forall k :: 0 <= k < |reports| ==> with[k] == reports[k]
  {
    assert With(reports, delivered, dropped, ingressDropped)[..|reports|] == reports;
  }

  function Given(op: Operation): nat {
    if op.Handle? then 1 else if op.Drop? then op.count else 0
  }

  predicate Reads(op: Operation) {
    op.Pop? || op.Peek? || op.PeekThenPop?
  }

  /** Entries fit their length field. */
  predicate Proper(op: Operation) {
    op.Handle? ==> |op.data| < TWO_TO_THE_32
  }

  lemma ReadingGivesNothing(op: Operation)
    ensures Reads(op) ==> Given(op) == 0
  {
  }

  lemma IngestedOneMore(first: Uint32, ops: seq<Operation>, op: Operation, id: Uint32, id': Uint32)
    requires id == Plus(first, Ingested(ops)) && id' == Plus(id, Given(op))
    ensures id' == Plus(first, Ingested(ops + [op]))
  {
    hide Wrap;
    assert (ops + [op])[..|ops|] == ops;
    var p := Turns(first + Ingested(ops));
    var q := Turns(id + Given(op));
    WrapIs(first + Ingested(ops + [op]), p + q, id');
  }

  /** How many ids the operations give out. */
  function Ingested(ops: seq<Operation>): nat {
    if ops == [] then 0
    else
      var n := |ops| - 1;
      Ingested(ops[..n]) + Given(ops[n])
  }

  /** The total says how far a drain's last handled id went from `first` to `last`. */
  ghost predicate AccountsFor(total: nat, first: Uint32, last: Uint32) {
    Plus(first, total) == last
  }

  lemma AccountsMore(total: nat, more: nat, first: Uint32, middle: Uint32, last: Uint32)
    requires AccountsFor(total, first, middle) && AccountsFor(more, middle, last)
    ensures AccountsFor(total + more, first, last)
  {
    hide Wrap;
    var p := Turns(first + total);
    var q := Turns(middle + more);
    WrapIs(first + (total + more), p + q, last);
  }

  lemma StartsAtNothing(id: Uint32)
    ensures AccountsFor(0, id, id)
  {
    hide Wrap;
    WrapIs(id, 0, id);
  }

  lemma NothingIngested()
    ensures Ingested([]) == 0
  {
  }

  lemma IngestedMore(ops: seq<Operation>, op: Operation)
    ensures Ingested(ops + [op]) == Ingested(ops) + Given(op)
  {
    assert (ops + [op])[..|ops|] == ops;
  }

  lemma PlusNothing(id: Uint32)
    ensures Plus(id, 0) == id == Plus(id, Ingested([]))
  {
    hide Wrap;
    WrapIs(id, 0, id);
  }

  /** A difference that is reported accounts for itself. */
  lemma DifferenceAccounts(id: Uint32, lastId: Uint32, n: nat)
    requires Plus(n, 0) == Minus(id, lastId)
    ensures AccountsFor(n, lastId, id)
  {
    hide Wrap;
    var p := Turns(n + 0);
    WrapIs(lastId + n, if lastId <= id then p else p + 1, id);
  }

  lemma FrontFits(ring: PrefixedEntryRingBuffer, reader: Reader)
    requires ring.Valid() && reader in ring.readers && 0 < reader.entryCount
    ensures reader.entryCount <= |ring.log| && |ring.Queue(reader)[0].data| <= ring.buffer.Length
    ensures ring.Queue(reader)[1..] == Last(ring.log, reader.entryCount - 1)
  {
    assert ring.Attached(reader);
    LastFront(ring.preambles, ring.log, reader.entryCount);
  }

  lemma NextIsFront(ring: PrefixedEntryRingBuffer, reader: Reader)
    requires 0 < reader.entryCount <= |ring.log|
    ensures ring.Queue(reader)[0] == ring.log[|ring.log| - reader.entryCount]
  {
  }

  lemma QueueWithin(ring: PrefixedEntryRingBuffer, reader: Reader)
    requires ring.Valid() && reader in ring.readers
    ensures reader.entryCount <= |ring.log| && |ring.Queue(reader)| == reader.entryCount
  {
    assert ring.Attached(reader);
  }

  /**
   One pop: the front entry, if there is one that its room suffices for, and what the pop accounts for. An entry that
   is discarded for lack of room advances nothing, so that the next pop accounts for it.
   */
  method PopOne(sink: MultiSink, drain: Drain, room: nat)
    returns (status: Status, bytes: Bytes, dropped: nat, ingressDropped: nat)
    requires sink.Valid() && drain.reader in sink.ring.readers
    modifies drain, drain.reader
    ensures sink.Valid() && status in {Ok, OutOfRange, ResourceExhausted}
    ensures status == OutOfRange <==> old(drain.reader.entryCount) == 0
    ensures var delivered := if status == Ok then 1 else 0;
      AccountsFor(delivered + dropped + ingressDropped, old(drain.lastHandledSequenceId), drain.lastHandledSequenceId)
    ensures status == OutOfRange ==> sink.CaughtUp(drain) && drain.next == |sink.fates|
    ensures status != OutOfRange ==>
      old(drain.reader.entryCount <= |sink.ring.log|) && drain.reader.entryCount == old(drain.reader.entryCount) - 1
    ensures status == Ok ==> bytes == old(sink.ring.Queue(drain.reader))[0].data
    ensures status == ResourceExhausted ==>
      dropped == ingressDropped == 0 && drain.lastHandledSequenceId == old(drain.lastHandledSequenceId)
      && room < |old(sink.ring.Queue(drain.reader))[0].data|
    ensures sink.ring.buffer.Length <= room ==> status != ResourceExhausted
    ensures old(sink.Placed(drain)) ==> sink.Placed(drain)
    ensures old(sink.Placed(drain)) && |sink.fates| < TWO_TO_THE_32 ==>
      && (if status == Ok then 1 else 0) + dropped + ingressDropped == drain.next - old(drain.next)
      && (status != ResourceExhausted ==>
            && Told(sink.fates, old(sink.Front(drain.reader)), old(drain.Standing()), dropped, ingressDropped)
            && (drain.seen, drain.carried)
                == AfterTold(sink.fates, old(sink.Front(drain.reader)), old(drain.Standing()), ingressDropped))
      && (status != ResourceExhausted && old(sink.IngressGap(drain)) ==>
            IngressTold(sink.fates, old(drain.Standing()), old(sink.Gap(drain)), dropped, ingressDropped))
  {
    hide Follows, AccountsFor, Told, Stands, OnlyIngress, IngressTold, Recorded, FrontOf, AfterTold;
    if drain.reader.entryCount != 0 {
      FrontFits(sink.ring, drain.reader);
    }
    ghost var before := drain.lastHandledSequenceId;
    ghost var fates, front, standing := sink.fates, sink.Front(drain.reader), drain.Standing();
    ghost var placed, ingressGap := sink.Placed(drain), sink.IngressGap(drain);
    var id;
    var output := new Destination(room);
    status, bytes, dropped, ingressDropped, id := sink.PeekOrPopEntry(drain, output, true);
    if placed && |fates| < TWO_TO_THE_32 && status != ResourceExhausted {
      ToldIsGap(fates, front, standing, dropped, ingressDropped);
      if ingressGap {
        IngressGapTold(fates, front, standing, dropped, ingressDropped);
      }
    }
    ghost var delivered := if status == Ok then 1 else 0;
    if status == ResourceExhausted {
      StartsAtNothing(before);
    } else {
      DifferenceAccounts(drain.lastHandledSequenceId, before, delivered + dropped + ingressDropped);
    }
  }

  /** A peek: the front entry, if there is one that its room suffices for, and what lies in front of it. */
  method PeekFront(sink: MultiSink, drain: Drain, room: nat)
    returns (status: Status, bytes: Bytes, dropped: nat, ingressDropped: nat, id: Uint32)
    requires sink.Valid() && drain.reader in sink.ring.readers
    modifies drain, drain.reader
    ensures sink.Valid() && status in {Ok, OutOfRange, ResourceExhausted}
    ensures status == OutOfRange <==> old(drain.reader.entryCount) == 0
    ensures drain.reader.entryCount == old(drain.reader.entryCount) - if status == ResourceExhausted then 1 else 0
    ensures status == OutOfRange ==>
      && sink.CaughtUp(drain)
      && AccountsFor(dropped + ingressDropped, old(drain.lastHandledSequenceId), drain.lastHandledSequenceId)
    ensures status != OutOfRange ==>
      && old(drain.reader.entryCount <= |sink.ring.log|) && drain.next == old(drain.next)
      && drain.lastHandledSequenceId == old(drain.lastHandledSequenceId)
    ensures status == Ok ==>
      && bytes == old(sink.ring.Queue(drain.reader))[0].data && sink.InFront(drain, id)
      && Plus(dropped + ingressDropped, 1) == Minus(id, drain.lastHandledSequenceId)
    ensures status == ResourceExhausted ==> dropped == ingressDropped == 0
    ensures sink.ring.buffer.Length <= room ==> status != ResourceExhausted
    ensures old(sink.Placed(drain)) ==> sink.Placed(drain)
    ensures old(sink.Placed(drain)) && |sink.fates| < TWO_TO_THE_32 ==>
      && (status == Ok ==> dropped + ingressDropped == sink.Gap(drain))
      && (status == OutOfRange ==> dropped + ingressDropped == drain.next - old(drain.next))
  {
    hide Follows, AccountsFor, PrefixedEntryRingBuffer.Overruns, Last, Told, Stands, Recorded, FrontOf, AfterTold;
    QueueWithin(sink.ring, drain.reader);
    if drain.reader.entryCount != 0 {
      FrontFits(sink.ring, drain.reader);
    }
    ghost var before, placed := drain.lastHandledSequenceId, sink.Placed(drain);
    ghost var fates, front, standing := sink.fates, sink.Front(drain.reader), drain.Standing();
    var output := new Destination(room);
    status, bytes, dropped, ingressDropped, id := sink.PeekOrPopEntry(drain, output, false);
    if status != ResourceExhausted && placed && |fates| < TWO_TO_THE_32 {
      ToldIsGap(fates, front, standing, dropped, ingressDropped);
    }
    if status == OutOfRange {
      DifferenceAccounts(drain.lastHandledSequenceId, before, dropped + ingressDropped);
    }
  }

  /**
   A peek delivers nothing, and what it says of drops it will say again, so its counts stand for something only
   if it finds no entry. It too discards an entry that it has no room for.
   */
  method PeekOne(sink: MultiSink, drain: Drain, room: nat) returns (status: Status, dropped: nat, ingressDropped: nat)
    requires sink.Valid() && drain.reader in sink.ring.readers
    modifies drain, drain.reader
    ensures sink.Valid() && status in {Ok, OutOfRange, ResourceExhausted}
    ensures AccountsFor(dropped + ingressDropped, old(drain.lastHandledSequenceId), drain.lastHandledSequenceId)
    ensures drain.reader.entryCount == old(drain.reader.entryCount) - if status == ResourceExhausted then 1 else 0
    ensures sink.ring.buffer.Length <= room ==> status != ResourceExhausted
    ensures old(sink.Placed(drain)) ==> sink.Placed(drain)
    ensures old(sink.Placed(drain)) && |sink.fates| < TWO_TO_THE_32 ==>
      dropped + ingressDropped == drain.next - old(drain.next)
  {
    hide Follows, AccountsFor, MultiSink.Placed, Told, Stands, Recorded, FrontOf, AfterTold;
    ghost var before := drain.lastHandledSequenceId;
    var bytes, id;
    status, bytes, dropped, ingressDropped, id := PeekFront(sink, drain, room);
    if status != OutOfRange {
      dropped, ingressDropped := 0, 0;
      StartsAtNothing(before);
    }
  }

  /** A peek and a pop of what it found take and tell the same as a pop, unless the id wrapped all the way round. */
  method PeekThenPopOne(sink: MultiSink, drain: Drain, room: nat)
    returns (status: Status, bytes: Bytes, delivered: nat, dropped: nat, ingressDropped: nat)
    requires sink.Valid() && drain.reader in sink.ring.readers
    modifies drain, drain.reader
    ensures sink.Valid() && status in {Ok, OutOfRange, ResourceExhausted}
    ensures status == OutOfRange <==> old(drain.reader.entryCount) == 0
    ensures AccountsFor(delivered + dropped + ingressDropped, old(drain.lastHandledSequenceId), drain.lastHandledSequenceId)
    ensures status == OutOfRange ==> sink.CaughtUp(drain)
    ensures status != OutOfRange ==> old(drain.reader.entryCount <= |sink.ring.log|)
    ensures status == Ok ==> bytes == old(sink.ring.Queue(drain.reader))[0].data
    ensures status == Ok && !old(sink.InFront(drain, drain.lastHandledSequenceId)) ==>
      delivered == 1 && drain.reader.entryCount == old(drain.reader.entryCount) - 1
    ensures status == ResourceExhausted ==>
      delivered == dropped == ingressDropped == 0 && drain.lastHandledSequenceId == old(drain.lastHandledSequenceId)
      && drain.reader.entryCount == old(drain.reader.entryCount) - 1
    ensures sink.ring.buffer.Length <= room ==> status != ResourceExhausted
    ensures delivered <= 1
    ensures old(sink.Placed(drain)) ==> sink.Placed(drain)
    ensures old(sink.Placed(drain)) && |sink.fates| < TWO_TO_THE_32 ==>
      delivered + dropped + ingressDropped == drain.next - old(drain.next)
  {
    hide Follows, AccountsFor, MultiSink.Placed, Plus, Minus, Wrap, Last, Told, Stands, Recorded, FrontOf, AfterTold;
    ghost var before := drain.lastHandledSequenceId;
    var id;
    delivered := 0;
    status, bytes, dropped, ingressDropped, id := PeekFront(sink, drain, room);
    if status == ResourceExhausted {
      StartsAtNothing(before);
    } else if status == Ok {
      delivered, dropped, ingressDropped := PopPeeked(sink, drain, id, dropped, ingressDropped);
    }
  }

  /** The pop of an entry that was peeked: it is delivered with the counts of the peek, unless it counts as handled. */
  method PopPeeked(sink: MultiSink, drain: Drain, id: Uint32, dropCount: nat, ingressDropCount: nat)
    returns (delivered: nat, dropped: nat, ingressDropped: nat)
    requires sink.Valid() && drain.reader in sink.ring.readers && sink.InFront(drain, id)
    requires Plus(dropCount + ingressDropCount, 1) == Minus(id, drain.lastHandledSequenceId)
    modifies drain`lastHandledSequenceId, drain`next, drain.reader
    ensures sink.Valid() && delivered <= 1
    ensures AccountsFor(delivered + dropped + ingressDropped, old(drain.lastHandledSequenceId), drain.lastHandledSequenceId)
    ensures old(drain.lastHandledSequenceId) != id ==>
      delivered == 1 && drain.reader.entryCount == old(drain.reader.entryCount) - 1
    ensures old(sink.Placed(drain)) ==> sink.Placed(drain)
    ensures dropCount + ingressDropCount == old(sink.Gap(drain)) ==>
      delivered + dropped + ingressDropped == drain.next - old(drain.next)
  {
    hide Follows, AccountsFor, Last, MultiSink.Placed, Stands, Recorded, FrontOf;
    ghost var before := drain.lastHandledSequenceId;
    delivered, dropped, ingressDropped := 1, dropCount, ingressDropCount;
    if drain.lastHandledSequenceId == id {
      delivered, dropped, ingressDropped := 0, 0, 0;
    }
    var popStatus := sink.PopEntry(drain, id);
    DifferenceAccounts(drain.lastHandledSequenceId, before, delivered + dropped + ingressDropped);
  }

  /** One operation on the side of the drain: how far the drain goes on. */
  method Read(sink: MultiSink, drain: Drain, op: Operation) returns (delivered: nat, dropped: nat, ingressDropped: nat)
    requires sink.Valid() && drain.reader in sink.ring.readers
    requires Reads(op)
    modifies drain, drain.reader
    ensures sink.Valid()
    ensures AccountsFor(delivered + dropped + ingressDropped, old(drain.lastHandledSequenceId), drain.lastHandledSequenceId)
    ensures delivered <= 1
    ensures sink.fates == old(sink.fates)
    ensures old(sink.Placed(drain)) ==> sink.Placed(drain)
    ensures old(sink.Placed(drain)) && |sink.fates| < TWO_TO_THE_32 ==>
      delivered + dropped + ingressDropped == drain.next - old(drain.next)
    ensures op.Pop? && sink.ring.buffer.Length <= op.room ==>
      delivered == if old(drain.reader.entryCount) == 0 then 0 else 1
  {
    hide Follows, AccountsFor, MultiSink.Valid, MultiSink.CaughtUp, Told, Stands, Recorded, FrontOf, AfterTold;
    hide IngressTold, OnlyIngress;
    var status, bytes;
    delivered := 0;
    match op
    case Pop(room) =>
      status, bytes, dropped, ingressDropped := PopOne(sink, drain, room);
      if status == Ok {
        delivered := 1;
      }
    case Peek(room) =>
      status, dropped, ingressDropped := PeekOne(sink, drain, room);
    case PeekThenPop(room) =>
      status, bytes, delivered, dropped, ingressDropped := PeekThenPopOne(sink, drain, room);
  }

  /** One operation on the side of those who write: the ids it gives out. */
  method Write(sink: MultiSink, op: Operation)
    requires sink.Valid() && !Reads(op) && (op.Handle? ==> |op.data| < TWO_TO_THE_32)
    modifies sink, sink.ring`writeIdx, sink.ring`log, sink.ring.buffer, sink.ring.readers
    ensures sink.Valid() && sink.sequenceId == Plus(old(sink.sequenceId), Given(op))
    ensures old(sink.fates) <= sink.fates && |sink.fates| == |old(sink.fates)| + Given(op)
    ensures forall r :: r in sink.ring.readers ==> old(sink.Front(r)) <= sink.Front(r)
  {
    hide Follows, Encoded, Plus, Recorded, FrontOf;
    match op
    case Handle(data) =>
      sink.HandleEntry(data);
    case Drop(count) =>
      sink.HandleDropped(count);
    case Clear =>
      sink.Clear();
      PlusNothing(sink.sequenceId);
  }

  method Perform(sink: MultiSink, drain: Drain, op: Operation) returns (delivered: nat, dropped: nat, ingressDropped: nat)
    requires sink.Valid() && drain.reader in sink.ring.readers && Proper(op)
    modifies sink, sink.ring`writeIdx, sink.ring`log, sink.ring.buffer, sink.ring.readers, drain
    ensures sink.Valid()
    ensures AccountsFor(delivered + dropped + ingressDropped, old(drain.lastHandledSequenceId), drain.lastHandledSequenceId)
    ensures sink.sequenceId == Plus(old(sink.sequenceId), Given(op))
    ensures !Reads(op) ==> delivered == dropped == ingressDropped == 0
    ensures delivered <= 1
    ensures old(sink.fates) <= sink.fates && |sink.fates| == |old(sink.fates)| + Given(op)
    ensures old(sink.Placed(drain)) ==> sink.Placed(drain)
    ensures old(sink.Placed(drain)) && |sink.fates| < TWO_TO_THE_32 ==>
      delivered + dropped + ingressDropped == drain.next - old(drain.next)
    ensures op.Pop? && sink.ring.buffer.Length <= op.room ==>
      delivered == if old(drain.reader.entryCount) == 0 then 0 else 1
  {
    hide Follows, AccountsFor, Plus, Ingested, Given, Told, Stands, Recorded, FrontOf, AfterTold, IngressTold, OnlyIngress;
    if Reads(op) {
      PlusNothing(sink.sequenceId);
      ReadingGivesNothing(op);
      delivered, dropped, ingressDropped := Read(sink, drain, op);
    } else {
      StartsAtNothing(drain.lastHandledSequenceId);
      delivered, dropped, ingressDropped := 0, 0, 0;
      ghost var fates, front, standing, placed := sink.fates, sink.Front(drain.reader), drain.Standing(), sink.Placed(drain);
      Write(sink, op);
      if placed {
        StandsOn(fates, front, sink.fates, sink.Front(drain.reader), standing);
      }
    }
  }

  /**
   Any run of entries, reported drops, and pops and peeks of one drain into any room: entries delivered and drops
   reported, of both kinds, account for the advance of its last handled id. Entries that are discarded for lack of
   room are among the drops reported later. What a read that goes beyond its room does there is not modelled.
   */
  method Run(sink: MultiSink, drain: Drain, ops: seq<Operation>) returns (reports: seq<Report>)
    requires sink.Valid() && drain.reader in sink.ring.readers
    requires forall i :: 0 <= i < |ops| ==> Proper(ops[i])
    modifies sink, sink.ring`writeIdx, sink.ring`log, sink.ring.buffer, sink.ring.readers, drain
    ensures sink.Valid() && |reports| == |ops|
    ensures forall i :: 0 <= i < |ops| && !Reads(ops[i]) ==> Total(reports[i]) == 0
    ensures AccountsFor(TotalOf(reports), old(drain.lastHandledSequenceId), drain.lastHandledSequenceId)
    ensures sink.sequenceId == Plus(old(sink.sequenceId), Ingested(ops))
    ensures old(sink.fates) <= sink.fates && |sink.fates| == |old(sink.fates)| + Ingested(ops)
    ensures old(sink.Placed(drain)) ==> sink.Placed(drain)
    ensures old(sink.Placed(drain)) && |sink.fates| < TWO_TO_THE_32 ==> TotalOf(reports) == drain.next - old(drain.next)
  {
    hide Follows, AccountsFor, Plus, Ingested, Given, Proper, Reads, With, Total, TotalOf;
    hide Told, Stands, Recorded, FrontOf, AfterTold, IngressTold, OnlyIngress;
    StartsAtNothing(drain.lastHandledSequenceId);
    PlusNothing(sink.sequenceId);
    NothingIngested();
    NoReports();
    reports := [];
    for i := 0 to |ops|
      invariant sink.Valid() && sink.ring.readers == old(sink.ring.readers) && |reports| == i
      invariant forall k :: 0 <= k < i && !Reads(ops[k]) ==> Total(reports[k]) == 0
      invariant AccountsFor(TotalOf(reports), old(drain.lastHandledSequenceId), drain.lastHandledSequenceId)
      invariant sink.sequenceId == Plus(old(sink.sequenceId), Ingested(ops[..i]))
      invariant old(sink.fates) <= sink.fates && |sink.fates| == |old(sink.fates)| + Ingested(ops[..i])
      invariant old(sink.Placed(drain)) ==> sink.Placed(drain)
      invariant old(sink.Placed(drain)) && |sink.fates| < TWO_TO_THE_32 ==>
        TotalOf(reports) == drain.next - old(drain.next)
    {
      assert ops[..i + 1] == ops[..i] + [ops[i]];
      ghost var before, id := drain.lastHandledSequenceId, sink.sequenceId;
      var delivered, dropped, ingressDropped := Perform(sink, drain, ops[i]);
      ghost var total, more := TotalOf(reports), delivered + dropped + ingressDropped;
      AccountsMore(total, more, old(drain.lastHandledSequenceId), before, drain.lastHandledSequenceId);
      IngestedOneMore(old(sink.sequenceId), ops[..i], ops[i], id, sink.sequenceId);
      IngestedMore(ops[..i], ops[i]);
      OneReportMore(reports, delivered, dropped, ingressDropped);
      reports := With(reports, delivered, dropped, ingressDropped);
    }
    assert ops[..|ops|] == ops;
  }

  /** Between two moments at which the drain is caught up, it is told of exactly what went in, modulo 2^32. */
  lemma CaughtUpTwice(accounted: nat, first: Uint32, last: Uint32, firstId: Uint32, lastId: Uint32, ops: seq<Operation>)
    requires AccountsFor(accounted, first, last) && lastId == Plus(firstId, Ingested(ops))
    requires first == Minus(firstId, 1) && last == Minus(lastId, 1)
    ensures Wrap(accounted) == Wrap(Ingested(ops))
  {
    PlusAfterMinus(first, firstId, accounted);
    PlusAfterMinus(last, lastId, 0);
    Cancel(firstId, accounted, Ingested(ops));
  }

  lemma PlusAfterMinus(before: Uint32, id: Uint32, n: nat)
    requires before == Minus(id, 1)
    ensures Plus(Plus(before, n), 1) == Plus(id, n)
  {
    hide Wrap;
    var p := Turns(before + n);
    var q := Turns(id + n);
    var r := Turns(Wrap(before + n) + 1);
    var left, right := Wrap(Wrap(before + n) + 1), Wrap(id + n);
    assert left == right by {
      assert before == if id == 0 then TWO_TO_THE_32 - 1 else id - 1;
    }
  }

  lemma Cancel(id: Uint32, m: nat, n: nat)
    requires Plus(id, m) == Plus(id, n)
    ensures Wrap(m) == Wrap(n)
  {
    hide Wrap;
    var p := Turns(id + m);
    var q := Turns(id + n);
    var k := Turns(m);
    var l := Turns(n);
  }

  function Payloads(items: Log): seq<Bytes> {
    if items == [] then [] else [items[0].data] + Payloads(items[1..])
  }

  lemma OnePayloadMore(entries: seq<Bytes>, log: Log, count: nat)
    requires 0 < count <= |log|
    ensures entries + [log[|log| - count].data] + Payloads(Last(log, count - 1)) == entries + Payloads(Last(log, count))
    ensures Last(log, count)[0] == log[|log| - count]
  {
    assert Last(log, count)[1..] == Last(log, count - 1);
  }

  lemma NoPayloads(log: Log)
    ensures Payloads(Last(log, 0)) == []
  {
  }

  /** Pops until nothing is left: all that was queued, in order, and then the drain is caught up. */
  method CatchUp(sink: MultiSink, drain: Drain) returns (entries: seq<Bytes>, dropped: nat)
    requires sink.Valid() && drain.reader in sink.ring.readers
    modifies drain, drain.reader
    ensures sink.Valid() && sink.CaughtUp(drain)
    ensures old(drain.reader.entryCount) <= |sink.ring.log| && entries == Payloads(old(sink.ring.Queue(drain.reader)))
    ensures AccountsFor(|entries| + dropped, old(drain.lastHandledSequenceId), drain.lastHandledSequenceId)
    ensures old(sink.Placed(drain)) ==> sink.Placed(drain) && drain.next == |sink.fates|
    ensures old(sink.Placed(drain)) && |sink.fates| < TWO_TO_THE_32 ==> |entries| + dropped == drain.next - old(drain.next)
  {
    hide Follows, AccountsFor, Payloads, Last, Told, Stands, Recorded, FrontOf, AfterTold, IngressTold, OnlyIngress;
    StartsAtNothing(drain.lastHandledSequenceId);
    NoPayloads(sink.ring.log);
    entries, dropped := [], 0;
    QueueWithin(sink.ring, drain.reader);
    ghost var queue := sink.ring.Queue(drain.reader);
    var status := Ok;
    while status == Ok
      invariant sink.Valid() && drain.reader in sink.ring.readers && drain.reader.entryCount <= |sink.ring.log|
      invariant entries + Payloads(Last(sink.ring.log, drain.reader.entryCount)) == Payloads(queue)
      invariant AccountsFor(|entries| + dropped, old(drain.lastHandledSequenceId), drain.lastHandledSequenceId)
      invariant old(sink.Placed(drain)) ==> sink.Placed(drain) && (status == OutOfRange ==> drain.next == |sink.fates|)
      invariant old(sink.Placed(drain)) && |sink.fates| < TWO_TO_THE_32 ==>
        |entries| + dropped == drain.next - old(drain.next)
      invariant status in {Ok, OutOfRange} && (status == OutOfRange ==> sink.CaughtUp(drain))
      decreases drain.reader.entryCount, status == Ok
    {
      ghost var before, count := drain.lastHandledSequenceId, drain.reader.entryCount;
      if drain.reader.entryCount != 0 {
        OnePayloadMore(entries, sink.ring.log, count);
      }
      var bytes, drops, ingressDrops;
      status, bytes, drops, ingressDrops := PopOne(sink, drain, sink.ring.buffer.Length);
      ghost var delivered := if status == Ok then 1 else 0;
      AccountsMore(|entries| + dropped, delivered + drops + ingressDrops, old(drain.lastHandledSequenceId), before, drain.lastHandledSequenceId);
      if status == Ok {
        entries := entries + [bytes];
      }
      dropped := dropped + drops + ingressDrops;
    }
  }

  /**
   A run, and then pops until the drain is caught up: entries delivered and drops reported by both are the ids from the one
   the drain handled last, wherever it started, to the last one given out, modulo 2^32. If it was caught up before,
   these are all the ids given out meanwhile.
   */
  method RunCaughtUp(sink: MultiSink, drain: Drain, ops: seq<Operation>)
    returns (reports: seq<Report>, entries: seq<Bytes>, dropped: nat)
    requires sink.Valid() && drain.reader in sink.ring.readers
    requires forall i :: 0 <= i < |ops| ==> Proper(ops[i])
    modifies sink, sink.ring`writeIdx, sink.ring`log, sink.ring.buffer, sink.ring.readers, drain
    ensures sink.Valid() && sink.CaughtUp(drain) && |reports| == |ops|
    ensures AccountsFor(TotalOf(reports) + |entries| + dropped, old(drain.lastHandledSequenceId), Minus(sink.sequenceId, 1))
    ensures old(sink.CaughtUp(drain)) ==> Wrap(TotalOf(reports) + |entries| + dropped) == Wrap(Ingested(ops))
    ensures old(sink.Placed(drain)) && |sink.fates| < TWO_TO_THE_32 ==>
      TotalOf(reports) + |entries| + dropped == |sink.fates| - old(drain.next)
  {
    hide Follows, AccountsFor, Plus, Wrap, TotalOf, Ingested, Proper;
    hide Told, Stands, Recorded, FrontOf, AfterTold, IngressTold, OnlyIngress;
    ghost var first, firstId := drain.lastHandledSequenceId, sink.sequenceId;
    reports := Run(sink, drain, ops);
    ghost var middle := drain.lastHandledSequenceId;
    entries, dropped := CatchUp(sink, drain);
    AccountsMore(TotalOf(reports), |entries| + dropped, first, middle, drain.lastHandledSequenceId);
    if old(sink.CaughtUp(drain)) {
      CaughtUpTwice(TotalOf(reports) + (|entries| + dropped), first, drain.lastHandledSequenceId, firstId, sink.sequenceId, ops);
    }
    assert TotalOf(reports) + (|entries| + dropped) == TotalOf(reports) + |entries| + dropped;
  }

  // ---------------------------------------------------------------- drops on the way in

  /**
   What was dropped on the way in while a drain was caught up is what its next pop reports as such, with no other drop,
   whether there is an entry behind it or nothing.
   */
  method PopAfterDrops(sink: MultiSink, drain: Drain, count: Uint32, entry: bool, data: Bytes)
    returns (status: Status, bytes: Bytes, dropped: nat, ingressDropped: nat)
    requires sink.Valid() && drain.reader in sink.ring.readers
    requires sink.Placed(drain) && sink.CaughtUp(drain) && |sink.fates| + count + 1 < TWO_TO_THE_32
    requires |data| < TWO_TO_THE_32
    requires |Encoded(true, Item(Plus(sink.sequenceId, count), data))| <= sink.ring.buffer.Length
    modifies sink, sink.ring`writeIdx, sink.ring`log, sink.ring.buffer, sink.ring.readers, drain
    ensures sink.Valid() && sink.Placed(drain)
    ensures dropped == 0 && ingressDropped == count
    ensures status == (if entry then Ok else OutOfRange) && (entry ==> bytes == data)
  {
    hide Follows, AccountsFor, Told, Stands, Recorded, FrontOf, AfterTold, OnlyIngress, Encoded, Drops, Outstanding, Wrap;
    ghost var fates, standing := sink.fates, drain.Standing();
    NoEntry(fates, sink.ring.log, sink.sequenceId, sink.totalIngressDrops);
    CaughtUpAtTheEnd(fates, sink.Front(drain.reader), standing);
    ghost var front := sink.Front(drain.reader);
    StandsSeen(fates, front, standing);
    sink.HandleDropped(count);
    StandsOn(fates, front, sink.fates, sink.Front(drain.reader), standing);
    OnlyDrops(fates, count, []);
    assert sink.fates + [] == sink.fates;
    if entry {
      front := sink.Front(drain.reader);
      ghost var dropsToo := sink.fates;
      sink.HandleEntry(data);
      StandsOn(dropsToo, front, sink.fates, sink.Front(drain.reader), standing);
      OnlyDrops(fates, count, [Pushed]);
      QueueWithin(sink.ring, drain.reader);
      NextIsFront(sink.ring, drain.reader);
    }
    status, bytes, dropped, ingressDropped := PopOne(sink, drain, sink.ring.buffer.Length);
  }

  /**
   Where that fails. A report of a gap leaves as many ingress drops counted as unreported as it told of, and not those
   that it did not tell of. So when a gap is read late, the next one made of three ingress drops is told as two and one other.
   */
  method IngressDropToldAsOther() returns (firstDropped: nat, firstIngress: nat, dropped: nat, ingressDropped: nat)
    ensures firstDropped == 0 && firstIngress == 2
    ensures dropped == 1 && ingressDropped == 2
  {
    hide Follows, AccountsFor, Told, AfterTold, Stands, Recorded, FrontOf, OnlyIngress, IngressTold, Drops, Wrap;
    hide IngressDrops, Last;
    var buffer := new Byte[64];
    var sink := new MultiSink(buffer);
    var drain := sink.oldestEntryDrain;
    DropsAroundEntry(sink, drain);
    FiveOfSix(sink.fates);
    ghost var standing := drain.Standing();
    var status, bytes;
    status, bytes, firstDropped, firstIngress := PopOne(sink, drain, 64);
    TwoOfFive(sink.fates, standing, firstDropped, firstIngress);
    standing := drain.Standing();
    NoEntry(sink.fates, sink.ring.log, sink.sequenceId, sink.totalIngressDrops);
    status, bytes, dropped, ingressDropped := PopOne(sink, drain, 64);
    TwoOfThree(sink.fates, standing, dropped, ingressDropped);
  }

  /** Two drops on the way in, an entry, and three more. */
  method DropsAroundEntry(sink: MultiSink, drain: Drain)
    requires sink.Valid() && drain.reader in sink.ring.readers && sink.Placed(drain) && sink.CaughtUp(drain)
    requires sink.fates == [] && sink.ring.buffer.Length == 64
    modifies sink, sink.ring`writeIdx, sink.ring`log, sink.ring.buffer, sink.ring.readers
    ensures sink.Valid() && sink.Placed(drain) && drain.reader.entryCount == 1 && sink.Front(drain.reader) == 2
    ensures sink.fates == [] + Drops(2) + [Pushed] + Drops(3)
  {
    hide Follows, Stands, Recorded, FrontOf, Encoded, Drops, Wrap, Last;
    ghost var front, standing := sink.Front(drain.reader), drain.Standing();
    sink.HandleDropped(2);
    SmallEntry(sink.sequenceId, [1]);
    sink.HandleEntry([1]);
    sink.HandleDropped(3);
    StandsSeen([], front, standing);
    StandsOn([], front, sink.fates, sink.Front(drain.reader), standing);
  }

  lemma TwoOfFive(fates: Fates, s: Standing, dropped: nat, ingressDropped: nat)
    requires s.next == s.seen == s.carried == 0 && |fates| == 6 && IngressDrops(fates) == IngressDrops(fates[0..]) == 5
    requires Told(fates, 2, s, dropped, ingressDropped)
    ensures dropped == 0 && ingressDropped == 2 && AfterTold(fates, 2, s, ingressDropped) == (6, 2)
  {
    hide IngressDrops;
  }

  lemma TwoOfThree(fates: Fates, s: Standing, dropped: nat, ingressDropped: nat)
    requires s.next == 3 && s.seen == 6 && s.carried == 2 && |fates| == 6 && IngressDrops(fates[6..]) == 0
    requires Told(fates, 6, s, dropped, ingressDropped)
    ensures dropped == 1 && ingressDropped == 2
  {
    hide IngressDrops;
  }

  /** And where an entry that was too large is told as an ingress drop, though all of these have been told of before. */
  method OtherDropToldAsIngress() returns (first: nat, second: nat, dropped: nat, ingressDropped: nat)
    ensures first == 2 && second == 3
    ensures dropped == 0 && ingressDropped == 1
  {
    hide Follows, AccountsFor, Stands, Recorded, FrontOf, OnlyIngress, IngressTold, Encoded, Drops, Wrap, IngressDrops, Last;
    hide Told, AfterTold;
    var buffer := new Byte[64];
    var sink := new MultiSink(buffer);
    var drain := sink.oldestEntryDrain;
    first, second := DropTwice(sink, drain);
    var status, bytes;
    ghost var start, fates, standing := sink.Front(drain.reader), sink.fates, drain.Standing();
    sink.HandleEntry(seq(64, _ => 0));
    NoneOfTheLast(fates, sink.fates);
    StandsOn(fates, start, sink.fates, sink.Front(drain.reader), standing);
    NoEntry(sink.fates, sink.ring.log, sink.sequenceId, sink.totalIngressDrops);
    ghost var front := sink.Front(drain.reader);
    status, bytes, dropped, ingressDropped := PopOne(sink, drain, 64);
    OneOfThree(sink.fates, front, standing, dropped, ingressDropped);
  }

  lemma OneOfThree(fates: Fates, front: nat, s: Standing, dropped: nat, ingressDropped: nat)
    requires s.next == s.seen == 5 && s.carried == 3 && |fates| == front == 6 && IngressDrops(fates[5..]) == 0
    requires Told(fates, front, s, dropped, ingressDropped)
    ensures dropped == 0 && ingressDropped == 1
  {
    hide IngressDrops;
  }

  /** Two reports of drops to a drain that has nothing to read. */
  method DropTwice(sink: MultiSink, drain: Drain) returns (first: nat, second: nat)
    requires sink.Valid() && drain.reader in sink.ring.readers && sink.Placed(drain) && drain.reader.entryCount == 0
    requires sink.fates == [] && drain.next == drain.seen == drain.carried == 0
    modifies sink, drain, drain.reader
    ensures sink.Valid() && sink.Placed(drain) && drain.reader.entryCount == 0
    ensures first == 2 && second == 3
    ensures |sink.fates| == 5 && drain.next == drain.seen == 5 && drain.carried == 3
  {
    hide Follows, AccountsFor, Stands, Recorded, FrontOf, OnlyIngress, IngressTold, Encoded, Drops, Wrap, IngressDrops, Last;
    var status, bytes, other;
    ghost var start, fates, standing := sink.Front(drain.reader), sink.fates, drain.Standing();
    sink.HandleDropped(2);
    TwoDrops(sink.fates);
    StandsOn(fates, start, sink.fates, sink.Front(drain.reader), standing);
    status, bytes, other, first := PopOne(sink, drain, 64);
    start, fates, standing := sink.Front(drain.reader), sink.fates, drain.Standing();
    sink.HandleDropped(3);
    FiveDrops(sink.fates);
    StandsOn(fates, start, sink.fates, sink.Front(drain.reader), standing);
    status, bytes, other, second := PopOne(sink, drain, 64);
  }

  lemma TwoDrops(fates: Fates)
    requires fates == [] + Drops(2)
    ensures |fates| == 2 && IngressDrops(fates) == IngressDrops(fates[0..]) == 2
  {
    hide Drops;
    DropsMore([], 2);
    assert fates[0..] == fates;
  }

  lemma FiveDrops(fates: Fates)
    requires fates == [] + Drops(2) + Drops(3)
    ensures |fates| == 5 && IngressDrops(fates) == 5 && IngressDrops(fates[2..]) == 3
  {
    hide Drops;
    DropsMore([], 2);
    DropsMore([] + Drops(2), 3);
    IngressDropsIn(fates, 2);
    assert fates[..2] == [] + Drops(2);
  }

  lemma NoneOfTheLast(fates: Fates, more: Fates)
    requires more == fates + [Lost]
    ensures |more| == |fates| + 1 && IngressDrops(more) == IngressDrops(fates) && IngressDrops(more[|fates|..]) == 0
  {
    assert more[|fates|..] == [] + [Lost];
    OneFateMore([], Lost);
    OneFateMore(fates, Lost);
  }

  lemma SmallEntry(id: Uint32, data: Bytes)
    requires |data| == 1
    ensures |Encoded(true, Item(id, data))| <= 64
  {
    hide Encode;
    EncodedSize(LEB128, id);
    EncodedSize(LEB128, 1);
  }

  lemma FiveOfSix(fates: Fates)
    requires fates == [] + Drops(2) + [Pushed] + Drops(3)
    ensures |fates| == 6 && IngressDrops(fates) == IngressDrops(fates[0..]) == 5 && IngressDrops(fates[6..]) == 0
  {
    hide Drops;
    DropsMore([], 2);
    OneFateMore([] + Drops(2), Pushed);
    DropsMore([] + Drops(2) + [Pushed], 3);
    assert fates[0..] == fates && fates[6..] == [];
  }
}
