/**
 What became of every sequence id that a multisink gave out, and what a drain that has handled some of them is told
 of the others. Ids and counts are 32-bit numbers that wrap around.
 */
module MultisinkHistory {
  import opened Varint
  import opened Division
  import opened RingLayout

  /** What is left of a number in 32 bits. */
  function Wrap(n: nat): Uint32 {
    n % TWO_TO_THE_32
  }

  function Plus(a: nat, b: nat): Uint32 {
    Wrap(a + b)
  }

  function Minus(a: Uint32, b: Uint32): Uint32 {
    if b <= a then a - b else a + TWO_TO_THE_32 - b
  }

  lemma OneLess(n: Uint32)
    ensures Plus(Minus(n, 1), 1) == n
  {
  }

  function Min(a: nat, b: nat): nat {
    if b < a then b else a
  }

  lemma WrapIs(n: nat, turns: nat, r: Uint32)
    requires n == turns * TWO_TO_THE_32 + r
    ensures Wrap(n) == r
  {
    DivideBetween(n, TWO_TO_THE_32, turns);
  }

  lemma Turns(n: nat) returns (turns: nat)
    ensures n == turns * TWO_TO_THE_32 + Wrap(n)
  {
    turns := n / TWO_TO_THE_32;
  }

  /** An id goes to an entry in the buffer, to one that is too large for it, or to a drop reported from outside. */
  datatype Fate = Pushed | Lost | IngressDropped

  type Fates = seq<Fate>

  /** Where the entries are that went to the buffer. */
  function PushedAt(fates: Fates): (positions: seq<nat>)
    ensures forall k :: 0 <= k < |positions| ==> positions[k] < |fates| && fates[positions[k]] == Pushed
  {
    if fates == [] then []
    else
      var n := |fates| - 1;
      PushedAt(fates[..n]) + if fates[n] == Pushed then [n] else []
  }

  function IngressDrops(fates: Fates): (n: nat)
    ensures n <= |fates|
  {
    if fates == [] then 0
    else
      var n := |fates| - 1;
      IngressDrops(fates[..n]) + if fates[n] == IngressDropped then 1 else 0
  }

  lemma OneFateMore(fates: Fates, fate: Fate)
    ensures PushedAt(fates + [fate]) == PushedAt(fates) + if fate == Pushed then [|fates|] else []
    ensures IngressDrops(fates + [fate]) == IngressDrops(fates) + if fate == IngressDropped then 1 else 0
  {
    assert (fates + [fate])[..|fates|] == fates;
  }

  function Drops(n: nat): (drops: Fates)
    ensures |drops| == n
  {
    seq(n, _ => IngressDropped)
  }

  lemma {:induction false} DropsMore(fates: Fates, n: nat)
    ensures PushedAt(fates + Drops(n)) == PushedAt(fates)
    ensures IngressDrops(fates + Drops(n)) == IngressDrops(fates) + n
  {
    if n == 0 {
      assert fates + Drops(n) == fates;
    } else {
      DropsMore(fates, n - 1);
      OneFateMore(fates + Drops(n - 1), IngressDropped);
      assert fates + Drops(n) == fates + Drops(n - 1) + [IngressDropped];
    }
  }

  lemma {:induction false} IngressDropsConcat(first: Fates, second: Fates)
    ensures IngressDrops(first + second) == IngressDrops(first) + IngressDrops(second)
  {
    if second == [] {
      assert first + second == first;
    } else {
      var n := |second| - 1;
      assert (first + second)[..|first + second| - 1] == first + second[..n];
      IngressDropsConcat(first, second[..n]);
    }
  }

  lemma IngressDropsIn(fates: Fates, from: nat)
    requires from <= |fates|
    ensures IngressDrops(fates) == IngressDrops(fates[..from]) + IngressDrops(fates[from..])
  {
    assert fates == fates[..from] + fates[from..];
    IngressDropsConcat(fates[..from], fates[from..]);
  }

  lemma {:induction false} PushedInOrder(fates: Fates, i: nat, j: nat)
    requires i < j < |PushedAt(fates)|
    ensures PushedAt(fates)[i] < PushedAt(fates)[j]
  {
    var n := |fates| - 1;
    if j < |PushedAt(fates[..n])| {
      PushedInOrder(fates[..n], i, j);
    }
  }

  /** The numbers a sink keeps, and the ids its entries carry, are those of this history, as far as 32 bits show it. */
  ghost predicate Recorded(fates: Fates, log: Log, sequenceId: Uint32, totalIngressDrops: Uint32) {
    && sequenceId == Wrap(|fates|) && totalIngressDrops == Wrap(IngressDrops(fates))
    && |PushedAt(fates)| == |log|
    && forall k :: 0 <= k < |log| ==> log[k].preamble == Wrap(PushedAt(fates)[k])
  }

  lemma PlusWraps(n: nat, more: nat)
    ensures Plus(Wrap(n), more) == Wrap(n + more)
  {
    hide Wrap;
    var p := Turns(n);
    var q := Turns(Wrap(n) + more);
    WrapIs(n + more, p + q, Wrap(Wrap(n) + more));
  }

  lemma RecordedEntry(fates: Fates, log: Log, sequenceId: Uint32, totalIngressDrops: Uint32, fate: Fate, data: Bytes)
    requires Recorded(fates, log, sequenceId, totalIngressDrops) && fate != IngressDropped
    ensures |PushedAt(fates)| == |log|
    ensures Recorded(fates + [fate], if fate == Pushed then log + [Item(sequenceId, data)] else log,
                     Plus(sequenceId, 1), totalIngressDrops)
  {
    hide Wrap, Plus, PushedAt, IngressDrops;
    OneFateMore(fates, fate);
    PlusWraps(|fates|, 1);
  }

  lemma RecordedDrops(fates: Fates, log: Log, sequenceId: Uint32, totalIngressDrops: Uint32, n: nat)
    requires Recorded(fates, log, sequenceId, totalIngressDrops)
    ensures |PushedAt(fates)| == |log|
    ensures Recorded(fates + Drops(n), log, Plus(sequenceId, n), Plus(totalIngressDrops, n))
  {
    hide Wrap, Plus, PushedAt, IngressDrops;
    DropsMore(fates, n);
    PlusWraps(|fates|, n);
    PlusWraps(IngressDrops(fates), n);
  }

  /** The id of the oldest of the last so many entries, or that of the next one to come if there is none. */
  function FrontOf(fates: Fates, count: nat): (front: nat)
    ensures front <= |fates|
  {
    var at := PushedAt(fates);
    if 0 < count <= |at| then at[|at| - count] else |fates|
  }

  lemma FrontAfterPush(fates: Fates, count: nat, count': nat)
    requires count <= |PushedAt(fates)| && 0 < count' <= count + 1
    ensures FrontOf(fates, count) <= FrontOf(fates + [Pushed], count')
    ensures count' == 1 ==> FrontOf(fates + [Pushed], count') == |fates|
  {
    hide PushedAt;
    OneFateMore(fates, Pushed);
    var at := PushedAt(fates);
    if 1 < count' <= count {
      PushedInOrder(fates, |at| - count, |at| + 1 - count');
    }
  }

  lemma FrontAfterDrop(fates: Fates, more: Fates, count: nat)
    requires PushedAt(fates + more) == PushedAt(fates)
    ensures FrontOf(fates, count) <= FrontOf(fates + more, count)
    ensures 0 < count <= |PushedAt(fates)| ==> FrontOf(fates + more, count) == FrontOf(fates, count)
    ensures FrontOf(fates + more, 0) == |fates + more|
  {
    hide PushedAt;
  }

  /** The entry in front has the id at the front, and the next one a later id. */
  lemma FrontEntry(fates: Fates, log: Log, sequenceId: Uint32, totalIngressDrops: Uint32, count: nat)
    requires Recorded(fates, log, sequenceId, totalIngressDrops) && 0 < count <= |log|
    ensures log[|log| - count].preamble == Wrap(FrontOf(fates, count))
    ensures FrontOf(fates, count) < FrontOf(fates, count - 1)
  {
    hide PushedAt, Wrap;
    var at := PushedAt(fates);
    if 1 < count {
      PushedInOrder(fates, |at| - count, |at| - count + 1);
    }
  }

  lemma NoEntry(fates: Fates, log: Log, sequenceId: Uint32, totalIngressDrops: Uint32)
    requires Recorded(fates, log, sequenceId, totalIngressDrops)
    ensures FrontOf(fates, 0) == |fates| && sequenceId == Wrap(|fates|) && totalIngressDrops == Wrap(IngressDrops(fates))
  {
  }

  // ---------------------------------------------------------------- drains

  /**
   What a drain remembers, and what that stands for: it has handled the first `next` ids, and when it was last told of
   a gap, `seen` ids had been given out, of which the ingress drops but `carried` count as reported.
   */
  datatype Standing = Standing(lastId: Uint32, lastIngressDrops: Uint32, next: nat, seen: nat, carried: nat)

  /** The drain's numbers are what they stand for; the count of ingress drops, as long as there are less than 2^32 ids. */
  ghost predicate Stands(fates: Fates, front: nat, s: Standing) {
    && s.next <= front <= |fates| && s.seen <= |fates|
    && s.lastId == Minus(Wrap(s.next), 1)
    && (|fates| < TWO_TO_THE_32 ==> CountsFrom(fates, s))
  }

  ghost predicate CountsFrom(fates: Fates, s: Standing)
    requires s.seen <= |fates|
  {
    s.lastIngressDrops + s.carried == IngressDrops(fates[..s.seen])
  }

  /** The ingress drops that still count as unreported. */
  function Outstanding(fates: Fates, s: Standing): nat
    requires s.seen <= |fates|
  {
    s.carried + IngressDrops(fates[s.seen..])
  }

  /** More ids leave a drain where it stands, as long as its next entry does not move back. */
  lemma StandsOn(fates: Fates, front: nat, fates': Fates, front': nat, s: Standing)
    requires Stands(fates, front, s) && fates <= fates' && front <= front' <= |fates'|
    ensures Stands(fates', front', s)
  {
    assert fates'[..s.seen] == fates[..s.seen];
  }

  /** A drain that handles the entry in front, or with none there all ids, stands behind it. */
  lemma StandsBehind(fates: Fates, front: nat, front': nat, s: Standing)
    requires Stands(fates, front, s) && front < front' <= |fates|
    ensures Stands(fates, front', s.(lastId := Wrap(front), next := front + 1))
  {
    Handled(front);
  }

  lemma StandsAtTheEnd(fates: Fates, front: nat, s: Standing)
    requires Stands(fates, front, s)
    ensures Stands(fates, |fates|, s.(lastId := Minus(Wrap(|fates|), 1), next := |fates|))
  {
  }

  lemma StandsSeen(fates: Fates, front: nat, s: Standing)
    requires Stands(fates, front, s)
    ensures s.next <= front <= |fates| && s.seen <= |fates|
  {
  }

  /** The counts that a drain is given for the gap in front of its next entry. */
  ghost predicate Told(fates: Fates, front: nat, s: Standing, dropped: nat, ingressDropped: nat) {
    && s.next <= front && s.seen <= |fates|
    && dropped + ingressDropped == front - s.next
    && ingressDropped == Min(front - s.next, Outstanding(fates, s))
  }

  /** What the drain remembers of it. A gap that is told of settles all ingress drops, or leaves as many as it told of. */
  function AfterTold(fates: Fates, front: nat, s: Standing, ingressDropped: nat): (nat, nat) {
    if front == s.next then (s.seen, s.carried)
    else (|fates|, if ingressDropped < IngressDrops(fates) then ingressDropped else 0)
  }

  /** One step of the count, on the numbers a drain and its sink keep. */
  predicate Counted(lastId: Uint32, lastIngressDrops: Uint32, totalIngressDrops: Uint32, id: Uint32, found: bool,
                    dropped: Uint32, ingressDropped: Uint32, lastIngressDrops': Uint32)
  {
    && dropped + ingressDropped == (if found then Minus(Minus(id, lastId), 1) else Minus(id, lastId))
    && ingressDropped == Min(dropped + ingressDropped, Minus(totalIngressDrops, lastIngressDrops))
    && lastIngressDrops' ==
        if dropped + ingressDropped == 0 then lastIngressDrops
        else if ingressDropped < totalIngressDrops then totalIngressDrops - ingressDropped
        else totalIngressDrops
  }

  /** With less than 2^32 ids, the last id that was handled tells how many were. */
  lemma CaughtUpAtTheEnd(fates: Fates, front: nat, s: Standing)
    requires Stands(fates, front, s) && |fates| < TWO_TO_THE_32 && s.lastId == Minus(Wrap(|fates|), 1)
    ensures s.next == |fates|
  {
    hide Wrap;
    WrapSmall(|fates|);
    WrapSmall(s.next);
  }

  lemma OnlyDrops(fates: Fates, count: nat, more: Fates)
    ensures OnlyIngress(fates + Drops(count) + more, |fates|, |fates| + count)
  {
    forall p | |fates| <= p < |fates| + count
      ensures (fates + Drops(count) + more)[p] == IngressDropped
    {
      assert (fates + Drops(count) + more)[p] == Drops(count)[p - |fates|];
    }
  }

  lemma WrapSmall(n: nat)
    requires n < TWO_TO_THE_32
    ensures Wrap(n) == n
  {
    WrapIs(n, 0, n);
  }

  lemma Handled(front: nat)
    ensures Minus(Wrap(front + 1), 1) == Wrap(front)
  {
    hide Wrap;
    var p := Turns(front);
    if Wrap(front) == TWO_TO_THE_32 - 1 {
      WrapIs(front + 1, p + 1, 0);
    } else {
      WrapIs(front + 1, p, Wrap(front) + 1);
    }
  }

  /** With less than 2^32 ids, the numbers tell what they stand for. */
  lemma CountedIsTold(fates: Fates, front: nat, s: Standing, totalIngressDrops: Uint32, id: Uint32, found: bool,
                      dropped: Uint32, ingressDropped: Uint32, lastIngressDrops': Uint32)
    requires Stands(fates, front, s) && |fates| < TWO_TO_THE_32 && totalIngressDrops == Wrap(IngressDrops(fates))
    requires id == (if found then Wrap(front) else Minus(Wrap(front), 1)) && (found || front == |fates|)
    requires Counted(s.lastId, s.lastIngressDrops, totalIngressDrops, id, found, dropped, ingressDropped, lastIngressDrops')
    ensures Told(fates, front, s, dropped, ingressDropped)
    ensures var (seen, carried) := AfterTold(fates, front, s, ingressDropped);
      seen <= |fates| && CountsFrom(fates, s.(lastIngressDrops := lastIngressDrops', seen := seen, carried := carried))
  {
    hide Wrap, IngressDrops, Minus;
    GapSize(front, s.next, s.lastId, id, found);
    WrapSmall(IngressDrops(fates));
    IngressDropsIn(fates, s.seen);
    UnreportedSize(IngressDrops(fates), s.lastIngressDrops);
    assert fates[..|fates|] == fates;
  }

  lemma GapSize(front: nat, next: nat, lastId: Uint32, id: Uint32, found: bool)
    requires next <= front < TWO_TO_THE_32 && lastId == Minus(Wrap(next), 1)
    requires id == if found then Wrap(front) else Minus(Wrap(front), 1)
    ensures (if found then Minus(Minus(id, lastId), 1) else Minus(id, lastId)) == front - next
  {
    hide Wrap;
    WrapSmall(front);
    WrapSmall(next);
  }

  lemma UnreportedSize(total: Uint32, last: Uint32)
    requires last <= total
    ensures Minus(total, last) == total - last
  {
  }

  /** Every id of the gap was dropped on the way in. */
  ghost predicate OnlyIngress(fates: Fates, from: nat, to: nat) {
    from <= to <= |fates| && forall p :: from <= p < to ==> fates[p] == IngressDropped
  }

  lemma {:induction false} OnlyIngressCount(fates: Fates, from: nat, to: nat)
    requires OnlyIngress(fates, from, to)
    ensures IngressDrops(fates[from..to]) == to - from
  {
    if from < to {
      OnlyIngressCount(fates, from, to - 1);
      assert fates[from..to][..to - from - 1] == fates[from..to - 1];
    }
  }

  /**
   What a drain is told of so many ids that were all dropped on the way in. It is told right exactly if no more than that
   count as unreported, which is so whenever it was told of no gap since these ids were given out.
   */
  ghost predicate IngressTold(fates: Fates, s: Standing, gap: int, dropped: nat, ingressDropped: nat) {
    && s.seen <= |fates| && dropped + ingressDropped == gap
    && (dropped == 0 <==> gap <= Outstanding(fates, s))
    && (s.seen <= s.next ==> dropped == 0)
  }

  lemma IngressGapTold(fates: Fates, front: nat, s: Standing, dropped: nat, ingressDropped: nat)
    requires Stands(fates, front, s) && Told(fates, front, s, dropped, ingressDropped)
    requires OnlyIngress(fates, s.next, front)
    ensures IngressTold(fates, s, front - s.next, dropped, ingressDropped)
  {
    hide IngressDrops, OnlyIngress;
    if s.seen <= s.next {
      OnlyIngressCount(fates, s.next, front);
      var rest := fates[s.seen..];
      var a, b := s.next - s.seen, front - s.seen;
      IngressDropsIn(rest, b);
      IngressDropsIn(rest[..b], a);
      assert rest[..b][a..] == fates[s.next..front];
    }
  }

  lemma ToldIsGap(fates: Fates, front: nat, s: Standing, dropped: nat, ingressDropped: nat)
    requires Told(fates, front, s, dropped, ingressDropped)
    ensures dropped + ingressDropped == front - s.next
  {
  }
}
