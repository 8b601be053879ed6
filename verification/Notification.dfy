/**
 Thread notifications on FreeRTOS as a state machine: pw_sync_freertos/timed_thread_notification.cc and
 thread_notification.cc. A step is one critical section, one return of the wait for a task notification, or
 one release; releases come at any time, from any number of tasks and interrupts. There is one acquirer.
 */
module Notification {

  datatype Option<+T> = None | Some(value: T)

  /** Where the acquirer is: outside, in the loop that waits, or on its way to the closing critical section. */
  datatype Phase = Idle | Waiting(timed: bool) | Leaving(timed: bool)

  /** The shared fields, and whether the acquirer's task has a notification it has not received. */
  datatype State = State(phase: Phase, blocked: bool, notified: bool, pending: bool)

  const START := State(Idle, false, false, false)

  datatype Event =
    | Release
    | TryAcquire
    | Acquire(timed: bool, expired: bool)  // the first critical section; the deadline may have passed
    | Wake                                 // the wait returns because of a notification
    | NoWake(expired: bool)                // the wait returns for another reason, or the deadline has passed
    | Finish                               // the closing critical section

  predicate Enabled(s: State, e: Event) {
    match e
    case Release => true
    case TryAcquire => s.phase == Idle
    case Acquire(_, _) => s.phase == Idle
    case Wake => s.phase.Waiting? && s.pending
    case NoWake(_) => s.phase.Waiting?
    case Finish => s.phase.Leaving?
  }

  function Step(s: State, e: Event): State
    requires Enabled(s, e)
  {
    match e
    case Release =>
      s.(pending := s.pending || s.blocked, blocked := false, notified := true)
    case TryAcquire =>
      s.(notified := false)
    case Acquire(timed, expired) =>
      if s.notified || (timed && expired) then s.(notified := false)
      else s.(blocked := true, phase := Waiting(timed))
    case Wake =>
      s.(pending := false, phase := Leaving(s.phase.timed))
    case NoWake(expired) =>
      if s.phase.timed && expired then s.(phase := Leaving(true)) else s
    case Finish =>
      if s.phase.timed then State(Idle, false, false, false) else s.(notified := false, phase := Idle)
  }

  /** What a call that ends with this step returns. An untimed acquire returns only when it has acquired. */
  function Returned(s: State, e: Event): Option<bool>
    requires Enabled(s, e)
  {
    match e
    case TryAcquire => Some(s.notified)
    case Acquire(timed, expired) => if s.notified || (timed && expired) then Some(s.notified) else None
    case Finish => Some(s.phase.timed ==> s.notified)
    case _ => None
  }

  /** A task notification is sent. */
  predicate Sends(s: State, e: Event) {
    e == Release && s.blocked
  }

  // ---------------------------------------------------------------- runs

  type History = seq<Event>

  /** Each event was possible when it happened. */
  predicate Legal(h: History)
    decreases |h|, 0
  {
    h == [] || (Legal(h[..|h| - 1]) && Enabled(Now(h[..|h| - 1]), h[|h| - 1]))
  }

  function Now(h: History): State
    requires Legal(h)
    decreases |h|, 1
  {
    if h == [] then START else Step(Now(h[..|h| - 1]), h[|h| - 1])
  }

  /** A release happened since a call last returned. */
  predicate ReleasedSince(h: History)
    requires Legal(h)
  {
    h != [] &&
    var before, e := h[..|h| - 1], h[|h| - 1];
    e == Release || (Returned(Now(before), e) == None && ReleasedSince(before))
  }

  /** How many task notifications were sent since the acquirer last registered for one. */
  function SentSince(h: History): nat
    requires Legal(h)
  {
    if h == [] then 0
    else
      var before, e := h[..|h| - 1], h[|h| - 1];
      if e.Acquire? then 0 else SentSince(before) + if Sends(Now(before), e) then 1 else 0
  }

  /** The states there can be: who is registered, who was notified, and what is pending fit together. */
  predicate Consistent(s: State) {
    match s.phase
    case Idle => !s.blocked && !s.pending
    case Waiting(_) => s.blocked == !s.pending && (s.pending ==> s.notified) && (s.blocked ==> !s.notified)
    case Leaving(timed) =>
      if s.blocked then timed && !s.pending && !s.notified
      else s.notified && (s.pending ==> timed)
  }

  lemma StepKeepsConsistent(s: State, e: Event)
    requires Consistent(s) && Enabled(s, e)
    ensures Consistent(Step(s, e))
  {
  }

  lemma {:induction false} AlwaysConsistent(h: History)
    requires Legal(h)
    ensures Consistent(Now(h))
  {
    if h != [] {
      AlwaysConsistent(h[..|h| - 1]);
      StepKeepsConsistent(Now(h[..|h| - 1]), h[|h| - 1]);
    }
  }

  /** The flag says exactly whether there was a release since a call last returned: none is lost, none made up. */
  lemma {:induction false} NotifiedIsReleased(h: History)
    requires Legal(h)
    ensures Now(h).notified == ReleasedSince(h)
  {
    if h != [] {
      NotifiedIsReleased(h[..|h| - 1]);
      AlwaysConsistent(h[..|h| - 1]);
    }
  }

  /** Every call returns whether a release happened since a call last returned, however steps interleave. */
  lemma ReturnsWhetherReleased(h: History, e: Event)
    requires Legal(h) && Enabled(Now(h), e) && Returned(Now(h), e) != None
    ensures Returned(Now(h), e) == Some(ReleasedSince(h))
  {
    NotifiedIsReleased(h);
    AlwaysConsistent(h);
  }

  /** A release is not lost: if no call has returned since, the next one that returns is told of it. */
  lemma {:induction false} NoReleaseLost(h: History, i: nat, e: Event)
    requires Legal(h) && i < |h| && h[i] == Release
    requires forall k :: i < k < |h| ==> Legal(h[..k]) && Enabled(Now(h[..k]), h[k]) && Returned(Now(h[..k]), h[k]) == None
    requires Enabled(Now(h), e) && Returned(Now(h), e) != None
    ensures Returned(Now(h), e) == Some(true)
  {
    StillReleased(h, i);
    ReturnsWhetherReleased(h, e);
  }

  lemma {:induction false} StillReleased(h: History, i: nat)
    requires Legal(h) && i < |h| && h[i] == Release
    requires forall k :: i < k < |h| ==> Legal(h[..k]) && Enabled(Now(h[..k]), h[k]) && Returned(Now(h[..k]), h[k]) == None
    ensures ReleasedSince(h)
  {
    hide Step, Enabled, Returned;
    var n := |h| - 1;
    if i < n {
      forall k | i < k < n
        ensures h[..n][..k] == h[..k] && h[..n][k] == h[k]
      {
      }
      assert h[..n] == h[..|h| - 1] && Returned(Now(h[..n]), h[n]) == None;
      StillReleased(h[..n], i);
    }
  }

  /** At most one task notification is sent for each registration. */
  lemma {:induction false} OneNotification(h: History)
    requires Legal(h)
    ensures SentSince(h) <= 1
    ensures Now(h).blocked ==> SentSince(h) == 0
  {
    if h != [] {
      OneNotification(h[..|h| - 1]);
      AlwaysConsistent(h[..|h| - 1]);
    }
  }

  /** Whenever an acquire begins, nobody is registered and no task notification is left over: its checks hold. */
  lemma NothingLeftOver(h: History, timed: bool, expired: bool)
    requires Legal(h) && Enabled(Now(h), Acquire(timed, expired))
    ensures !Now(h).blocked && !Now(h).pending
  {
    AlwaysConsistent(h);
  }

  /** An acquirer that waits while there was a release can wake up: its task notification is pending. */
  lemma NoLostWakeup(h: History)
    requires Legal(h) && Now(h).phase.Waiting? && ReleasedSince(h)
    ensures Enabled(Now(h), Wake) && Legal(h + [Wake])
  {
    AlwaysConsistent(h);
    NotifiedIsReleased(h);
    assert (h + [Wake])[..|h|] == h;
  }

  /** An untimed acquire leaves its loop only after a release, and then is the one who consumes it. */
  lemma UntimedIsReleased(h: History)
    requires Legal(h) && Now(h).phase == Leaving(false)
    ensures ReleasedSince(h) && SentSince(h) <= 1
  {
    AlwaysConsistent(h);
    NotifiedIsReleased(h);
    OneNotification(h);
  }

  // ---------------------------------------------------------------- waiting

  /** An acquire that finds no release and whose deadline has not passed registers and waits. */
  lemma UnreleasedWaits(h: History, timed: bool, expired: bool)
    requires Legal(h) && Enabled(Now(h), Acquire(timed, expired)) && !ReleasedSince(h) && !(timed && expired)
    ensures var s := Step(Now(h), Acquire(timed, expired));
      s.phase == Waiting(timed) && s.blocked && Returned(Now(h), Acquire(timed, expired)) == None
  {
    NotifiedIsReleased(h);
  }

  /** Only a task notification, or a deadline if there is one, ends a wait; a spurious wake-up changes nothing. */
  lemma OnlyWokenOrExpired(h: History, e: Event)
    requires Legal(h) && Now(h).phase.Waiting? && Enabled(Now(h), e)
    ensures Returned(Now(h), e) == None
    ensures Step(Now(h), e).phase == Now(h).phase <==> e != Wake && !(Now(h).phase.timed && e == NoWake(true))
    ensures e == NoWake(false) ==> Step(Now(h), e) == Now(h)
  {
  }

  /** A step of others, or of a wait that has begun. */
  predicate InWait(e: Event) {
    e == Release || e == Wake || e.NoWake?
  }

  /**
   An acquire that is under way registered at some step, unexpired, and has waited since. If it is on its way out without
   a release, its deadline has passed while it waited.
   */
  lemma {:induction false} WaitBegan(h: History) returns (i: nat, j: nat)
    requires Legal(h) && Now(h).phase != Idle
    ensures i < |h| && h[i].Acquire? && h[i].timed == Now(h).phase.timed && !(h[i].timed && h[i].expired)
    ensures forall k :: i < k < |h| ==> InWait(h[k])
    ensures Now(h).phase.Leaving? && !Now(h).notified ==> h[i].timed && i < j < |h| && h[j] == NoWake(true)
  {
    var n := |h| - 1;
    var before := h[..n];
    i, j := n, n;
    if Now(before).phase != Idle {
      i, j := WaitBegan(before);
      AlwaysConsistent(before);
      if Now(before).phase.Waiting? {
        j := n;
      }
    }
  }

  /**
   A call returns false only if it did not wait at all, being a try or too late, or if its deadline passed while it
   waited.
   */
  lemma FalseMeansExpired(h: History, e: Event) returns (i: nat, j: nat)
    requires Legal(h) && Enabled(Now(h), e) && Returned(Now(h), e) == Some(false)
    ensures e == TryAcquire || e == Acquire(true, true) || e == Finish
    ensures e == Finish ==>
      && i < j < |h| && h[i] == Acquire(true, false) && h[j] == NoWake(true)
      && forall k :: i < k < |h| ==> InWait(h[k])
  {
    i, j := 0, 0;
    if e == Finish {
      i, j := WaitBegan(h);
    }
  }

  // ---------------------------------------------------------------- counting

  function Releases(h: History): nat {
    if h == [] then 0 else Releases(h[..|h| - 1]) + if h[|h| - 1] == Release then 1 else 0
  }

  function Acquired(h: History): nat
    requires Legal(h)
  {
    if h == [] then 0
    else
      Acquired(h[..|h| - 1]) + if Returned(Now(h[..|h| - 1]), h[|h| - 1]) == Some(true) then 1 else 0
  }

  /** Releases saturate: over any run, acquisitions and the one that may be outstanding never outnumber them. */
  lemma {:induction false} AcquiredAtMostReleased(h: History)
    requires Legal(h)
    ensures Acquired(h) + (if ReleasedSince(h) then 1 else 0) <= Releases(h)
  {
    if h != [] {
      var before, e := h[..|h| - 1], h[|h| - 1];
      AcquiredAtMostReleased(before);
      if Returned(Now(before), e) != None {
        ReturnsWhetherReleased(before, e);
      }
    }
  }
}
