/**
 Mutexes and condition variables (src/modules/coreinit/coreinit_mutex.cpp) over every interleaving.

 The scheduler lock makes the code between two points where it may be dropped one step. It may be dropped
 inside `OSRescheduleNoLock`; a sleeping thread may be resumed at any later time.
 */
module Mutex {
  import opened Wrappers
  import opened IntrusiveQueue

  // ---------------------------------------------------------------- state

  /** Where a thread is between its steps. */
  datatype Place =
    | Running                                      // not inside an operation
    | LockWait(mutex: nat)                         // OSLockMutexNoLock, asleep on the mutex
    | CondUnlocked(mutex: nat, saved: int)         // OSWaitCond, after the forced unlock
    | CondAsleep(mutex: nat, saved: int)           // OSWaitCond, asleep on the condition
    | CondLock(mutex: nat, saved: int)             // OSWaitCond, asleep on the mutex while relocking
    | Exited                                       // cancelled

  datatype OSMutex = OSMutex(owner: Option<nat>, count: int)

  /** `mutex` is the mutex the thread waits for, `mutexQueue` the mutexes it owns. */
  datatype OSThread = OSThread(mutex: Option<nat>, mutexQueue: seq<nat>, place: Place)

  datatype State = State(mutexes: seq<OSMutex>, threads: seq<OSThread>)
  {
    predicate Has(t: nat, m: nat) {
      t < |threads| && m < |mutexes|
    }

    function WithThread(t: nat, thread: OSThread): State
      requires t < |threads|
    {
      this.(threads := threads[t := thread])
    }

    function WithMutex(m: nat, mutex: OSMutex): State
      requires m < |mutexes|
    {
      this.(mutexes := mutexes[m := mutex])
    }
  }

  datatype Outcome = Done(state: State) | AssertFailed

  // ---------------------------------------------------------------- steps

  predicate Contended(s: State, t: nat, m: nat)
    requires s.Has(t, m)
  {
    s.mutexes[m].owner != None && s.mutexes[m].owner != Some(t)
  }

  /** The end of OSLockMutexNoLock, when the wait loop is left. */
  function Acquire(s: State, t: nat, m: nat): State
    requires s.Has(t, m)
  {
    var thread, mutex := s.threads[t], s.mutexes[m];
    s.WithThread(t, if mutex.owner != Some(t) then thread.(mutexQueue := thread.mutexQueue + [m]) else thread)
     .WithMutex(m, OSMutex(Some(t), mutex.count + 1))
  }

  /** A test of the wait loop: go to sleep as `asleep`, or take the mutex and go on as `after`. */
  function TryAcquire(s: State, t: nat, m: nat, asleep: Place): State
    requires s.Has(t, m)
  {
    if Contended(s, t, m) then s.WithThread(t, s.threads[t].(mutex := Some(m), place := asleep))
    else Acquire(s, t, m)
  }

  function Lock(s: State, t: nat, m: nat): State
    requires s.Has(t, m)
  {
    TryAcquire(s, t, m, LockWait(m))
  }

  function TryLock(s: State, t: nat, m: nat): (State, bool)
    requires s.Has(t, m)
  {
    if Contended(s, t, m) then (s, false) else (Acquire(s, t, m), true)
  }

  /** OSUnlockMutexNoLock up to where it may reschedule. */
  function Unlock(s: State, t: nat, m: nat): Outcome
    requires s.Has(t, m)
  {
    var thread, mutex := s.threads[t], s.mutexes[m];
    if mutex.owner != Some(t) || mutex.count <= 0 then AssertFailed
    else if mutex.count - 1 != 0 then Done(s.WithMutex(m, mutex.(count := mutex.count - 1)))
    else if m !in thread.mutexQueue then AssertFailed  // the queue's links would be followed from an item not on it
    else Done(s.WithThread(t, thread.(mutexQueue := Without(thread.mutexQueue, m))).WithMutex(m, OSMutex(None, 0)))
  }

  /** OSWaitCond up to the end of its forced unlock. */
  function WaitCond(s: State, t: nat, m: nat): Outcome
    requires s.Has(t, m)
  {
    var mutex := s.mutexes[m];
    if mutex.owner != Some(t) then AssertFailed
    else match Unlock(s.WithMutex(m, mutex.(count := 1)), t, m)
      case AssertFailed => AssertFailed
      case Done(s') => Done(s'.WithThread(t, s'.threads[t].(place := CondUnlocked(m, mutex.count))))
  }

  /** A sleeper on a mutex is back in the wait loop, before its next test. */
  function Woken(s: State, t: nat): State
    requires t < |s.threads|
  {
    s.WithThread(t, s.threads[t].(mutex := None, place := Running))
  }

  /** A thread inside an operation goes on after the lock was dropped. */
  function Resume(s: State, t: nat): State
    requires t < |s.threads|
  {
    var thread := s.threads[t];
    match thread.place
    case Running => s
    case Exited => s
    case LockWait(m) =>
      if m < |s.mutexes| then TryAcquire(Woken(s, t), t, m, LockWait(m)) else s
    case CondUnlocked(m, saved) => s.WithThread(t, thread.(place := CondAsleep(m, saved)))
    case CondAsleep(m, saved) => Relock(s.WithThread(t, thread.(place := Running)), t, m, saved)
    case CondLock(m, saved) => Relock(Woken(s, t), t, m, saved)
  }

  /** OSWaitCond after its sleep: lock the mutex again and restore its count. */
  function Relock(s: State, t: nat, m: nat, saved: int): State
    requires t < |s.threads|
  {
    if m >= |s.mutexes| then s
    else
      var s' := TryAcquire(s, t, m, CondLock(m, saved));
      if Contended(s, t, m) then s' else s'.WithMutex(m, s'.mutexes[m].(count := saved))
  }

  datatype Event =
    | DoLock(thread: nat, mutex: nat)
    | DoTryLock(thread: nat, mutex: nat)
    | DoUnlock(thread: nat, mutex: nat)
    | DoWaitCond(thread: nat, mutex: nat)
    | DoResume(thread: nat)
    | DoExit(thread: nat)                 // OSTestThreadCancelNoLock finds a cancel request

  predicate Enabled(s: State, e: Event) {
    && e.thread < |s.threads|
    && (if e.DoResume? then !s.threads[e.thread].place.Running? && !s.threads[e.thread].place.Exited?
        else s.threads[e.thread].place == Running)
    && (e.DoResume? || e.DoExit? || e.mutex < |s.mutexes|)
  }

  function Next(s: State, e: Event): Outcome
    requires Enabled(s, e)
  {
    match e
    case DoLock(t, m) => Done(Lock(s, t, m))
    case DoTryLock(t, m) => Done(TryLock(s, t, m).0)
    case DoUnlock(t, m) => Unlock(s, t, m)
    case DoWaitCond(t, m) => WaitCond(s, t, m)
    case DoResume(t) => Done(Resume(s, t))
    case DoExit(t) => Done(s.WithThread(t, s.threads[t].(place := Exited)))
  }

  /** A run of enabled events in which no assertion fails. */
  predicate Runs(s: State, events: seq<Event>, s': State)
    decreases |events|
  {
    if events == [] then s' == s
    else Enabled(s, events[0]) && Next(s, events[0]).Done? && Runs(Next(s, events[0]).state, events[1..], s')
  }

  function Initial(threads: nat, mutexes: nat): State {
    State(seq(mutexes, i => OSMutex(None, 0)), seq(threads, i => OSThread(None, [], Running)))
  }

  // ---------------------------------------------------------------- invariant

  /** A mutex has an owner exactly when its count is positive, and then it is on exactly its owner's queue. */
  ghost predicate MutexOk(s: State, m: nat)
    requires m < |s.mutexes|
  {
    var mutex := s.mutexes[m];
    && mutex.count >= 0 && (mutex.owner.Some? <==> mutex.count > 0)
    && (mutex.owner.Some? ==> mutex.owner.value < |s.threads|)
    && forall t :: 0 <= t < |s.threads| ==> (m in s.threads[t].mutexQueue <==> mutex.owner == Some(t))
  }

  /** A thread waits for what it says, does not own it, and remembers a positive count. */
  ghost predicate ThreadOk(s: State, t: nat)
    requires t < |s.threads|
  {
    var thread := s.threads[t];
    && Distinct(thread.mutexQueue) && (forall m :: m in thread.mutexQueue ==> m < |s.mutexes|)
    && (thread.place.LockWait? || thread.place.CondLock? ==> thread.mutex == Some(thread.place.mutex))
    && (thread.place.Running? || thread.place.CondUnlocked? || thread.place.CondAsleep? || thread.place.Exited? ==> thread.mutex == None)
    && (!thread.place.Running? && !thread.place.Exited? ==> thread.place.mutex < |s.mutexes| && s.mutexes[thread.place.mutex].owner != Some(t))
    && (thread.place.CondUnlocked? || thread.place.CondAsleep? || thread.place.CondLock? ==> thread.place.saved > 0)
  }

  ghost predicate Consistent(s: State) {
    && (forall m :: 0 <= m < |s.mutexes| ==> MutexOk(s, m))
    && (forall t :: 0 <= t < |s.threads| ==> ThreadOk(s, t))
  }

  lemma InitialValid(threads: nat, mutexes: nat)
    ensures Consistent(Initial(threads, mutexes))
  {}

  lemma AcquireKeeps(s: State, t: nat, m: nat)
    requires s.Has(t, m) && Consistent(s) && !Contended(s, t, m) && s.threads[t].place.Running?
    ensures Consistent(Acquire(s, t, m))
  {
    var s' := Acquire(s, t, m);
    assert MutexOk(s, m);
    forall k | 0 <= k < |s'.mutexes|
      ensures MutexOk(s', k)
    {
      assert MutexOk(s, k);
    }
    forall u | 0 <= u < |s'.threads|
      ensures ThreadOk(s', u)
    {
      assert ThreadOk(s, u);
    }
  }

  lemma SleepKeeps(s: State, t: nat, m: nat, asleep: Place)
    requires s.Has(t, m) && Consistent(s) && Contended(s, t, m)
    requires asleep == LockWait(m) || (asleep.CondLock? && asleep.mutex == m && asleep.saved > 0)
    ensures Consistent(s.WithThread(t, s.threads[t].(mutex := Some(m), place := asleep)))
  {
    var s' := s.WithThread(t, s.threads[t].(mutex := Some(m), place := asleep));
    assert ThreadOk(s, t);
    PlaceKeeps(s, t, s'.threads[t]);
  }

  /** A thread that moves without touching its queue leaves the others and the mutexes as they are. */
  lemma PlaceKeeps(s: State, t: nat, thread: OSThread)
    requires t < |s.threads| && Consistent(s) && thread.mutexQueue == s.threads[t].mutexQueue
    requires ThreadOk(s.WithThread(t, thread), t)
    ensures Consistent(s.WithThread(t, thread))
  {
    var s' := s.WithThread(t, thread);
    forall m | 0 <= m < |s'.mutexes|
      ensures MutexOk(s', m)
    {
      assert MutexOk(s, m);
    }
    forall u | 0 <= u < |s'.threads|
      ensures ThreadOk(s', u)
    {
      assert ThreadOk(s, u);
    }
  }

  /** A positive count may be replaced by another. */
  lemma CountKeeps(s: State, m: nat, count: int)
    requires m < |s.mutexes| && Consistent(s) && s.mutexes[m].owner.Some? && count > 0
    ensures Consistent(s.WithMutex(m, s.mutexes[m].(count := count)))
  {
    var s' := s.WithMutex(m, s.mutexes[m].(count := count));
    forall k | 0 <= k < |s'.mutexes|
      ensures MutexOk(s', k)
    {
      assert MutexOk(s, k);
    }
    forall u | 0 <= u < |s'.threads|
      ensures ThreadOk(s', u)
    {
      assert ThreadOk(s, u);
    }
  }

  lemma TryAcquireKeeps(s: State, t: nat, m: nat, asleep: Place)
    requires s.Has(t, m) && Consistent(s) && s.threads[t].place.Running?
    requires asleep == LockWait(m) || (asleep.CondLock? && asleep.mutex == m && asleep.saved > 0)
    ensures Consistent(TryAcquire(s, t, m, asleep))
  {
    hide Consistent, Acquire;
    if Contended(s, t, m) {
      SleepKeeps(s, t, m, asleep);
    } else {
      AcquireKeeps(s, t, m);
    }
  }

  lemma OwnedCount(s: State, m: nat)
    requires Consistent(s) && m < |s.mutexes|
    ensures s.mutexes[m].owner.Some? <==> s.mutexes[m].count > 0
  {
    assert MutexOk(s, m);
  }

  lemma ReleaseKeeps(s: State, t: nat, m: nat)
    requires s.Has(t, m) && Consistent(s) && s.mutexes[m].owner == Some(t) && m in s.threads[t].mutexQueue
    ensures Consistent(s.WithThread(t, s.threads[t].(mutexQueue := Without(s.threads[t].mutexQueue, m))).WithMutex(m, OSMutex(None, 0)))
  {
    var s' := s.WithThread(t, s.threads[t].(mutexQueue := Without(s.threads[t].mutexQueue, m))).WithMutex(m, OSMutex(None, 0));
    assert ThreadOk(s, t) && MutexOk(s, m);
    WithoutKeeps(s.threads[t].mutexQueue, m);
    forall k | 0 <= k < |s'.mutexes|
      ensures MutexOk(s', k)
    {
      assert MutexOk(s, k);
    }
    forall u | 0 <= u < |s'.threads|
      ensures ThreadOk(s', u)
    {
      assert ThreadOk(s, u);
    }
  }

  /** The assertions fail exactly when the caller does not own the mutex; the queue always holds what is erased. */
  lemma UnlockKeeps(s: State, t: nat, m: nat)
    requires s.Has(t, m) && Consistent(s)
    ensures Unlock(s, t, m).AssertFailed? <==> s.mutexes[m].owner != Some(t)
    ensures Unlock(s, t, m).Done? ==> Consistent(Unlock(s, t, m).state)
  {
    assert MutexOk(s, m) && ThreadOk(s, t);
    if s.mutexes[m].owner == Some(t) {
      if s.mutexes[m].count > 1 {
        CountKeeps(s, m, s.mutexes[m].count - 1);
      } else {
        ReleaseKeeps(s, t, m);
      }
    }
  }

  lemma WaitCondKeeps(s: State, t: nat, m: nat)
    requires s.Has(t, m) && Consistent(s) && s.threads[t].place.Running?
    ensures WaitCond(s, t, m).AssertFailed? <==> s.mutexes[m].owner != Some(t)
    ensures WaitCond(s, t, m).Done? ==> Consistent(WaitCond(s, t, m).state)
    ensures WaitCond(s, t, m).Done? ==>
      WaitCond(s, t, m).state.threads[t].place == CondUnlocked(m, s.mutexes[m].count) && s.mutexes[m].count > 0
  {
    assert MutexOk(s, m) && ThreadOk(s, t);
    if s.mutexes[m].owner == Some(t) {
      CountKeeps(s, m, 1);
      var s1 := s.WithMutex(m, s.mutexes[m].(count := 1));
      UnlockKeeps(s1, t, m);
      var s2 := Unlock(s1, t, m).state;
      assert ThreadOk(s2, t);
      PlaceKeeps(s2, t, s2.threads[t].(place := CondUnlocked(m, s.mutexes[m].count)));
    }
  }

  lemma WokenKeeps(s: State, t: nat)
    requires t < |s.threads| && Consistent(s)
    ensures Consistent(Woken(s, t))
  {
    ThreadIsOk(s, t);
    PlaceKeeps(s, t, s.threads[t].(mutex := None, place := Running));
  }

  lemma ResumeKeeps(s: State, t: nat)
    requires t < |s.threads| && Consistent(s) && !s.threads[t].place.Running? && !s.threads[t].place.Exited?
    ensures Consistent(Resume(s, t))
  {
    hide Consistent, TryAcquire;
    ThreadIsOk(s, t);
    var thread := s.threads[t];
    var m := thread.place.mutex;
    match thread.place {
      case CondUnlocked(_, saved) => { PlaceKeeps(s, t, thread.(place := CondAsleep(m, saved))); }
      case LockWait(_) => {
        WokenKeeps(s, t);
        TryAcquireKeeps(Woken(s, t), t, m, LockWait(m));
      }
      case CondAsleep(_, saved) => {
        PlaceKeeps(s, t, thread.(place := Running));
        RelockKeeps(s.WithThread(t, thread.(place := Running)), t, m, saved);
      }
      case CondLock(_, saved) => {
        WokenKeeps(s, t);
        RelockKeeps(Woken(s, t), t, m, saved);
      }
    }
  }

  lemma ThreadIsOk(s: State, t: nat)
    requires Consistent(s) && t < |s.threads|
    ensures ThreadOk(s, t)
  {}

  lemma RelockKeeps(s: State, t: nat, m: nat, saved: int)
    requires s.Has(t, m) && Consistent(s) && s.threads[t].place.Running? && saved > 0
    ensures Consistent(Relock(s, t, m, saved))
  {
    hide Consistent;
    TryAcquireKeeps(s, t, m, CondLock(m, saved));
    if !Contended(s, t, m) {
      CountKeeps(Acquire(s, t, m), m, saved);
    }
  }

  /** Every step of every thread keeps the invariant, and fails only when a caller unlocks what it does not own. */
  lemma StepKeeps(s: State, e: Event)
    requires Consistent(s) && Enabled(s, e)
    ensures Next(s, e).AssertFailed? <==> (e.DoUnlock? || e.DoWaitCond?) && s.mutexes[e.mutex].owner != Some(e.thread)
    ensures Next(s, e).Done? ==> Consistent(Next(s, e).state)
  {
    hide Consistent, TryAcquire, Resume, Unlock, WaitCond, Acquire;
    match e {
      case DoLock(t, m) => { LockKeeps(s, t, m); }
      case DoTryLock(t, m) => { TryLockKeeps(s, t, m); }
      case DoUnlock(t, m) => { UnlockKeeps(s, t, m); }
      case DoWaitCond(t, m) => { WaitCondKeeps(s, t, m); }
      case DoResume(t) => { ResumeKeeps(s, t); }
      case DoExit(t) => {
        ThreadIsOk(s, t);
        PlaceKeeps(s, t, s.threads[t].(place := Exited));
      }
    }
  }

  lemma LockKeeps(s: State, t: nat, m: nat)
    requires s.Has(t, m) && Consistent(s) && s.threads[t].place.Running?
    ensures Consistent(Lock(s, t, m))
  {
    TryAcquireKeeps(s, t, m, LockWait(m));
  }

  lemma TryLockKeeps(s: State, t: nat, m: nat)
    requires s.Has(t, m) && Consistent(s) && s.threads[t].place.Running?
    ensures Consistent(TryLock(s, t, m).0)
  {
    hide Consistent;
    if !Contended(s, t, m) {
      AcquireKeeps(s, t, m);
    }
  }

  /** The invariant holds after every run. */
  lemma {:induction false} RunKeeps(s: State, events: seq<Event>, s': State)
    requires Consistent(s) && Runs(s, events, s')
    ensures Consistent(s')
    decreases |events|
  {
    hide Consistent, Next, Enabled;
    if events != [] {
      StepKeeps(s, events[0]);
      RunKeeps(Next(s, events[0]).state, events[1..], s');
    }
  }

  // ---------------------------------------------------------------- what a run guarantees

  lemma SameSizes(s: State, e: Event)
    requires Enabled(s, e) && Next(s, e).Done?
    ensures |Next(s, e).state.mutexes| == |s.mutexes| && |Next(s, e).state.threads| == |s.threads|
  {}

  /** Only its owner changes a mutex that is held. */
  lemma OnlyOwnerChanges(s: State, e: Event, m: nat)
    requires Consistent(s) && Enabled(s, e) && Next(s, e).Done? && m < |s.mutexes|
    requires s.mutexes[m].owner.Some? && s.mutexes[m].owner != Some(e.thread)
    ensures m < |Next(s, e).state.mutexes| && Next(s, e).state.mutexes[m] == s.mutexes[m]
  {
    hide Consistent;
  }

  /** What a thread holds stays held, with the same count, through any run in which it takes no step. */
  lemma {:induction false} HeldThroughRun(s: State, events: seq<Event>, s': State, t: nat, m: nat)
    requires Consistent(s) && Runs(s, events, s') && m < |s.mutexes| && s.mutexes[m].owner == Some(t)
    requires forall e :: e in events ==> e.thread != t
    ensures m < |s'.mutexes| && s'.mutexes[m] == s.mutexes[m]
    decreases |events|
  {
    hide Consistent, Next, Enabled;
    if events != [] {
      StepKeeps(s, events[0]);
      OnlyOwnerChanges(s, events[0], m);
      HeldThroughRun(Next(s, events[0]).state, events[1..], s', t, m);
    }
  }

  /** A thread that is cancelled while it owns a mutex owns it for ever. */
  lemma {:induction false} ExitedOwnerForever(s: State, events: seq<Event>, s': State, t: nat, m: nat)
    requires Consistent(s) && Runs(s, events, s') && s.Has(t, m) && s.mutexes[m].owner == Some(t) && s.threads[t].place == Exited
    ensures m < |s'.mutexes| && s'.mutexes[m] == s.mutexes[m]
    decreases |events|
  {
    hide Consistent, Next;
    if events != [] {
      StepKeeps(s, events[0]);
      OnlyOwnerChanges(s, events[0], m);
      OthersStay(s, events[0], t);
      ExitedOwnerForever(Next(s, events[0]).state, events[1..], s', t, m);
    }
  }

  lemma OthersStay(s: State, e: Event, t: nat)
    requires Enabled(s, e) && Next(s, e).Done? && t < |s.threads| && e.thread != t
    ensures t < |Next(s, e).state.threads| && Next(s, e).state.threads[t] == s.threads[t]
  {}

  /** Inside OSWaitCond on `m`, to be left with count `n`; or just returned from it. */
  predicate InWaitCond(s: State, t: nat, m: nat, n: int) {
    && s.Has(t, m)
    && (s.threads[t].place in {CondUnlocked(m, n), CondAsleep(m, n), CondLock(m, n)}
        || (s.threads[t].place == Running && s.mutexes[m] == OSMutex(Some(t), n)))
  }

  lemma WaitCondStep(s: State, e: Event, t: nat, m: nat, n: int)
    requires Consistent(s) && Enabled(s, e) && Next(s, e).Done? && InWaitCond(s, t, m, n)
    requires e.thread == t ==> e.DoResume?
    ensures InWaitCond(Next(s, e).state, t, m, n)
  {
    hide Consistent;
    SameSizes(s, e);
    if e.thread != t {
      OthersStay(s, e, t);
      if s.threads[t].place == Running {
        OnlyOwnerChanges(s, e, m);
      }
    }
  }

  lemma {:induction false} WaitCondThroughRun(s: State, events: seq<Event>, s': State, t: nat, m: nat, n: int)
    requires Consistent(s) && Runs(s, events, s') && InWaitCond(s, t, m, n)
    requires forall e :: e in events && e.thread == t ==> e.DoResume?
    ensures InWaitCond(s', t, m, n)
    decreases |events|
  {
    hide Consistent, Next, Enabled, InWaitCond;
    if events != [] {
      StepKeeps(s, events[0]);
      WaitCondStep(s, events[0], t, m, n);
      WaitCondThroughRun(Next(s, events[0]).state, events[1..], s', t, m, n);
    }
  }

  /** OSWaitCond returns, if it does, with the caller as owner and the count it was entered with. */
  lemma WaitCondRestores(s: State, t: nat, m: nat, events: seq<Event>, s': State)
    requires Consistent(s) && s.Has(t, m) && Runs(s, [DoWaitCond(t, m)] + events, s')
    requires forall e :: e in events && e.thread == t ==> e.DoResume?
    ensures s'.Has(t, m)
    ensures s'.threads[t].place == Running ==> s'.mutexes[m] == s.mutexes[m] && s'.mutexes[m].owner == Some(t)
  {
    hide Consistent;
    var e := DoWaitCond(t, m);
    assert ([e] + events)[1..] == events;
    WaitCondKeeps(s, t, m);
    var s1 := WaitCond(s, t, m).state;
    WaitCondThroughRun(s1, events, s', t, m, s.mutexes[m].count);
  }

  // ---------------------------------------------------------------- nesting

  /** How often thread `t` has locked `m` and not yet unlocked it, a condition wait included. */
  function Nesting(s: State, t: nat, m: nat): int
    requires s.Has(t, m)
  {
    var place := s.threads[t].place;
    if (place.CondUnlocked? || place.CondAsleep? || place.CondLock?) && place.mutex == m then place.saved
    else if s.mutexes[m].owner == Some(t) then s.mutexes[m].count
    else 0
  }

  /** Calls that finish in a step: plus one for a lock of `m` by `t`, minus one for an unlock. */
  function Finished(s: State, e: Event, t: nat, m: nat): int
    requires Enabled(s, e) && s.Has(t, m)
  {
    if e.thread != t then 0
    else match e
      case DoLock(_, k) => if k == m && s.mutexes[m].owner in {None, Some(t)} then 1 else 0
      case DoTryLock(_, k) => if k == m && s.mutexes[m].owner in {None, Some(t)} then 1 else 0
      case DoUnlock(_, k) => if k == m then -1 else 0
      case DoWaitCond(_, _) => 0
      case DoResume(_) => if s.threads[t].place == LockWait(m) && s.mutexes[m].owner == None then 1 else 0
      case DoExit(_) => 0
  }

  /** The nesting of every thread changes by exactly the calls that finish. */
  lemma NestingStep(s: State, e: Event, t: nat, m: nat)
    requires Consistent(s) && Enabled(s, e) && Next(s, e).Done? && s.Has(t, m)
    ensures Next(s, e).state.Has(t, m) && Nesting(Next(s, e).state, t, m) == Nesting(s, t, m) + Finished(s, e, t, m)
  {
    SameSizes(s, e);
    assert MutexOk(s, m) && ThreadOk(s, t) && ThreadOk(s, e.thread);
    if e.thread != t {
      OthersStay(s, e, t);
      if s.mutexes[m].owner == Some(t) {
        OnlyOwnerChanges(s, e, m);
      } else {
        NotGivenAway(s, e, t, m);
      }
    } else {
      OwnStep(s, e, m);
    }
  }

  /** No step makes another thread the owner. */
  lemma NotGivenAway(s: State, e: Event, t: nat, m: nat)
    requires Enabled(s, e) && Next(s, e).Done? && s.Has(t, m) && e.thread != t && s.mutexes[m].owner != Some(t)
    ensures m < |Next(s, e).state.mutexes| && Next(s, e).state.mutexes[m].owner != Some(t)
  {}

  lemma OwnStep(s: State, e: Event, m: nat)
    requires Consistent(s) && Enabled(s, e) && Next(s, e).Done? && m < |s.mutexes|
    ensures Next(s, e).state.Has(e.thread, m)
    ensures Nesting(Next(s, e).state, e.thread, m) == Nesting(s, e.thread, m) + Finished(s, e, e.thread, m)
  {
    hide Consistent, Next, Nesting, Finished;
    SameSizes(s, e);
    if e.DoResume? {
      OwnResume(s, e, m);
    } else {
      OwnCall(s, e, m);
    }
  }

  lemma OwnCall(s: State, e: Event, m: nat)
    requires Consistent(s) && Enabled(s, e) && Next(s, e).Done? && m < |s.mutexes| && !e.DoResume?
    requires Next(s, e).state.Has(e.thread, m)
    ensures Nesting(Next(s, e).state, e.thread, m) == Nesting(s, e.thread, m) + Finished(s, e, e.thread, m)
  {
    hide Consistent, Resume;
    ThreadIsOk(s, e.thread);
    MutexIsOk(s, m);
    if e.DoUnlock? || e.DoWaitCond? {
      MutexIsOk(s, e.mutex);
    }
  }

  lemma OwnResume(s: State, e: Event, m: nat)
    requires Consistent(s) && Enabled(s, e) && Next(s, e).Done? && m < |s.mutexes| && e.DoResume?
    requires Next(s, e).state.Has(e.thread, m)
    ensures Nesting(Next(s, e).state, e.thread, m) == Nesting(s, e.thread, m) + Finished(s, e, e.thread, m)
  {
    hide Consistent, Unlock, WaitCond, Lock, TryLock;
    ThreadIsOk(s, e.thread);
    MutexIsOk(s, m);
  }

  lemma MutexIsOk(s: State, m: nat)
    requires Consistent(s) && m < |s.mutexes|
    ensures MutexOk(s, m)
  {}

  /** All calls of a run that finish, added up. */
  function AllFinished(s: State, events: seq<Event>, t: nat, m: nat): int
    decreases |events|
  {
    if events == [] || !Enabled(s, events[0]) || Next(s, events[0]).AssertFailed? || !s.Has(t, m) then 0
    else Finished(s, events[0], t, m) + AllFinished(Next(s, events[0]).state, events[1..], t, m)
  }

  /** Over every run the nesting is the locks less the unlocks; with as many of each the mutex is free for others. */
  lemma {:induction false} NestingRun(s: State, events: seq<Event>, s': State, t: nat, m: nat)
    requires Consistent(s) && Runs(s, events, s') && s.Has(t, m)
    ensures s'.Has(t, m) && Nesting(s', t, m) == Nesting(s, t, m) + AllFinished(s, events, t, m)
    ensures Nesting(s', t, m) == 0 ==> s'.mutexes[m].owner != Some(t)
    decreases |events|
  {
    hide Consistent, Next, Enabled, Nesting, Finished;
    if events == [] {
      FreeWhenBalanced(s, t, m);
    } else {
      StepKeeps(s, events[0]);
      NestingStep(s, events[0], t, m);
      NestingRun(Next(s, events[0]).state, events[1..], s', t, m);
    }
  }

  lemma FreeWhenBalanced(s: State, t: nat, m: nat)
    requires Consistent(s) && s.Has(t, m)
    ensures Nesting(s, t, m) == 0 ==> s.mutexes[m].owner != Some(t)
  {
    assert MutexOk(s, m) && ThreadOk(s, t);
  }

  /** A lock is given exactly when nobody else has the mutex, and every other call of it goes to sleep. */
  lemma LockGivenExactlyWhen(s: State, t: nat, m: nat)
    requires Consistent(s) && s.Has(t, m) && s.threads[t].place.Running?
    ensures Lock(s, t, m).Has(t, m)
    ensures Lock(s, t, m).threads[t].place == (if s.mutexes[m].owner in {None, Some(t)} then Running else LockWait(m))
    ensures s.mutexes[m].owner in {None, Some(t)} ==> Lock(s, t, m).mutexes[m] == OSMutex(Some(t), s.mutexes[m].count + 1)
    ensures s.mutexes[m].owner !in {None, Some(t)} ==> Lock(s, t, m).mutexes == s.mutexes
  {
    assert MutexOk(s, m);
  }

  /** A try answers true exactly when nobody else has the mutex, and exactly when the caller has it once more. */
  lemma TryLockAnswers(s: State, t: nat, m: nat)
    requires Consistent(s) && s.Has(t, m) && s.threads[t].place.Running?
    ensures var (s', locked) := TryLock(s, t, m);
      && (locked <==> s.mutexes[m].owner in {None, Some(t)})
      && s'.Has(t, m) && (locked <==> Nesting(s', t, m) == Nesting(s, t, m) + 1)
      && (locked ==> s'.mutexes[m] == OSMutex(Some(t), s.mutexes[m].count + 1))
      && (!locked ==> s' == s)
  {
    assert MutexOk(s, m) && ThreadOk(s, t);
  }

  /** A thread that is resumed while it waits for a mutex leaves the operation exactly when the mutex is free. */
  lemma WaitEndsExactlyWhen(s: State, t: nat)
    requires Consistent(s) && t < |s.threads|
    requires var p := s.threads[t].place; p.LockWait? || p.CondAsleep? || p.CondLock?
    ensures var p, s' := s.threads[t].place, Resume(s, t);
      && s'.Has(t, p.mutex) && p.mutex < |s.mutexes|
      && (s'.threads[t].place == Running <==> s.mutexes[p.mutex].owner == None)
      && (s.mutexes[p.mutex].owner == None ==> s'.mutexes[p.mutex] == OSMutex(Some(t), if p.LockWait? then 1 else p.saved))
      && (s.mutexes[p.mutex].owner != None ==> s'.mutexes == s.mutexes)
  {
    assert ThreadOk(s, t);
    assert MutexOk(s, s.threads[t].place.mutex);
  }

  /** Between the forced unlock and the relock a thread waits for a wakeup. */
  lemma CondSleeps(s: State, t: nat)
    requires t < |s.threads| && s.threads[t].place.CondUnlocked?
    ensures var p, s' := s.threads[t].place, Resume(s, t);
      s'.mutexes == s.mutexes && |s'.threads| == |s.threads| && s'.threads[t].place == CondAsleep(p.mutex, p.saved)
  {}

  const IDLE := OSThread(None, [], Running)
  const OWNER := OSThread(None, [0], Running)
  const WAITER := OSThread(Some(0), [], LockWait(0))

  /** A mutex goes from one thread to another that waits for it. */
  lemma HandedOver()
    ensures Runs(Initial(2, 1), [DoLock(0, 0), DoLock(1, 0), DoUnlock(0, 0), DoResume(1)], State([OSMutex(Some(1), 1)], [IDLE, OWNER]))
  {
    hide Next;
    var free, owned := [OSMutex(None, 0)], [OSMutex(Some(0), 1)];
    var s0, s1, s2 := State(free, [IDLE, IDLE]), State(owned, [OWNER, IDLE]), State(owned, [OWNER, WAITER]);
    var s3, s4 := State(free, [IDLE, WAITER]), State([OSMutex(Some(1), 1)], [IDLE, OWNER]);
    assert Initial(2, 1) == s0;
    FirstLocks(s0, s1);
    SecondSleeps(s1, s2);
    FirstUnlocks(s2, s3);
    SecondResumes(s3, s4);
    assert Runs(s3, [DoResume(1)], s4);
    assert Runs(s2, [DoUnlock(0, 0), DoResume(1)], s4);
    assert Runs(s1, [DoLock(1, 0), DoUnlock(0, 0), DoResume(1)], s4);
  }

  lemma FirstLocks(s: State, s': State)
    requires s == State([OSMutex(None, 0)], [IDLE, IDLE]) && s' == State([OSMutex(Some(0), 1)], [OWNER, IDLE])
    ensures Next(s, DoLock(0, 0)) == Done(s')
  {
    assert [] + [0] == [0];
    assert Acquire(s, 0, 0).threads == s'.threads && Acquire(s, 0, 0).mutexes == s'.mutexes;
  }

  lemma SecondSleeps(s: State, s': State)
    requires s == State([OSMutex(Some(0), 1)], [OWNER, IDLE]) && s' == State(s.mutexes, [OWNER, WAITER])
    ensures Next(s, DoLock(1, 0)) == Done(s')
  {
    assert Lock(s, 1, 0).threads == s'.threads;
  }

  lemma FirstUnlocks(s: State, s': State)
    requires s == State([OSMutex(Some(0), 1)], [OWNER, WAITER]) && s' == State([OSMutex(None, 0)], [IDLE, WAITER])
    ensures Next(s, DoUnlock(0, 0)) == Done(s')
  {
    assert Without([0], 0) == [];
    assert Unlock(s, 0, 0).state.threads == s'.threads && Unlock(s, 0, 0).state.mutexes == s'.mutexes;
  }

  lemma SecondResumes(s: State, s': State)
    requires s == State([OSMutex(None, 0)], [IDLE, WAITER]) && s' == State([OSMutex(Some(1), 1)], [IDLE, OWNER])
    ensures Next(s, DoResume(1)) == Done(s')
  {
    assert [] + [0] == [0];
    var woken := Woken(s, 1);
    assert woken.threads == [IDLE, IDLE];
    assert Acquire(woken, 1, 0).threads == s'.threads && Acquire(woken, 1, 0).mutexes == s'.mutexes;
  }

  // ---------------------------------------------------------------- the code, on its queues

  class Kernel {
    const links: seq<Item>             // OSMutex::link of each mutex
    const mutexQueues: seq<Queue>      // OSThread::mutexQueue of each thread
    var mutexes: seq<OSMutex>
    var waits: seq<Option<nat>>            // OSThread::mutex of each thread
    ghost var owned: seq<seq<nat>>     // what is on each thread's queue
    ghost var places: seq<Place>

    /** The value the fields stand for. */
    ghost function View(): (s: State)
      reads this
      requires |waits| == |owned| == |places|
    {
      State(mutexes, Threads(waits, owned, places))
    }

    /** The queue of thread `t` holds exactly the links of the mutexes it owns. */
    ghost predicate QueueOk(t: nat)
      requires t < |mutexQueues| && t < |owned|
      reads this`owned, mutexQueues, links
    {
      && |mutexQueues[t].items| == |owned[t]|
      && (forall i :: 0 <= i < |owned[t]| ==> owned[t][i] < |links| && mutexQueues[t].items[i] == links[owned[t][i]])
      && mutexQueues[t].Valid()
    }

    ghost predicate Valid()
      reads this, mutexQueues, links
    {
      && |mutexQueues| == |waits| == |owned| == |places| && |links| == |mutexes|
      && Distinct(links) && Distinct(mutexQueues)
      && (forall t :: 0 <= t < |mutexQueues| ==> QueueOk(t))
      && Consistent(View())
    }

    /** A link is on a thread's queue exactly when the thread owns the mutex. */
    lemma OnQueue(u: nat, m: nat)
      requires Valid() && u < |waits| && m < |mutexes|
      ensures links[m] in mutexQueues[u].items <==> mutexes[m].owner == Some(u)
      ensures m in owned[u] <==> mutexes[m].owner == Some(u)
    {
      assert QueueOk(u) && MutexOk(View(), m);
      assert View().threads[u].mutexQueue == owned[u];
      if links[m] in mutexQueues[u].items {
        var i :| 0 <= i < |owned[u]| && mutexQueues[u].items[i] == links[m];
        assert owned[u][i] == m;
      }
      if m in owned[u] {
        var i :| 0 <= i < |owned[u]| && owned[u][i] == m;
        assert mutexQueues[u].items[i] == links[m];
      }
    }

    ghost predicate Apart(u: nat, t: nat)
      requires u < |mutexQueues| && t < |mutexQueues|
      reads mutexQueues
    {
      forall x :: x in mutexQueues[u].items ==> x !in mutexQueues[t].items
    }

    /** Different threads' queues share no link. */
    lemma QueuesApart(t: nat, u: nat)
      requires Valid() && t < |waits| && u < |waits| && t != u
      ensures forall x :: x in mutexQueues[t].items ==> x !in mutexQueues[u].items
    {
      forall x | x in mutexQueues[t].items
        ensures x !in mutexQueues[u].items
      {
        assert QueueOk(t);
        var i :| 0 <= i < |owned[t]| && mutexQueues[t].items[i] == x;
        OnQueue(t, owned[t][i]);
        OnQueue(u, owned[t][i]);
      }
    }

    lemma OwnerQueued(m: nat, before: seq<nat>, items: seq<Item>, t: nat)
      requires t < |owned| && t < |mutexQueues| && m < |links| && mutexQueues[t].Valid()
      requires owned[t] == before + [m] && mutexQueues[t].items == items + [links[m]] && |items| == |before|
      requires forall i :: 0 <= i < |before| ==> before[i] < |links| && items[i] == links[before[i]]
      ensures QueueOk(t)
    {}

    /** A queue that was not touched still holds the same mutexes. */
    twostate lemma QueueKept(u: nat)
      requires u < |mutexQueues| && u < old(|owned|) == |owned| && old(QueueOk(u)) && owned[u] == old(owned[u])
      requires unchanged(mutexQueues[u]) && forall x :: x in mutexQueues[u].items ==> unchanged(x)
      ensures QueueOk(u)
    {
      var q := mutexQueues[u];
      forall i | 0 <= i < |q.items|
        ensures q.Linked(i)
      {
        assert old(q.Linked(i));
        assert q.items[i] in q.items;
      }
    }

    /** The end of OSLockMutexNoLock */
    method TakeMutex(t: nat, m: nat)
      requires Valid() && View().Has(t, m) && !Contended(View(), t, m) && places[t].Running?
      modifies this`mutexes, this`owned, mutexQueues, links
      ensures Valid() && View() == Acquire(old(View()), t, m)
    {
      hide Consistent, MutexOk, ThreadOk;
      AcquireKeeps(View(), t, m);
      OnQueue(t, m);
      forall u | 0 <= u < |waits| && u != t
        ensures links[m] in mutexQueues[u].items <==> mutexes[m].owner == Some(u)
        ensures forall x :: x in mutexQueues[t].items ==> x !in mutexQueues[u].items
      {
        OnQueue(u, m);
        QueuesApart(t, u);
      }
      ghost var s := View();
      if mutexes[m].owner != Some(t) {
        assert QueueOk(t);
        mutexQueues[t].Append(links[m]);
        owned := owned[t := owned[t] + [m]];
        forall u | 0 <= u < |waits|
          ensures QueueOk(u)
        {
          if u == t {
            OwnerQueued(m, old(owned[t]), old(mutexQueues[t].items), t);
          } else {
            QueueKept(u);
          }
        }
      }
      label Queued:
      mutexes := mutexes[m := OSMutex(Some(t), mutexes[m].count + 1)];
      forall u | 0 <= u < |waits|
        ensures QueueOk(u)
      {
        QueueKept@Queued(u);
      }
      assert View() == Acquire(s, t, m);
    }

    /** One test of the wait loop of OSLockMutexNoLock: sleep, or leave the loop with the mutex. */
    method LockMutex(t: nat, m: nat, ghost asleep: Place) returns (locked: bool)
      requires Valid() && View().Has(t, m) && places[t].Running?
      requires asleep == LockWait(m) || (asleep.CondLock? && asleep.mutex == m && asleep.saved > 0)
      modifies this, mutexQueues, links
      ensures Valid() && View() == TryAcquire(old(View()), t, m, asleep)
      ensures asleep.LockWait? ==> Next(old(View()), DoLock(t, m)) == Done(View())
      ensures locked <==> old(mutexes[m].owner) in {None, Some(t)}
    {
      hide Consistent, MutexOk, ThreadOk, Acquire;
      TryAcquireKeeps(View(), t, m, asleep);
      ghost var s := View();
      locked := mutexes[m].owner == None || mutexes[m].owner == Some(t);
      if locked {
        TakeMutex(t, m);
      } else {
        waits := waits[t := Some(m)];
        places := places[t := asleep];
        assert View().threads == TryAcquire(s, t, m, asleep).threads;
        forall u | 0 <= u < |waits|
          ensures QueueOk(u)
        {
          QueueKept(u);
        }
      }
    }

    /** A sleeper is back in the wait loop: `thread->mutex = nullptr` before the next test. */
    method Wake(t: nat)
      requires Valid() && t < |waits| && (places[t].LockWait? || places[t].CondLock?)
      modifies this`waits, this`places
      ensures Valid() && View() == Woken(old(View()), t) && places == old(places)[t := Running]
    {
      hide Consistent, MutexOk, ThreadOk;
      WokenKeeps(View(), t);
      ghost var s := View();
      waits := waits[t := None];
      places := places[t := Running];
      assert View().threads == Woken(s, t).threads;
      forall u | 0 <= u < |waits|
        ensures QueueOk(u)
      {
        QueueKept(u);
      }
    }

    /** One turn of the wait loop of a thread that was asleep in OSLockMutexNoLock. */
    method ResumeLock(t: nat, m: nat) returns (locked: bool)
      requires Valid() && View().Has(t, m) && places[t] == LockWait(m)
      modifies this, mutexQueues, links
      ensures Valid() && Done(View()) == Next(old(View()), DoResume(t))
      ensures locked <==> old(mutexes[m].owner) in {None, Some(t)}
    {
      hide Consistent, MutexOk, ThreadOk, Acquire;
      Wake(t);
      locked := LockMutex(t, m, LockWait(m));
    }

    /** One turn of the wait loop of a thread that was asleep while relocking in OSWaitCond. */
    method ResumeRelock(t: nat, m: nat, mutexCount: int) returns (locked: bool)
      requires Valid() && View().Has(t, m) && places[t] == CondLock(m, mutexCount)
      modifies this, mutexQueues, links
      ensures Valid() && Done(View()) == Next(old(View()), DoResume(t))
      ensures locked <==> old(mutexes[m].owner) in {None, Some(t)}
    {
      hide Consistent, MutexOk, ThreadOk, Acquire;
      ThreadIsOk(View(), t);
      Wake(t);
      locked := WaitCondRelock(t, m, mutexCount);
    }

    /** A thread moves on without touching its queue or a mutex. */
    method MoveTo(t: nat, ghost place: Place)
      requires Valid() && t < |waits|
      requires ThreadOk(View().WithThread(t, View().threads[t].(place := place)), t)
      modifies this`places
      ensures Valid() && View() == old(View()).WithThread(t, old(View()).threads[t].(place := place))
      ensures places == old(places)[t := place]
    {
      hide Consistent, MutexOk, ThreadOk;
      PlaceKeeps(View(), t, View().threads[t].(place := place));
      ghost var s := View();
      places := places[t := place];
      assert View().threads == s.WithThread(t, s.threads[t].(place := place)).threads;
      forall u | 0 <= u < |waits|
        ensures QueueOk(u)
      {
        QueueKept(u);
      }
    }

    /** OSWaitCond goes to sleep on its condition. */
    method SleepOnCond(t: nat)
      requires Valid() && t < |waits| && places[t].CondUnlocked?
      modifies this`places
      ensures Valid() && Done(View()) == Next(old(View()), DoResume(t))
    {
      hide Consistent;
      ThreadIsOk(View(), t);
      MoveTo(t, CondAsleep(places[t].mutex, places[t].saved));
    }

    /** OSWaitCond wakes from its condition and locks the mutex again. */
    method ResumeCond(t: nat, m: nat, mutexCount: int) returns (locked: bool)
      requires Valid() && View().Has(t, m) && places[t] == CondAsleep(m, mutexCount)
      modifies this, mutexQueues, links
      ensures Valid() && Done(View()) == Next(old(View()), DoResume(t))
      ensures locked <==> old(mutexes[m].owner) in {None, Some(t)}
    {
      hide Consistent, Acquire;
      ThreadIsOk(View(), t);
      MoveTo(t, Running);
      locked := WaitCondRelock(t, m, mutexCount);
    }

    /** OSTestThreadCancelNoLock finds a cancel request: the mutex queue stays as it is. */
    method Exit(t: nat)
      requires Valid() && t < |waits| && places[t].Running?
      modifies this`places
      ensures Valid() && Done(View()) == Next(old(View()), DoExit(t))
    {
      hide Consistent;
      ThreadIsOk(View(), t);
      MoveTo(t, Exited);
    }

    /** OSUnlockMutexNoLock, up to where it may reschedule; false when an assertion fails. */
    method UnlockMutex(t: nat, m: nat) returns (ok: bool)
      requires Valid() && View().Has(t, m)
      modifies this`mutexes, this`owned, mutexQueues, links
      ensures Valid() && (ok <==> old(mutexes[m].owner) == Some(t))
      ensures if ok then Unlock(old(View()), t, m) == Done(View()) else Unlock(old(View()), t, m).AssertFailed? && View() == old(View())
      ensures ok && old(places)[t].Running? ==> Next(old(View()), DoUnlock(t, m)) == Done(View())
    {
      hide Consistent, MutexOk, ThreadOk;
      UnlockKeeps(View(), t, m);
      ok := mutexes[m].owner == Some(t) && mutexes[m].count > 0;
      if ok {
        OnQueue(t, m);
        forall u | 0 <= u < |waits| && u != t
          ensures Apart(u, t)
        {
          QueuesApart(u, t);
        }
        ghost var s := View();
        mutexes := mutexes[m := mutexes[m].(count := mutexes[m].count - 1)];
        forall u | 0 <= u < |waits|
          ensures QueueOk(u)
        {
          QueueKept(u);
        }
        if mutexes[m].count == 0 {
          mutexes := mutexes[m := mutexes[m].(owner := None)];
          Unqueue(t, m);
        }
        assert View() == Unlock(s, t, m).state;
      }
    }

    /** OSTryLockMutex */
    method TryLockMutex(t: nat, m: nat) returns (locked: bool)
      requires Valid() && View().Has(t, m) && places[t].Running?
      modifies this`mutexes, this`owned, mutexQueues, links
      ensures Valid() && (View(), locked) == TryLock(old(View()), t, m) && Next(old(View()), DoTryLock(t, m)) == Done(View())
      ensures locked <==> old(mutexes[m].owner) in {None, Some(t)}
      ensures View().Has(t, m) && (locked <==> Nesting(View(), t, m) == Nesting(old(View()), t, m) + 1)
      ensures if locked then mutexes[m] == OSMutex(Some(t), old(mutexes[m].count) + 1) else View() == old(View())
    {
      hide Consistent, MutexOk, ThreadOk, Acquire;
      TryLockAnswers(View(), t, m);
      if mutexes[m].owner != None && mutexes[m].owner != Some(t) {
        return false;
      }
      TakeMutex(t, m);
      return true;
    }

    /** OSWaitCond up to the end of its forced unlock. */
    method WaitCondUnlock(t: nat, m: nat) returns (ok: bool, mutexCount: int)
      requires Valid() && View().Has(t, m) && places[t].Running?
      modifies this, mutexQueues, links
      ensures Valid() && (ok <==> old(mutexes[m].owner) == Some(t))
      ensures ok ==> Next(old(View()), DoWaitCond(t, m)) == Done(View()) && mutexCount == old(mutexes[m].count) > 0
    {
      hide Consistent, MutexOk, ThreadOk, Unlock;
      WaitCondKeeps(View(), t, m);
      ghost var s := View();
      mutexCount := mutexes[m].count;
      ok := mutexes[m].owner == Some(t);
      if ok {
        OwnedCount(s, m);
        CountKeeps(s, m, 1);
        mutexes := mutexes[m := mutexes[m].(count := 1)];
        forall u | 0 <= u < |waits|
          ensures QueueOk(u)
        {
          QueueKept(u);
        }
        assert View() == s.WithMutex(m, s.mutexes[m].(count := 1));
        ok := UnlockMutex(t, m);
        label Unlocked:
        ghost var s' := View();
        places := places[t := CondUnlocked(m, mutexCount)];
        forall u | 0 <= u < |waits|
          ensures QueueOk(u)
        {
          QueueKept@Unlocked(u);
        }
        assert View().threads == s'.WithThread(t, s'.threads[t].(place := CondUnlocked(m, mutexCount))).threads;
      }
    }

    /** OSWaitCond after its sleep: one test of the wait loop, and the count restored when it is left. */
    method WaitCondRelock(t: nat, m: nat, mutexCount: int) returns (locked: bool)
      requires Valid() && View().Has(t, m) && places[t].Running? && mutexCount > 0
      modifies this, mutexQueues, links
      ensures Valid() && View() == Relock(old(View()), t, m, mutexCount)
      ensures locked <==> old(mutexes[m].owner) in {None, Some(t)}
    {
      hide Consistent, MutexOk, ThreadOk, Acquire;
      RelockKeeps(View(), t, m, mutexCount);
      locked := LockMutex(t, m, CondLock(m, mutexCount));
      label Locked:
      if locked {
        mutexes := mutexes[m := mutexes[m].(count := mutexCount)];
        forall u | 0 <= u < |waits|
          ensures QueueOk(u)
        {
          QueueKept@Locked(u);
        }
      }
    }

    /** OSEraseFromQueue on the thread's mutex queue. */
    method Unqueue(t: nat, m: nat)
      requires |mutexQueues| == |owned| && Distinct(mutexQueues) && Distinct(links)
      requires t < |owned| && m < |links| && m in owned[t] && links[m] in mutexQueues[t].items
      requires forall u :: 0 <= u < |owned| ==> QueueOk(u)
      requires forall u :: 0 <= u < |owned| && u != t ==> Apart(u, t)
      modifies this`owned, mutexQueues, links
      ensures owned == old(owned)[t := Without(old(owned)[t], m)]
      ensures forall u :: 0 <= u < |owned| ==> QueueOk(u)
    {
      assert QueueOk(t);
      SameIndex(owned[t], mutexQueues[t].items, m);
      mutexQueues[t].Erase(links[m]);
      owned := owned[t := Without(owned[t], m)];
      forall u | 0 <= u < |owned|
        ensures QueueOk(u)
      {
        if u != t {
          assert old(Apart(u, t));
          QueueKept(u);
        }
      }
    }

    /** The links of a thread's mutexes are in the order of the mutexes. */
    lemma SameIndex(before: seq<nat>, items: seq<Item>, m: nat)
      requires Distinct(links) && Distinct(items) && m < |links| && m in before && links[m] in items && |before| == |items|
      requires forall i :: 0 <= i < |before| ==> before[i] < |links| && items[i] == links[before[i]]
      ensures IndexOf(items, links[m]) == IndexOf(before, m)
    {}
  }

  ghost function Threads(waits: seq<Option<nat>>, owned: seq<seq<nat>>, places: seq<Place>): seq<OSThread>
    requires |waits| == |owned| == |places|
  {
    seq(|waits|, t requires 0 <= t < |waits| => OSThread(waits[t], owned[t], places[t]))
  }
}
