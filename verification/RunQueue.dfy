/**
 The queue of runnable fibers (src/processor.cpp): insertion by priority, the pick for a core, dispatch and
 rescheduling.
 */
module RunQueue {

  datatype ThreadState = None | Ready | Running | Waiting | Moribund

  /** What the scheduler reads of a fiber's thread; `cores` is the affinity in `attr`. */
  datatype Thread = Thread(basePriority: int, state: ThreadState, suspendCounter: int, cores: set<nat>)

  /** A queued fiber, with the number of its arrival. */
  datatype Entry = Entry(fiber: nat, arrival: nat)

  predicate Known(threads: seq<Thread>, queue: seq<Entry>) {
    forall i :: 0 <= i < |queue| ==> queue[i].fiber < |threads|
  }

  function Priority(threads: seq<Thread>, e: Entry): int
    requires e.fiber < |threads|
  {
    threads[e.fiber].basePriority
  }

  /** Better priority, or the same and earlier. */
  predicate Before(threads: seq<Thread>, a: Entry, b: Entry)
    requires a.fiber < |threads| && b.fiber < |threads|
  {
    || Priority(threads, a) < Priority(threads, b)
    || (Priority(threads, a) == Priority(threads, b) && a.arrival < b.arrival)
  }

  /** Sorted by priority, first come first among equals. */
  ghost predicate Sorted(threads: seq<Thread>, queue: seq<Entry>) {
    && Known(threads, queue)
    && forall i, j :: 0 <= i < j < |queue| ==> Before(threads, queue[i], queue[j])
  }

  ghost predicate Arrived(queue: seq<Entry>, arrivals: nat) {
    forall i :: 0 <= i < |queue| ==> queue[i].arrival < arrivals
  }

  // ---------------------------------------------------------------- insertion

  /** std::upper_bound on a sorted queue: the first position with a worse priority. */
  function UpperBound(threads: seq<Thread>, queue: seq<Entry>, priority: int): (k: nat)
    requires Known(threads, queue)
    ensures k <= |queue|
    ensures forall i :: 0 <= i < k ==> Priority(threads, queue[i]) <= priority
    ensures k < |queue| ==> Priority(threads, queue[k]) > priority
  {
    if queue == [] || Priority(threads, queue[0]) > priority then 0
    else
      assert forall i :: 0 <= i < |queue| - 1 ==> queue[1..][i] == queue[i + 1];
      1 + UpperBound(threads, queue[1..], priority)
  }

  /** queueNoLock */
  function Queued(threads: seq<Thread>, queue: seq<Entry>, e: Entry): seq<Entry>
    requires Known(threads, queue) && e.fiber < |threads|
  {
    var k := UpperBound(threads, queue, Priority(threads, e));
    queue[..k] + [e] + queue[k..]
  }

  /** In a sorted queue the bound splits the priorities. */
  lemma BoundSplits(threads: seq<Thread>, queue: seq<Entry>, priority: int)
    requires Sorted(threads, queue)
    ensures var k := UpperBound(threads, queue, priority);
      && (forall i :: 0 <= i < k ==> Priority(threads, queue[i]) <= priority)
      && (forall i :: k <= i < |queue| ==> Priority(threads, queue[i]) > priority)
  {
    var k := UpperBound(threads, queue, priority);
    forall i | k < i < |queue|
      ensures Priority(threads, queue[i]) > priority
    {
      assert Before(threads, queue[k], queue[i]);
    }
  }

  /** Putting an entry between the better ones and the worse ones. */
  lemma Inserted(threads: seq<Thread>, queue: seq<Entry>, e: Entry, k: nat)
    requires Sorted(threads, queue) && e.fiber < |threads| && k <= |queue|
    requires forall i :: 0 <= i < k ==> Before(threads, queue[i], e)
    requires forall i :: k <= i < |queue| ==> Before(threads, e, queue[i])
    ensures Sorted(threads, queue[..k] + [e] + queue[k..])
  {
    hide Before;
    var queue' := queue[..k] + [e] + queue[k..];
    assert forall i :: 0 <= i < |queue'| ==> queue'[i] == if i < k then queue[i] else if i == k then e else queue[i - 1];
  }

  /** Queueing keeps the order, and puts the newcomer behind its equals. */
  lemma QueuedSorted(threads: seq<Thread>, queue: seq<Entry>, e: Entry)
    requires Sorted(threads, queue) && Arrived(queue, e.arrival) && e.fiber < |threads|
    ensures Sorted(threads, Queued(threads, queue, e)) && Arrived(Queued(threads, queue, e), e.arrival + 1)
    ensures multiset(Queued(threads, queue, e)) == multiset(queue) + multiset{e}
  {
    hide UpperBound;
    var k := UpperBound(threads, queue, Priority(threads, e));
    BoundSplits(threads, queue, Priority(threads, e));
    Inserted(threads, queue, e, k);
    assert queue == queue[..k] + queue[k..];
  }

  // ---------------------------------------------------------------- picking

  predicate Eligible(threads: seq<Thread>, fiber: nat, core: nat)
    requires fiber < |threads|
  {
    threads[fiber].state == Ready && threads[fiber].suspendCounter <= 0 && core in threads[fiber].cores
  }

  /** The position of the first eligible fiber; |queue| if there is none. */
  function Pick(threads: seq<Thread>, queue: seq<Entry>, core: nat): (k: nat)
    requires Known(threads, queue)
    ensures k <= |queue|
    ensures k < |queue| ==> Eligible(threads, queue[k].fiber, core)
    ensures forall i :: 0 <= i < k ==> !Eligible(threads, queue[i].fiber, core)
  {
    if queue == [] || Eligible(threads, queue[0].fiber, core) then 0
    else
      assert forall i :: 0 <= i < |queue| - 1 ==> queue[1..][i] == queue[i + 1];
      1 + Pick(threads, queue[1..], core)
  }

  /** The pick comes before every other eligible fiber. */
  lemma PickIsBest(threads: seq<Thread>, queue: seq<Entry>, core: nat, e: Entry)
    requires Sorted(threads, queue) && e in queue && Eligible(threads, e.fiber, core)
    ensures var k := Pick(threads, queue, core); k < |queue| && (e == queue[k] || Before(threads, queue[k], e))
  {
    var i :| 0 <= i < |queue| && queue[i] == e;
  }

  /** std::remove and erase: every copy of the fiber. */
  function Removed(queue: seq<Entry>, fiber: nat): (r: seq<Entry>)
    ensures forall e :: e in r <==> e in queue && e.fiber != fiber
  {
    if queue == [] then []
    else if queue[0].fiber == fiber then Removed(queue[1..], fiber)
    else [queue[0]] + Removed(queue[1..], fiber)
  }

  lemma {:induction false} RemovedSorted(threads: seq<Thread>, queue: seq<Entry>, fiber: nat)
    requires Sorted(threads, queue)
    ensures Sorted(threads, Removed(queue, fiber))
  {
    hide Sorted, Before;
    if queue != [] {
      SortedTail(threads, queue);
      RemovedSorted(threads, queue[1..], fiber);
      SortedCons(threads, queue[0], Removed(queue[1..], fiber));
    } else {
      NothingSorted(threads);
    }
  }

  lemma NothingSorted(threads: seq<Thread>)
    ensures Sorted(threads, [])
  {}

  lemma SortedTail(threads: seq<Thread>, queue: seq<Entry>)
    requires Sorted(threads, queue) && queue != []
    ensures queue[0].fiber < |threads| && Sorted(threads, queue[1..])
    ensures forall e :: e in queue[1..] ==> e.fiber < |threads| && Before(threads, queue[0], e)
  {
    hide Before;
    var rest := queue[1..];
    forall i, j | 0 <= i < j < |rest|
      ensures Before(threads, rest[i], rest[j])
    {
      assert Before(threads, queue[i + 1], queue[j + 1]);
    }
    forall e | e in rest
      ensures e.fiber < |threads| && Before(threads, queue[0], e)
    {
      var i :| 0 <= i < |rest| && rest[i] == e;
      assert Before(threads, queue[0], queue[i + 1]);
    }
  }

  lemma SortedCons(threads: seq<Thread>, e: Entry, queue: seq<Entry>)
    requires Sorted(threads, queue) && e.fiber < |threads|
    requires forall q :: q in queue ==> q.fiber < |threads| && Before(threads, e, q)
    ensures Sorted(threads, [e] + queue)
  {
    hide Before;
  }

  // ---------------------------------------------------------------- steps of the scheduler

  /** `current` is the fiber each core entered last, as -1 before the first; `inside` tells whether it is
      still in it. */
  datatype State = State(threads: seq<Thread>, queue: seq<Entry>, arrivals: nat, current: seq<int>, inside: seq<bool>)

  ghost predicate Consistent(s: State) {
    && Sorted(s.threads, s.queue) && Arrived(s.queue, s.arrivals)
    && |s.inside| == |s.current|
    && forall core :: 0 <= core < |s.current| ==>
         -1 <= s.current[core] < |s.threads| && (s.inside[core] ==> 0 <= s.current[core])
  }

  /** No fiber queued and no core on one. */
  function Initial(threads: seq<Thread>, cores: nat): State {
    State(threads, [], 0, seq(cores, i => -1), seq(cores, i => false))
  }

  lemma InitialConsistent(threads: seq<Thread>, cores: nat)
    ensures Consistent(Initial(threads, cores))
  {}

  function Enqueue(s: State, fiber: nat): State
    requires Known(s.threads, s.queue) && fiber < |s.threads|
  {
    s.(queue := Queued(s.threads, s.queue, Entry(fiber, s.arrivals)), arrivals := s.arrivals + 1)
  }

  /** The step of coreEntryPoint: enter the picked fiber, if there is one. */
  function Dispatch(s: State, core: nat): State
    requires Known(s.threads, s.queue) && core < |s.current| == |s.inside|
  {
    var k := Pick(s.threads, s.queue, core);
    if k == |s.queue| then s
    else
      var fiber := s.queue[k].fiber;
      s.(queue := Removed(s.queue, fiber), current := s.current[core := fiber], inside := s.inside[core := true],
         threads := s.threads[fiber := s.threads[fiber].(state := Running)])
  }

  /** reschedule goes on running the current fiber. */
  predicate StaysOn(s: State, core: nat, yielding: bool)
    requires Known(s.threads, s.queue) && core < |s.current| && 0 <= s.current[core] < |s.threads|
  {
    var thread, k := s.threads[s.current[core]], Pick(s.threads, s.queue, core);
    thread.suspendCounter <= 0 && thread.state == Running &&
    (k == |s.queue|
     || if yielding then thread.basePriority < Priority(s.threads, s.queue[k])
        else thread.basePriority <= Priority(s.threads, s.queue[k]))
  }

  /** reschedule: return early, or queue the current fiber and leave it. */
  function Rescheduled(s: State, core: nat, yielding: bool): State
    requires Known(s.threads, s.queue) && core < |s.current| == |s.inside| && 0 <= s.current[core] < |s.threads|
  {
    if StaysOn(s, core, yielding) then s
    else
      var fiber := s.current[core];
      var thread := s.threads[fiber];
      Leave(Enqueue(s.(threads := s.threads[fiber := if thread.state == Running then thread.(state := Ready) else thread]), fiber), core)
  }

  function Leave(s: State, core: nat): State
    requires core < |s.inside|
  {
    s.(inside := s.inside[core := false])
  }

  /** A thread that may run on a core now: ready, not suspended, and with the core in its affinity. */
  predicate MayRun(thread: Thread, core: nat) {
    thread.state == Ready && thread.suspendCounter <= 0 && core in thread.cores
  }

  /** Another thread that may run takes the core: a lower number is a better priority, and a yield gives way to equals. */
  predicate TakesOver(other: Thread, thread: Thread, core: nat, yielding: bool) {
    MayRun(other, core) &&
    if yielding then other.basePriority <= thread.basePriority else other.basePriority < thread.basePriority
  }

  /** The running thread cannot go on, or a queued one takes the core. */
  ghost predicate MustLeave(threads: seq<Thread>, queue: seq<Entry>, fiber: int, core: nat, yielding: bool)
    requires Known(threads, queue) && 0 <= fiber < |threads|
  {
    || threads[fiber].suspendCounter > 0 || threads[fiber].state != Running
    || exists i :: 0 <= i < |queue| && TakesOver(threads[queue[i].fiber], threads[fiber], core, yielding)
  }

  /** A core leaves its fiber exactly when it must, and otherwise nothing changes. */
  lemma LeavesExactlyWhen(s: State, core: nat, yielding: bool)
    requires Consistent(s) && core < |s.current| && 0 <= s.current[core]
    ensures StaysOn(s, core, yielding) <==> !MustLeave(s.threads, s.queue, s.current[core], core, yielding)
    ensures Rescheduled(s, core, yielding) == s <==> !MustLeave(s.threads, s.queue, s.current[core], core, yielding)
  {
    var thread, k := s.threads[s.current[core]], Pick(s.threads, s.queue, core);
    assert StaysOn(s, core, yielding) == (Rescheduled(s, core, yielding) == s) by {
      if !StaysOn(s, core, yielding) {
        assert Rescheduled(s, core, yielding).arrivals == s.arrivals + 1;
      }
    }
    forall i | 0 <= i < |s.queue| && TakesOver(s.threads[s.queue[i].fiber], thread, core, yielding)
      ensures !StaysOn(s, core, yielding)
    {
      PickIsBest(s.threads, s.queue, core, s.queue[i]);
    }
    if !StaysOn(s, core, yielding) && thread.suspendCounter <= 0 && thread.state == Running {
      assert TakesOver(s.threads[s.queue[k].fiber], thread, core, yielding);
    }
  }

  /** A core without a fiber enters one exactly when a queued fiber may run on it, and otherwise nothing changes. */
  lemma EntersExactlyWhen(s: State, core: nat)
    requires Consistent(s) && core < |s.current| && !s.inside[core]
    ensures Dispatch(s, core).inside[core] <==> exists i :: 0 <= i < |s.queue| && MayRun(s.threads[s.queue[i].fiber], core)
    ensures !Dispatch(s, core).inside[core] ==> Dispatch(s, core) == s
  {
    var k := Pick(s.threads, s.queue, core);
    if k < |s.queue| {
      assert MayRun(s.threads[s.queue[k].fiber], core);
    }
  }

  /** A fiber that is left is queued behind its equals, ready if it was running; the other fibers stay. */
  lemma LeavingQueues(s: State, core: nat, yielding: bool)
    requires Consistent(s) && core < |s.current| && 0 <= s.current[core] && !StaysOn(s, core, yielding)
    ensures var s', fiber := Rescheduled(s, core, yielding), s.current[core];
      && multiset(s'.queue) == multiset(s.queue) + multiset{Entry(fiber, s.arrivals)} && !s'.inside[core]
      && s'.threads[fiber].state == (if s.threads[fiber].state == Running then Ready else s.threads[fiber].state)
      && forall f :: 0 <= f < |s.threads| && f != fiber ==> s'.threads[f] == s.threads[f]
  {
    hide Queued;
    var fiber := s.current[core];
    var thread := s.threads[fiber];
    var thread' := if thread.state == Running then thread.(state := Ready) else thread;
    ThreadsValid(s, fiber, thread');
    QueuedSorted(s.threads[fiber := thread'], s.queue, Entry(fiber, s.arrivals));
  }

  /**
   A dispatch enters a fiber that may run, with the lowest priority number of all that may and the first of those
   with the same, and leaves no copy of it queued.
   */
  lemma DispatchEntersBest(s: State, core: nat, e: Entry)
    requires Consistent(s) && core < |s.current| && e in s.queue && MayRun(s.threads[e.fiber], core)
    ensures var s' := Dispatch(s, core);
      && 0 <= s'.current[core] < |s.threads| && s'.threads[s'.current[core]].state == Running
      && MayRun(s.threads[s'.current[core]], core)
      && (forall q :: q in s'.queue ==> q.fiber != s'.current[core])
      && exists q :: q in s.queue && q.fiber == s'.current[core] && NotAfter(s.threads, q, e)
  {
    PickIsBest(s.threads, s.queue, core, e);
    assert NotAfter(s.threads, s.queue[Pick(s.threads, s.queue, core)], e);
  }

  predicate NotAfter(threads: seq<Thread>, q: Entry, e: Entry)
    requires q.fiber < |threads| && e.fiber < |threads|
  {
    var a, b := threads[q.fiber].basePriority, threads[e.fiber].basePriority;
    a < b || (a == b && q.arrival <= e.arrival)
  }

  lemma SamePriorities(threads: seq<Thread>, threads': seq<Thread>, queue: seq<Entry>)
    requires Sorted(threads, queue) && |threads'| == |threads|
    requires forall i :: 0 <= i < |queue| ==> threads'[queue[i].fiber].basePriority == threads[queue[i].fiber].basePriority
    ensures Sorted(threads', queue)
  {
    forall i, j | 0 <= i < j < |queue|
      ensures Before(threads', queue[i], queue[j])
    {
      assert Before(threads, queue[i], queue[j]);
    }
  }

  // ---------------------------------------------------------------- all runs

  datatype Event =
    | DoQueue(fiber: nat)
    | DoDispatch(core: nat)
    | DoReschedule(core: nat, yielding: bool)
    | DoChange(fiber: nat, thread: Thread)   // anything else that happens to a thread

  /** While no queued thread's priority changes. */
  predicate Allowed(s: State, e: Event) {
    match e
    case DoQueue(fiber) => fiber < |s.threads|
    case DoDispatch(core) => core < |s.current| == |s.inside| && !s.inside[core]
    case DoReschedule(core, _) => core < |s.current| == |s.inside| && s.inside[core] && 0 <= s.current[core] < |s.threads|
    case DoChange(fiber, thread) =>
      fiber < |s.threads| && (thread.basePriority == s.threads[fiber].basePriority || forall q :: q in s.queue ==> q.fiber != fiber)
  }

  function Next(s: State, e: Event): State
    requires Known(s.threads, s.queue) && Allowed(s, e)
  {
    match e
    case DoQueue(fiber) => Enqueue(s, fiber)
    case DoDispatch(core) => Dispatch(s, core)
    case DoReschedule(core, yielding) => Rescheduled(s, core, yielding)
    case DoChange(fiber, thread) => s.(threads := s.threads[fiber := thread])
  }

  lemma EnqueueValid(s: State, fiber: nat)
    requires Consistent(s) && fiber < |s.threads|
    ensures Consistent(Enqueue(s, fiber))
  {
    QueuedSorted(s.threads, s.queue, Entry(fiber, s.arrivals));
  }

  lemma ThreadsValid(s: State, fiber: nat, thread: Thread)
    requires Consistent(s) && fiber < |s.threads|
    requires thread.basePriority == s.threads[fiber].basePriority || forall q :: q in s.queue ==> q.fiber != fiber
    ensures Consistent(s.(threads := s.threads[fiber := thread]))
  {
    SamePriorities(s.threads, s.threads[fiber := thread], s.queue);
  }

  lemma DispatchValid(s: State, core: nat)
    requires Consistent(s) && core < |s.current|
    ensures Consistent(Dispatch(s, core))
  {
    var k := Pick(s.threads, s.queue, core);
    if k < |s.queue| {
      var fiber := s.queue[k].fiber;
      RemovedSorted(s.threads, s.queue, fiber);
      SamePriorities(s.threads, Dispatch(s, core).threads, Removed(s.queue, fiber));
    }
  }

  lemma NextValid(s: State, e: Event)
    requires Consistent(s) && Allowed(s, e)
    ensures Consistent(Next(s, e))
  {
    hide Enqueue, Dispatch;
    match e {
      case DoQueue(fiber) => { EnqueueValid(s, fiber); }
      case DoDispatch(core) => { DispatchValid(s, core); }
      case DoReschedule(core, yielding) => { RescheduleValid(s, core, yielding); }
      case DoChange(fiber, thread) => { ThreadsValid(s, fiber, thread); }
    }
  }

  lemma RescheduleValid(s: State, core: nat, yielding: bool)
    requires Consistent(s) && core < |s.current| && 0 <= s.current[core]
    ensures Consistent(Rescheduled(s, core, yielding))
  {
    hide Queued;
    if !StaysOn(s, core, yielding) {
      var fiber := s.current[core];
      var thread := s.threads[fiber];
      var thread' := if thread.state == Running then thread.(state := Ready) else thread;
      ThreadsValid(s, fiber, thread');
      EnqueueValid(s.(threads := s.threads[fiber := thread']), fiber);
    }
  }

  predicate Runs(s: State, events: seq<Event>, s': State)
    decreases |events|
  {
    if events == [] then s' == s
    else Known(s.threads, s.queue) && Allowed(s, events[0]) && Runs(Next(s, events[0]), events[1..], s')
  }

  /** The queue stays sorted, first come first among equals, over every run. */
  lemma {:induction false} RunValid(s: State, events: seq<Event>, s': State)
    requires Consistent(s) && Runs(s, events, s')
    ensures Consistent(s')
    decreases |events|
  {
    hide Consistent, Next, Allowed;
    if events != [] {
      NextValid(s, events[0]);
      RunValid(Next(s, events[0]), events[1..], s');
    }
  }

  /** From the empty queue on, over every run. */
  lemma RunFromInitial(threads: seq<Thread>, cores: nat, events: seq<Event>, s': State)
    requires Runs(Initial(threads, cores), events, s')
    ensures Consistent(s')
  {
    InitialConsistent(threads, cores);
    RunValid(Initial(threads, cores), events, s');
  }

  // ---------------------------------------------------------------- the code

  class Processor {
    var threads: seq<Thread>        // of each fiber
    var fiberQueue: seq<nat>
    var currentFiber: seq<int>      // of each core
    ghost var entries: seq<Entry>   // the queue with the order of arrival
    ghost var arrivals: nat
    ghost var inside: seq<bool>

    ghost function View(): State
      reads this
    {
      State(threads, entries, arrivals, currentFiber, inside)
    }

    ghost predicate Valid()
      reads this
    {
      && Consistent(View()) && |fiberQueue| == |entries|
      && forall i :: 0 <= i < |entries| ==> fiberQueue[i] == entries[i].fiber
    }

    constructor (threads: seq<Thread>, cores: nat)
      ensures Valid() && View() == Initial(threads, cores) && fiberQueue == []
    {
      this.threads, fiberQueue, entries, arrivals := threads, [], [], 0;
      currentFiber, inside := seq(cores, i => -1), seq(cores, i => false);
      new;
      InitialConsistent(threads, cores);
    }

    method QueueNoLock(fiber: nat)
      requires Valid() && fiber < |threads|
      modifies this`fiberQueue, this`entries, this`arrivals
      ensures Valid() && View() == Next(old(View()), DoQueue(fiber))
    {
      hide UpperBound;
      EnqueueValid(View(), fiber);
      ghost var e := Entry(fiber, arrivals);
      ghost var bound := UpperBound(threads, entries, threads[fiber].basePriority);
      BoundSplits(threads, entries, threads[fiber].basePriority);
      var low, high := 0, |fiberQueue|;
      while low < high
        invariant 0 <= low <= bound <= high <= |fiberQueue|
      {
        var middle := (low + high) / 2;
        assert fiberQueue[middle] == entries[middle].fiber;
        if threads[fiber].basePriority < threads[fiberQueue[middle]].basePriority {
          high := middle;
        } else {
          low := middle + 1;
        }
      }
      fiberQueue := fiberQueue[..low] + [fiber] + fiberQueue[low..];
      entries := entries[..bound] + [e] + entries[bound..];
      arrivals := arrivals + 1;
    }

    /** peekNextFiberNoLock; -1 when no fiber may run. */
    method PeekNextFiberNoLock(core: nat) returns (fiber: int)
      requires Valid()
      ensures var k := Pick(threads, entries, core); fiber == if k < |entries| then entries[k].fiber else -1
    {
      var i := 0;
      while i < |fiberQueue|
        invariant 0 <= i <= |fiberQueue|
        invariant forall j :: 0 <= j < i ==> !Eligible(threads, entries[j].fiber, core)
      {
        assert fiberQueue[i] == entries[i].fiber;
        var thread := threads[fiberQueue[i]];
        if thread.state == Ready && !(thread.suspendCounter > 0) && core in thread.cores {
          PickAt(threads, entries, core, i);
          return fiberQueue[i];
        }
        i := i + 1;
      }
      PickNone(threads, entries, core);
      return -1;
    }

    /** The step of coreEntryPoint that enters a fiber; false when there is none. */
    method EnterNextFiber(core: nat) returns (entered: bool)
      requires Valid() && core < |currentFiber| && !inside[core]
      modifies this
      ensures Valid() && View() == Next(old(View()), DoDispatch(core))
      ensures entered == inside[core]
      ensures entered <==> exists i :: 0 <= i < |old(entries)| && MayRun(old(threads)[old(entries)[i].fiber], core)
    {
      hide Before, MayRun, Eligible, Pick, Removed, Without;
      DispatchValid(View(), core);
      EntersExactlyWhen(View(), core);
      ghost var s := View();
      var fiber := PeekNextFiberNoLock(core);
      entered := fiber >= 0;
      if entered {
        RemovedFibers(entries, fiberQueue, fiber);
        fiberQueue := Without(fiberQueue, fiber);
        entries := Removed(entries, fiber);
        currentFiber := currentFiber[core := fiber];
        inside := inside[core := true];
        threads := threads[fiber := threads[fiber].(state := Running)];
      }
    }

    /** reschedule up to the switch away; true when the core leaves its fiber. */
    method Reschedule(core: nat, yielding: bool) returns (left: bool)
      requires Valid() && core < |currentFiber| && inside[core]
      modifies this
      ensures Valid() && View() == Next(old(View()), DoReschedule(core, yielding))
      ensures left <==> MustLeave(old(threads), old(entries), old(currentFiber)[core], core, yielding)
      ensures if left then !inside[core] && multiset(entries) == multiset(old(entries) + [Entry(old(currentFiber)[core], old(arrivals))])
              else View() == old(View())
    {
      hide Enqueue, MustLeave;
      LeavesExactlyWhen(View(), core, yielding);
      if MustLeave(threads, entries, currentFiber[core], core, yielding) {
        LeavingQueues(View(), core, yielding);
      }
      RescheduleValid(View(), core, yielding);
      var fiber := currentFiber[core];
      var thread := threads[fiber];
      var next := PeekNextFiberNoLock(core);
      if thread.suspendCounter <= 0 && thread.state == Running {
        if next < 0 {
          return false;
        }
        if yielding {
          if thread.basePriority < threads[next].basePriority {
            return false;
          }
        } else if thread.basePriority <= threads[next].basePriority {
          return false;
        }
      }
      if thread.state == Running {
        ThreadsValid(View(), fiber, thread.(state := Ready));
        threads := threads[fiber := thread.(state := Ready)];
      }
      assert threads == old(threads)[fiber := if thread.state == Running then thread.(state := Ready) else thread];
      QueueNoLock(fiber);
      inside := inside[core := false];
      return true;
    }
  }

  /** The queue without a fiber. */
  function Without(fibers: seq<nat>, fiber: nat): seq<nat> {
    if fibers == [] then []
    else if fibers[0] == fiber then Without(fibers[1..], fiber)
    else [fibers[0]] + Without(fibers[1..], fiber)
  }

  lemma {:induction false} RemovedFibers(queue: seq<Entry>, fibers: seq<nat>, fiber: nat)
    requires |fibers| == |queue| && forall i :: 0 <= i < |queue| ==> fibers[i] == queue[i].fiber
    ensures |Without(fibers, fiber)| == |Removed(queue, fiber)|
    ensures forall i :: 0 <= i < |Removed(queue, fiber)| ==> Without(fibers, fiber)[i] == Removed(queue, fiber)[i].fiber
  {
    if queue != [] {
      RemovedFibers(queue[1..], fibers[1..], fiber);
    }
  }

  lemma {:induction false} PickAt(threads: seq<Thread>, queue: seq<Entry>, core: nat, i: nat)
    requires Known(threads, queue) && i < |queue| && Eligible(threads, queue[i].fiber, core)
    requires forall j :: 0 <= j < i ==> !Eligible(threads, queue[j].fiber, core)
    ensures Pick(threads, queue, core) == i
  {}

  lemma PickNone(threads: seq<Thread>, queue: seq<Entry>, core: nat)
    requires Known(threads, queue) && forall j :: 0 <= j < |queue| ==> !Eligible(threads, queue[j].fiber, core)
    ensures Pick(threads, queue, core) == |queue|
  {}
}
