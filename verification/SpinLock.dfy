/**
 Recursive spinlocks (src/modules/coreinit/coreinit_spinlock.cpp), one memory access at a time, over every
 interleaving of the emulated threads.
 */
module SpinLock {
  import opened Words

  // ---------------------------------------------------------------- state

  /** The next memory access of a thread; `trying` marks spinTryLock, `seen` a value it has read. */
  datatype Place =
    | Outside
    | LoadOwner(trying: bool)          // spinLock, spinTryLock: is it mine already?
    | CompareExchange(trying: bool)
    | IncrementRead
    | IncrementWrite(seen: u32)
    | CheckRecursion                   // spinReleaseLock
    | DecrementRead
    | DecrementWrite(seen: u32)
    | CheckOwner
    | ClearOwner

  /** Threads are numbered from 1, as an owner word of 0 means that the lock is free.  `depth` is how often
      each has acquired the lock and not yet released it. */
  datatype State = State(owner: nat, recursion: u32, places: seq<Place>, depth: seq<nat>)
  {
    predicate Thread(t: nat) {
      0 < t < |places| == |depth|
    }

    function At(t: nat, place: Place): State
      requires Thread(t)
    {
      this.(places := places[t := place])
    }

    function Deeper(t: nat, n: nat): State
      requires Thread(t)
    {
      this.(depth := depth[t := n])
    }
  }

  datatype Event =
    | BeginLock(thread: nat, trying: bool)
    | BeginRelease(thread: nat)
    | Access(thread: nat, spurious: bool)   // a weak compare-exchange may fail without reason

  predicate Enabled(s: State, e: Event) {
    s.Thread(e.thread) && (e.Access? <==> !s.places[e.thread].Outside?)
  }

  function Next(s: State, e: Event): State
    requires Enabled(s, e)
  {
    match e
    case BeginLock(t, trying) => s.At(t, LoadOwner(trying))
    case BeginRelease(t) => s.At(t, CheckRecursion)
    case Access(t, spurious) => Accessed(s, t, spurious)
  }

  function Accessed(s: State, t: nat, spurious: bool): State
    requires s.Thread(t)
  {
    match s.places[t]
    case Outside => s
    case LoadOwner(trying) => s.At(t, if s.owner == t then IncrementRead else CompareExchange(trying))
    case CompareExchange(trying) =>
      if s.owner == 0 && !spurious then s.(owner := t).At(t, Outside).Deeper(t, s.depth[t] + 1)
      else s.At(t, if trying then Outside else CompareExchange(trying))
    case IncrementRead => s.At(t, IncrementWrite(s.recursion))
    case IncrementWrite(seen) => s.(recursion := Add32(seen, 1)).At(t, Outside).Deeper(t, s.depth[t] + 1)
    case CheckRecursion => s.At(t, if s.recursion > 0 then DecrementRead else CheckOwner)
    case DecrementRead => s.At(t, DecrementWrite(s.recursion))
    case DecrementWrite(seen) => s.(recursion := (seen + TWO_32 - 1) % TWO_32).At(t, Outside).Deeper(t, Less(s.depth[t]))
    case CheckOwner => s.At(t, if s.owner == t then ClearOwner else Outside)
    case ClearOwner => s.(owner := 0).At(t, Outside).Deeper(t, Less(s.depth[t]))
  }

  function Less(n: nat): nat {
    if n == 0 then 0 else n - 1
  }

  /** Threads nest less deep than the recursion word counts. */
  predicate Shallow(s: State, e: Event)
    requires Enabled(s, e)
  {
    e.BeginLock? ==> s.depth[e.thread] < TWO_32
  }

  /** A thread that does not hold the lock finds the recursion word of the holder positive. */
  predicate Harmful(s: State, e: Event)
    requires Enabled(s, e)
  {
    e.Access? && s.places[e.thread].CheckRecursion? && s.owner != e.thread && s.recursion > 0
  }

  predicate Runs(s: State, events: seq<Event>, s': State)
    decreases |events|
  {
    if events == [] then s' == s
    else Enabled(s, events[0]) && Shallow(s, events[0]) && Runs(Next(s, events[0]), events[1..], s')
  }

  predicate Harmless(s: State, events: seq<Event>, s': State)
    requires Runs(s, events, s')
    decreases |events|
  {
    events == [] || (!Harmful(s, events[0]) && Harmless(Next(s, events[0]), events[1..], s'))
  }

  function Free(threads: nat): State {
    State(0, 0, seq(threads + 1, i => Outside), seq(threads + 1, i => 0))
  }

  // ---------------------------------------------------------------- exclusion

  /** What a thread relies on at its next access. */
  predicate PlaceOk(s: State, t: nat)
    requires s.Thread(t)
  {
    match s.places[t]
    case CompareExchange(_) => s.owner != t
    case LoadOwner(_) => s.depth[t] < TWO_32
    case IncrementRead => s.owner == t && s.depth[t] < TWO_32
    case IncrementWrite(seen) => s.owner == t && seen == s.recursion && s.depth[t] < TWO_32
    case CheckRecursion => true
    case DecrementRead => s.owner == t && s.recursion > 0
    case DecrementWrite(seen) => s.owner == t && seen == s.recursion > 0
    case CheckOwner => s.owner == t ==> s.recursion == 0
    case ClearOwner => s.owner == t && s.recursion == 0
    case Outside => true
  }

  /** At most one thread holds the lock: the one in `owner`, `recursion` + 1 times. */
  ghost predicate Exclusive(s: State) {
    && |s.places| == |s.depth| && (s.owner == 0 || s.Thread(s.owner))
    && (forall t: nat :: s.Thread(t) ==> s.depth[t] == if s.owner == t then s.recursion as nat + 1 else 0)
    && (s.owner == 0 ==> s.recursion == 0)
  }

  /** The invariant: exclusion, and every thread finds what it relies on. */
  ghost predicate Steady(s: State) {
    Exclusive(s) && forall t: nat :: s.Thread(t) ==> PlaceOk(s, t)
  }

  lemma SteadyExclusive(s: State)
    requires Steady(s)
    ensures Exclusive(s)
  {}

  lemma FreeSteady(threads: nat)
    ensures Steady(Free(threads))
  {}

  /** An access that is not harmful keeps the invariant. */
  lemma NextSteady(s: State, e: Event)
    requires Steady(s) && Enabled(s, e) && Shallow(s, e) && !Harmful(s, e)
    ensures Steady(Next(s, e))
  {
    NextExclusive(s, e);
    var s', t := Next(s, e), e.thread;
    assert PlaceOk(s, t);
    forall u: nat | s'.Thread(u)
      ensures PlaceOk(s', u)
    {
      assert PlaceOk(s, u);
    }
  }

  /** No single access breaks exclusion, not even a harmful one: it only moves its thread on. */
  lemma NextExclusive(s: State, e: Event)
    requires Steady(s) && Enabled(s, e) && Shallow(s, e)
    ensures Exclusive(Next(s, e))
    ensures Harmful(s, e) ==> Next(s, e) == s.At(e.thread, DecrementRead)
  {
    assert PlaceOk(s, e.thread);
  }

  /** The state after `e` and `n` more accesses of its thread, as long as it is inside a call. */
  function Alone(s: State, e: Event, n: nat): State
    requires Enabled(s, e)
  {
    if n == 0 then Next(s, e)
    else
      var before := Alone(s, e, n - 1);
      if Enabled(before, Access(e.thread, false)) then Next(before, Access(e.thread, false)) else before
  }

  /** Exclusion holds after the event and after each of its thread's next two accesses. */
  ghost predicate Safe(s: State, e: Event)
    requires Enabled(s, e)
  {
    Exclusive(Alone(s, e, 0)) && Exclusive(Alone(s, e, 1)) && Exclusive(Alone(s, e, 2))
  }

  /** A stranger that has found the recursion word positive breaks exclusion with its next two accesses. */
  lemma HarmBreaks(s: State, e: Event)
    requires Steady(s) && Enabled(s, e) && Harmful(s, e)
    ensures !Exclusive(Alone(s, e, 2))
  {
    var t, r := e.thread, s.recursion;
    var s1 := s.At(t, DecrementRead);
    var s2 := s.At(t, DecrementWrite(r));
    DivModIs(r + TWO_32 - 1, TWO_32, 1, r - 1);
    assert s.places[t := DecrementRead][t := DecrementWrite(r)] == s.places[t := DecrementWrite(r)];
    assert Next(s, e) == s1 && Next(s1, Access(t, false)) == s2;
    assert Alone(s, e, 1) == s2;
    var s3 := Next(s2, Access(t, false));
    assert s.Thread(s.owner) && s3.depth[s.owner] == r as nat + 1 && s3.recursion == r - 1;
  }

  /** From every state of a harmless run, an event is safe exactly when it is not a harmful access. */
  lemma SafeExactlyWhen(s: State, e: Event)
    requires Steady(s) && Enabled(s, e) && Shallow(s, e)
    ensures Safe(s, e) <==> !Harmful(s, e)
  {
    hide Steady, Exclusive, Enabled, Next, Shallow, Harmful;
    if Harmful(s, e) {
      HarmBreaks(s, e);
    } else {
      NextExclusive(s, e);
      NextSteady(s, e);
      TwoMore(Next(s, e), e.thread);
      AloneIs(s, e);
    }
  }

  /** A thread in the lock's code may make an access. */
  function Onward(s: State, t: nat): State {
    if Enabled(s, Access(t, false)) then Next(s, Access(t, false)) else s
  }

  lemma AloneIs(s: State, e: Event)
    requires Enabled(s, e)
    ensures Alone(s, e, 0) == Next(s, e) && Alone(s, e, 1) == Onward(Next(s, e), e.thread)
    ensures Alone(s, e, 2) == Onward(Onward(Next(s, e), e.thread), e.thread)
  {}

  lemma TwoMore(s: State, t: nat)
    requires Steady(s)
    ensures Exclusive(s) && Exclusive(Onward(s, t)) && Exclusive(Onward(Onward(s, t), t))
  {
    var a, s1 := Access(t, false), Onward(s, t);
    if Enabled(s, a) {
      NextExclusive(s, a);
      if Harmful(s, a) {
        assert Next(s1, a) == s1.At(t, DecrementWrite(s.recursion));
      } else {
        NextSteady(s, a);
        if Enabled(s1, a) {
          NextExclusive(s1, a);
        }
      }
    }
  }

  /** Every event of a run is safe. */
  ghost predicate AlwaysSafe(s: State, events: seq<Event>, s': State)
    requires Runs(s, events, s')
    decreases |events|
  {
    events == [] || (Safe(s, events[0]) && AlwaysSafe(Next(s, events[0]), events[1..], s'))
  }

  /** Over every run, every event is safe exactly when no access is harmful, and then exclusion holds at its end. */
  lemma {:induction false} RunSafeExactlyWhen(s: State, events: seq<Event>, s': State)
    requires Steady(s) && Runs(s, events, s')
    ensures AlwaysSafe(s, events, s') <==> Harmless(s, events, s')
    ensures Harmless(s, events, s') ==> Steady(s') && Exclusive(s')
    decreases |events|
  {
    hide Steady, Exclusive, Next, Enabled, Shallow, Harmful, Safe;
    if events != [] {
      SafeExactlyWhen(s, events[0]);
      if !Harmful(s, events[0]) {
        NextSteady(s, events[0]);
        RunSafeExactlyWhen(Next(s, events[0]), events[1..], s');
      }
    }
    if Harmless(s, events, s') {
      SteadyExclusive(s');
    }
  }

  /** Never two holders; the holder is in `owner`, and `recursion` is its nesting depth less one. */
  lemma OneHolder(threads: nat, events: seq<Event>, s': State, t: nat, u: nat)
    requires Runs(Free(threads), events, s') && Harmless(Free(threads), events, s')
    requires s'.Thread(t) && s'.Thread(u) && s'.depth[t] > 0
    ensures s'.owner == t && s'.depth[t] == s'.recursion as nat + 1
    ensures s'.depth[u] > 0 ==> u == t
  {
    FreeSteady(threads);
    RunSafeExactlyWhen(Free(threads), events, s');
  }

  /** A thread that is not in the lock's code keeps what it holds, whatever the others do. */
  lemma {:induction false} HeldThroughRun(s: State, events: seq<Event>, s': State, t: nat)
    requires Steady(s) && Runs(s, events, s') && Harmless(s, events, s')
    requires s.Thread(t) && forall e :: e in events ==> e.thread != t
    ensures s'.Thread(t) && s'.depth[t] == s.depth[t]
    ensures s.depth[t] > 0 ==> s'.owner == t && s'.recursion == s.recursion
    decreases |events|
  {
    hide Steady, Next, Enabled, Shallow, Harmful;
    if events != [] {
      NextSteady(s, events[0]);
      OthersKeep(s, events[0], t);
      HeldThroughRun(Next(s, events[0]), events[1..], s', t);
    }
    RunSafeExactlyWhen(s, events, s');
    OwnerOf(s, t);
    OwnerOf(s', t);
  }

  lemma OthersKeep(s: State, e: Event, t: nat)
    requires Enabled(s, e) && s.Thread(t) && e.thread != t
    ensures Next(s, e).Thread(t) && Next(s, e).depth[t] == s.depth[t]
  {}

  lemma OwnerOf(s: State, t: nat)
    requires Steady(s) && s.Thread(t)
    ensures s.depth[t] > 0 ==> s.owner == t && s.depth[t] == s.recursion as nat + 1
  {}

  // ---------------------------------------------------------------- releases by a stranger

  /** The calls of a thread that runs alone. */
  function ReleaseCall(s: State, t: nat): seq<Event> {
    [BeginRelease(t), Access(t, false), Access(t, false)]
    + if s.recursion > 0 || s.owner == t then [Access(t, false)] else []
  }

  function LockCall(s: State, t: nat): seq<Event> {
    [BeginLock(t, false), Access(t, false), Access(t, false)] + if s.owner == t then [Access(t, false)] else []
  }

  /** What locking a lock that is free or the thread's own leaves when no other thread runs. */
  function Locked(s: State, t: nat): State
    requires s.Thread(t)
  {
    (if s.owner == t then s.(recursion := Add32(s.recursion, 1)) else s.(owner := t)).Deeper(t, s.depth[t] + 1)
  }

  /** What a release leaves when no other thread runs. */
  function Released(s: State, t: nat): State
    requires s.Thread(t)
  {
    if s.recursion > 0 then s.(recursion := s.recursion - 1).Deeper(t, Less(s.depth[t]))
    else if s.owner == t then s.(owner := 0).Deeper(t, Less(s.depth[t]))
    else s
  }

  /** No thread is in the lock's code. */
  predicate Quiet(s: State) {
    |s.places| == |s.depth| && forall t :: 0 <= t < |s.places| ==> s.places[t].Outside?
  }

  lemma RunsCons(s: State, e: Event, rest: seq<Event>, s': State)
    requires Enabled(s, e) && Shallow(s, e) && Runs(Next(s, e), rest, s')
    ensures Runs(s, [e] + rest, s')
    ensures !Harmful(s, e) && Harmless(Next(s, e), rest, s') ==> Harmless(s, [e] + rest, s')
  {
    hide Next, Enabled, Shallow, Harmful;
    assert ([e] + rest)[1..] == rest;
  }

  /** A call of three or four accesses that runs alone. */
  lemma CallRuns(s: State, begin: Event, more: bool, s': State)
    requires Enabled(s, begin) && Shallow(s, begin)
    requires var a, s1 := Access(begin.thread, false), Next(s, begin);
      && Enabled(s1, a) && var s2 := Next(s1, a);
      && Enabled(s2, a) && var s3 := Next(s2, a);
      && if more then Enabled(s3, a) && Next(s3, a) == s' else s3 == s'
    ensures var a := Access(begin.thread, false);
      Runs(s, [begin, a, a] + if more then [a] else [], s')
    ensures var a, s1 := Access(begin.thread, false), Next(s, begin);
      var events := [begin, a, a] + if more then [a] else [];
      !Harmful(s, begin) && !Harmful(s1, a) && !Harmful(Next(s1, a), a) && (more ==> !Harmful(Next(Next(s1, a), a), a))
      ==> Harmless(s, events, s')
  {
    hide Next, Enabled, Harmful;
    var a, s1 := Access(begin.thread, false), Next(s, begin);
    var s2 := Next(s1, a);
    var tail := if more then [a] else [];
    if more {
      RunsCons(Next(s2, a), a, [], s');
      assert [a] + [] == [a];
    }
    RunsCons(s2, a, tail, s');
    RunsCons(s1, a, [a] + tail, s');
    RunsCons(s, begin, [a] + ([a] + tail), s');
    assert [begin] + ([a] + ([a] + tail)) == [begin, a, a] + tail;
  }

  lemma AtTwice(s: State, t: nat, place: Place)
    requires s.Thread(t) && s.places[t].Outside?
    ensures s.At(t, place).At(t, Outside) == s && s.At(t, place).Thread(t)
    ensures forall p: Place :: s.At(t, place).At(t, p) == s.At(t, p)
  {
    forall p: Place ensures s.At(t, place).At(t, p) == s.At(t, p) {
      assert s.places[t := place][t := p] == s.places[t := p];
    }
    assert s.places[t := Outside] == s.places;
  }

  /** The accesses of a release that takes a level, frees the lock, or is refused. */
  lemma ReleaseSteps(s: State, t: nat)
    requires s.Thread(t) && s.places[t].Outside?
    ensures var a, s1 := Access(t, false), s.At(t, CheckRecursion);
      && Enabled(s, BeginRelease(t)) && Next(s, BeginRelease(t)) == s1 && Enabled(s1, a)
      && var s2 := s.At(t, if s.recursion > 0 then DecrementRead else CheckOwner);
      && Next(s1, a) == s2 && Enabled(s2, a)
      && if s.recursion > 0 || s.owner == t then
           var s3 := s.At(t, if s.recursion > 0 then DecrementWrite(s.recursion) else ClearOwner);
           Next(s2, a) == s3 && Enabled(s3, a) && Next(s3, a) == Released(s, t)
         else Next(s2, a) == s && Released(s, t) == s
  {
    if s.recursion > 0 {
      DivModIs(s.recursion + TWO_32 - 1, TWO_32, 1, s.recursion - 1);
      AtTwice(s, t, DecrementRead);
      AtTwice(s, t, DecrementWrite(s.recursion));
    } else {
      AtTwice(s, t, CheckOwner);
      AtTwice(s, t, ClearOwner);
    }
    AtTwice(s, t, CheckRecursion);
  }

  /** A release that runs alone; it is harmful only for a stranger to a nested lock. */
  lemma ReleaseRuns(s: State, t: nat)
    requires Quiet(s) && s.Thread(t)
    ensures Runs(s, ReleaseCall(s, t), Released(s, t)) && Quiet(Released(s, t))
    ensures s.owner == t || s.recursion == 0 ==> Harmless(s, ReleaseCall(s, t), Released(s, t))
  {
    hide Runs, Harmless, Next;
    ReleaseSteps(s, t);
    CallRuns(s, BeginRelease(t), s.recursion > 0 || s.owner == t, Released(s, t));
  }

  /** The accesses of a lock call that nests, or takes the free lock. */
  lemma LockSteps(s: State, t: nat)
    requires s.Thread(t) && s.places[t].Outside? && (s.owner == 0 || s.owner == t)
    ensures var a, s1 := Access(t, false), s.At(t, LoadOwner(false));
      && Enabled(s, BeginLock(t, false)) && Next(s, BeginLock(t, false)) == s1 && Enabled(s1, a)
      && var s2 := s.At(t, if s.owner == t then IncrementRead else CompareExchange(false));
      && Next(s1, a) == s2 && Enabled(s2, a)
      && if s.owner == t then
           var s3 := s.At(t, IncrementWrite(s.recursion));
           Next(s2, a) == s3 && Enabled(s3, a) && Next(s3, a) == Locked(s, t)
         else Next(s2, a) == Locked(s, t)
  {
    if s.owner == t {
      AtTwice(s, t, IncrementRead);
      AtTwice(s, t, IncrementWrite(s.recursion));
    } else {
      AtTwice(s, t, CompareExchange(false));
    }
    AtTwice(s, t, LoadOwner(false));
  }

  lemma LockRuns(s: State, t: nat)
    requires Quiet(s) && s.Thread(t) && (s.owner == 0 || s.owner == t) && s.depth[t] < TWO_32
    ensures Runs(s, LockCall(s, t), Locked(s, t)) && Quiet(Locked(s, t)) && Harmless(s, LockCall(s, t), Locked(s, t))
  {
    hide Runs, Harmless, Next;
    LockSteps(s, t);
    CallRuns(s, BeginLock(t, false), s.owner == t, Locked(s, t));
  }

  /** A stranger's release changes nothing exactly when the holder has not nested. */
  lemma StrangerHarmsExactlyWhen(s: State, t: nat)
    requires Exclusive(s) && Quiet(s) && s.Thread(t) && s.owner != t
    ensures Exclusive(Released(s, t)) <==> s.recursion == 0
    ensures s.recursion == 0 ==> Released(s, t) == s
  {
    if s.recursion > 0 {
      assert Released(s, t).depth[s.owner] != Released(s, t).recursion as nat + 1;
    }
  }

  lemma {:induction false} RunsAppend(s: State, a: seq<Event>, m: State, b: seq<Event>, s': State)
    requires Runs(s, a, m) && Runs(m, b, s')
    ensures Runs(s, a + b, s')
    ensures Harmless(s, a, m) && Harmless(m, b, s') ==> Harmless(s, a + b, s')
    decreases |a|
  {
    hide Next, Enabled, Shallow, Harmful;
    if a == [] {
      assert a + b == b;
    } else {
      assert (a + b)[1..] == a[1..] + b;
      RunsAppend(Next(s, a[0]), a[1..], m, b, s');
    }
  }

  /** A holder from whom a level was taken frees the lock one release too early. */
  lemma {:induction false} Unwind(s: State, t: nat) returns (events: seq<Event>, s': State)
    requires Quiet(s) && s.Thread(t) && s.owner == t && s.depth[t] == s.recursion as nat + 2
    ensures Runs(s, events, s') && Harmless(s, events, s')
    ensures Quiet(s') && s' == s.(owner := 0, recursion := 0).Deeper(t, 1)
    decreases s.recursion
  {
    hide Runs, Harmless;
    events, s' := ReleaseCall(s, t), Released(s, t);
    ReleaseRuns(s, t);
    if s.recursion > 0 {
      var rest;
      rest, s' := Unwind(s', t);
      RunsAppend(s, events, Released(s, t), rest, s');
      events := events + rest;
    }
  }

  /** After a stranger's release of a nested lock, harmless calls alone lead to two holders. */
  lemma StrangerLeadsToTwoHolders(s: State, t: nat) returns (rest: seq<Event>, s': State)
    requires Exclusive(s) && Quiet(s) && s.Thread(t) && s.owner != t && s.recursion > 0
    ensures Runs(Released(s, t), rest, s') && Harmless(Released(s, t), rest, s')
    ensures Runs(s, ReleaseCall(s, t) + rest, s')
    ensures s'.Thread(t) && s'.depth[t] == 1 && s'.Thread(s.owner) && s'.depth[s.owner] == 1
  {
    hide Runs, Harmless, ReleaseCall, LockCall;
    var s1 := Released(s, t);
    ReleaseRuns(s, t);
    var unlocks, s2 := Unwind(s1, s.owner);
    LockRuns(s2, t);
    s' := Locked(s2, t);
    RunsAppend(s1, unlocks, s2, LockCall(s2, t), s');
    rest := unlocks + LockCall(s2, t);
    RunsAppend(s, ReleaseCall(s, t), s1, rest, s');
  }

  /** A run of two threads from the free lock to two holders. */
  lemma StrangerBreaksExclusion() returns (events: seq<Event>, s': State)
    ensures Runs(Free(2), events, s') && s'.Thread(1) && s'.Thread(2) && s'.depth[1] == 1 && s'.depth[2] == 1
  {
    hide Runs, Harmless, ReleaseCall, LockCall;
    var s := Free(2);
    var s1 := Locked(s, 1);
    var s2 := Locked(s1, 1);
    LockRuns(s, 1);
    LockRuns(s1, 1);
    FreeSteady(2);
    RunsAppend(s, LockCall(s, 1), s1, LockCall(s1, 1), s2);
    var locks := LockCall(s, 1) + LockCall(s1, 1);
    RunSafeExactlyWhen(s, locks, s2);
    var rest;
    rest, s' := StrangerLeadsToTwoHolders(s2, 2);
    RunsAppend(s, locks, s2, ReleaseCall(s2, 2) + rest, s');
    events := locks + (ReleaseCall(s2, 2) + rest);
  }
}
