/**
 Message queues (src/modules/coreinit/coreinit_messagequeue.cpp): a ring buffer that refines a bounded
 deque, over every interleaving of senders and receivers.
 */
module MessageQueue {
  import opened Words

  // ---------------------------------------------------------------- the ring

  datatype Ring<M> = Ring(messages: seq<M>, first: nat, used: nat)
  {
    function Size(): nat {
      |messages|
    }

    /** `first` stays below the size and `used` never exceeds it. */
    predicate Valid() {
      used <= Size() && (Size() > 0 ==> first < Size()) && (Size() == 0 ==> first == 0)
    }

    /** The queued messages, oldest first. */
    function Contents(): (c: seq<M>)
      requires Valid()
      ensures |c| == used
    {
      seq(used, i requires 0 <= i < used => messages[Wrap(first + i, Size())])
    }

    /** OSSendMessage's copy: after the last message. */
    function Send(m: M): Ring<M>
      requires Valid() && used < Size()
    {
      Ring(messages[(first + used) % Size() := m], first, used + 1)
    }

    /** OSJamMessage's copy: before the first message. */
    function Jam(m: M): Ring<M>
      requires Valid() && used < Size()
    {
      var first' := if first == 0 then Size() - 1 else first - 1;
      Ring(messages[first' := m], first', used + 1)
    }

    /** OSReceiveMessage's removal of the first message. */
    function Drop(): Ring<M>
      requires Valid() && used > 0
    {
      Ring(messages, (first + 1) % Size(), used - 1)
    }
  }

  /** The remainder by `size` of a number below `2 * size`. */
  function Wrap(n: nat, size: nat): nat {
    if n < size then n else n - size
  }

  lemma RemainderIsWrap(n: nat, size: nat)
    requires n < 2 * size
    ensures n % size == Wrap(n, size) < size
  {
    DivModIs(n, size, if n < size then 0 else 1, Wrap(n, size));
  }

  /** Sending appends. */
  lemma SendAppends<M>(r: Ring<M>, m: M)
    requires r.Valid() && r.used < r.Size()
    ensures (r.first + r.used) % r.Size() < r.Size()
    ensures r.Send(m).Valid() && r.Send(m).Contents() == r.Contents() + [m]
  {
    RemainderIsWrap(r.first + r.used, r.Size());
    var r' := r.Send(m);
    forall i | 0 <= i < r'.used
      ensures r'.Contents()[i] == (r.Contents() + [m])[i]
    {
      ContentsAt(r', i);
      if i < r.used {
        ContentsAt(r, i);
      }
    }
  }

  lemma ContentsAt<M>(r: Ring<M>, i: nat)
    requires r.Valid() && i < r.used
    ensures Wrap(r.first + i, r.Size()) < r.Size() && r.Contents()[i] == r.messages[Wrap(r.first + i, r.Size())]
  {}

  /** Jamming prepends. */
  lemma JamPrepends<M>(r: Ring<M>, m: M)
    requires r.Valid() && r.used < r.Size()
    ensures r.Jam(m).Valid() && r.Jam(m).Contents() == [m] + r.Contents()
  {
    var r' := r.Jam(m);
    forall i | 0 <= i < r'.used
      ensures r'.Contents()[i] == ([m] + r.Contents())[i]
    {
      ContentsAt(r', i);
      if i > 0 {
        ContentsAt(r, i - 1);
      }
    }
  }

  /** Receiving takes the first message. */
  lemma DropTakesFirst<M>(r: Ring<M>)
    requires r.Valid() && r.used > 0
    ensures r.Drop().Valid() && r.messages[r.first] == r.Contents()[0] && r.Drop().Contents() == r.Contents()[1..]
  {
    RemainderIsWrap(r.first + 1, r.Size());
    ContentsAt(r, 0);
    var r' := r.Drop();
    forall i | 0 <= i < r'.used
      ensures r'.Contents()[i] == r.Contents()[1..][i]
    {
      ContentsAt(r', i);
      ContentsAt(r, i + 1);
    }
  }

  // ---------------------------------------------------------------- the code

  datatype Status = Refused | Asleep | Accepted

  class OSMessageQueue<M(0)> {
    const messages: array<M>
    var first: nat
    var used: nat

    /** OSInitMessageQueue */
    constructor (messages: array<M>)
      ensures this.messages == messages && Valid() && View().Contents() == []
    {
      this.messages, first, used := messages, 0, 0;
    }

    function View(): Ring<M>
      reads this, messages
    {
      Ring(messages[..], first, used)
    }

    predicate Valid()
      reads this, messages
    {
      View().Valid()
    }

    /** OSSendMessage from taking the lock, or waking up, until it sleeps or returns. */
    method SendMessage(message: M, blocking: bool, woken: bool) returns (status: Status)
      requires Valid()
      modifies this`used, messages
      ensures Valid()
      ensures status == if old(used) < messages.Length then Accepted else if blocking || woken then Asleep else Refused
      ensures View().Contents() == old(View().Contents()) + if status == Accepted then [message] else []
      ensures View() == if status == Accepted then old(View()).Send(message) else old(View())
    {
      if !woken && !blocking && used == messages.Length {
        return Refused;
      }
      if used == messages.Length {
        return Asleep;
      }
      SendAppends(View(), message);
      ghost var after := View().Send(message);
      var index := (first + used) % messages.Length;
      messages[index] := message;
      used := used + 1;
      assert View() == after;
      return Accepted;
    }

    /** OSJamMessage, likewise. */
    method JamMessage(message: M, blocking: bool, woken: bool) returns (status: Status)
      requires Valid()
      modifies this, messages
      ensures Valid()
      ensures status == if old(used) < messages.Length then Accepted else if blocking || woken then Asleep else Refused
      ensures View().Contents() == (if status == Accepted then [message] else []) + old(View().Contents())
      ensures View() == if status == Accepted then old(View()).Jam(message) else old(View())
    {
      if !woken && !blocking && used == messages.Length {
        return Refused;
      }
      if used == messages.Length {
        return Asleep;
      }
      JamPrepends(View(), message);
      ghost var after := View().Jam(message);
      if first == 0 {
        first := messages.Length - 1;
      } else {
        first := first - 1;
      }
      messages[first] := message;
      used := used + 1;
      assert View() == after;
      return Accepted;
    }

    /** OSReceiveMessage, likewise. */
    method ReceiveMessage(blocking: bool, woken: bool, unset: M) returns (status: Status, message: M)
      requires Valid()
      modifies this`first, this`used
      ensures Valid()
      ensures status == if old(used) > 0 then Accepted else if blocking || woken then Asleep else Refused
      ensures old(View().Contents()) == (if status == Accepted then [message] else []) + View().Contents()
      ensures View() == if status == Accepted then old(View()).Drop() else old(View())
    {
      message := unset;
      if !woken && !blocking && used == 0 {
        return Refused, message;
      }
      if used == 0 {
        return Asleep, message;
      }
      DropTakesFirst(View());
      message := messages[first];
      first := (first + 1) % messages.Length;
      used := used - 1;
      return Accepted, message;
    }

    /** OSPeekMessage */
    method PeekMessage(unset: M) returns (found: bool, message: M)
      requires Valid()
      ensures found <==> View().Contents() != []
      ensures found ==> message == View().Contents()[0]
    {
      if used == 0 {
        return false, unset;
      }
      DropTakesFirst(View());
      return true, messages[first];
    }
  }

  // ---------------------------------------------------------------- all interleavings

  datatype Call<M> = Send(message: M, blocking: bool) | Jam(message: M, blocking: bool) | Receive(blocking: bool) | Peek

  /** Where a thread is while the scheduler lock is free: outside the queue's code, or asleep in it. */
  datatype Place<M> = Outside | Sending(message: M) | Jamming(message: M) | Receiving

  /** A queue, its threads, and what has been accepted and delivered so far; a queued message has the
      number under which it was accepted. */
  datatype System<M> = System(
    ring: Ring<M>, places: seq<Place<M>>, accepted: seq<M>, queued: seq<nat>, delivered: seq<(nat, M)>)

  datatype Event<M> = Begin(thread: nat, call: Call<M>) | Wake(thread: nat)

  /** The queue is in range, and every queued message has its number. */
  predicate Ready<M>(s: System<M>) {
    s.ring.Valid() && |s.queued| == s.ring.used
  }

  function Accept<M>(s: System<M>, t: nat, m: M, front: bool): (s': System<M>)
    requires Ready(s) && s.ring.used < s.ring.Size() && t < |s.places|
    ensures Ready(s')
  {
    var id := |s.accepted|;
    System(if front then s.ring.Jam(m) else s.ring.Send(m), s.places[t := Outside], s.accepted + [m],
           if front then [id] + s.queued else s.queued + [id], s.delivered)
  }

  function Deliver<M>(s: System<M>, t: nat): (s': System<M>)
    requires Ready(s) && s.ring.used > 0 && t < |s.places|
    ensures Ready(s')
  {
    System(s.ring.Drop(), s.places[t := Outside], s.accepted, s.queued[1..],
           s.delivered + [(s.queued[0], s.ring.messages[s.ring.first])])
  }

  function Sleep<M>(s: System<M>, t: nat, place: Place<M>, blocking: bool): (s': System<M>)
    requires t < |s.places|
  {
    if blocking then s.(places := s.places[t := place]) else s
  }

  function StepSend<M>(s: System<M>, t: nat, m: M, front: bool, blocking: bool): (s': System<M>)
    requires Ready(s) && t < |s.places|
    ensures Ready(s')
  {
    if s.ring.used == s.ring.Size() then Sleep(s, t, if front then Jamming(m) else Sending(m), blocking)
    else Accept(s, t, m, front)
  }

  function StepReceive<M>(s: System<M>, t: nat, blocking: bool): (s': System<M>)
    requires Ready(s) && t < |s.places|
    ensures Ready(s')
  {
    if s.ring.used == 0 then Sleep(s, t, Receiving, blocking) else Deliver(s, t)
  }

  /** A thread outside begins any call; a sleeping one may be woken at any time and tests again. */
  function Next<M>(s: System<M>, e: Event<M>): (s': System<M>)
    requires Ready(s)
    ensures Ready(s')
  {
    if e.thread >= |s.places| then s
    else match e
      case Begin(t, call) =>
        if s.places[t] != Outside then s
        else (match call
          case Send(m, blocking) => StepSend(s, t, m, false, blocking)
          case Jam(m, blocking) => StepSend(s, t, m, true, blocking)
          case Receive(blocking) => StepReceive(s, t, blocking)
          case Peek => s)
      case Wake(t) =>
        match s.places[t]
        case Outside => s
        case Sending(m) => StepSend(s, t, m, false, true)
        case Jamming(m) => StepSend(s, t, m, true, true)
        case Receiving => StepReceive(s, t, true)
  }

  /** A send or jam that thread `t` begins, or goes on with, is accepted exactly when there is room, and otherwise sleeps if it may. */
  lemma SendsExactlyWhen<M>(s: System<M>, e: Event<M>, m: M, front: bool, blocking: bool)
    requires Ready(s) && e.thread < |s.places|
    requires
      || (e.Begin? && s.places[e.thread] == Outside && e.call == if front then Call.Jam(m, blocking) else Call.Send(m, blocking))
      || (e.Wake? && s.places[e.thread] == (if front then Jamming(m) else Sending(m)) && blocking)
    ensures var s', t := Next(s, e), e.thread;
      if s.ring.used < s.ring.Size() then
        && s'.ring == (if front then s.ring.Jam(m) else s.ring.Send(m)) && s'.accepted == s.accepted + [m]
        && s'.ring.Contents() == (if front then [m] + s.ring.Contents() else s.ring.Contents() + [m])
        && s'.delivered == s.delivered && s'.places == s.places[t := Outside]
      else
        s' == s.(places := if blocking then s.places[t := if front then Jamming(m) else Sending(m)] else s.places)
  {
    if s.ring.used < s.ring.Size() {
      SendAppends(s.ring, m);
      JamPrepends(s.ring, m);
    }
  }

  /** A receive delivers the first message exactly when there is one, and otherwise sleeps if it may. */
  lemma ReceivesExactlyWhen<M>(s: System<M>, e: Event<M>, blocking: bool)
    requires Ready(s) && e.thread < |s.places|
    requires
      || (e.Begin? && s.places[e.thread] == Outside && e.call == Call.Receive(blocking))
      || (e.Wake? && s.places[e.thread] == Receiving && blocking)
    ensures var s', t := Next(s, e), e.thread;
      if s.ring.Contents() != [] then
        && s'.ring == s.ring.Drop() && s'.delivered == s.delivered + [(s.queued[0], s.ring.Contents()[0])]
        && s'.ring.Contents() == s.ring.Contents()[1..] && s'.queued == s.queued[1..]
        && s'.accepted == s.accepted && s'.places == s.places[t := Outside]
      else
        s' == s.(places := if blocking then s.places[t := Receiving] else s.places)
  {
    if s.ring.used > 0 {
      DropTakesFirst(s.ring);
    }
  }

  /** Each accepted message is queued, as it was accepted, or was delivered, as it was accepted, and never both or twice. */
  ghost predicate Conserved<M>(s: System<M>) {
    && Ready(s)
    && (forall i :: 0 <= i < |s.queued| ==> s.queued[i] < |s.accepted| && s.ring.Contents()[i] == s.accepted[s.queued[i]])
    && (forall k :: 0 <= k < |s.delivered| ==>
          s.delivered[k].0 < |s.accepted| && s.delivered[k].1 == s.accepted[s.delivered[k].0])
    && (forall i, j :: 0 <= i < j < |s.queued| ==> s.queued[i] != s.queued[j])
    && (forall k, l :: 0 <= k < l < |s.delivered| ==> s.delivered[k].0 != s.delivered[l].0)
    && (forall i, k :: 0 <= i < |s.queued| && 0 <= k < |s.delivered| ==> s.queued[i] != s.delivered[k].0)
    && |s.accepted| == |s.queued| + |s.delivered|
  }

  lemma AcceptConserves<M>(s: System<M>, t: nat, m: M, front: bool)
    requires Conserved(s) && s.ring.used < s.ring.Size() && t < |s.places|
    ensures Conserved(Accept(s, t, m, front))
  {
    hide Conserved;
    if front {
      AcceptFront(s, t, m);
    } else {
      AcceptBack(s, t, m);
    }
  }

  lemma AcceptBack<M>(s: System<M>, t: nat, m: M)
    requires Conserved(s) && s.ring.used < s.ring.Size() && t < |s.places|
    ensures Conserved(Accept(s, t, m, false))
  {
    hide Ring.Contents, Ring.Send;
    SendAppends(s.ring, m);
  }

  lemma AcceptFront<M>(s: System<M>, t: nat, m: M)
    requires Conserved(s) && s.ring.used < s.ring.Size() && t < |s.places|
    ensures Conserved(Accept(s, t, m, true))
  {
    hide Ring.Contents, Ring.Jam;
    JamPrepends(s.ring, m);
  }

  lemma DeliverConserves<M>(s: System<M>, t: nat)
    requires Conserved(s) && s.ring.used > 0 && t < |s.places|
    ensures Conserved(Deliver(s, t))
  {
    hide Ring.Contents, Ring.Drop;
    DropTakesFirst(s.ring);
  }

  lemma NextConserves<M>(s: System<M>, e: Event<M>)
    requires Conserved(s)
    ensures Conserved(Next(s, e))
  {
    hide Ring.Contents, Ring.Drop, Ring.Send, Ring.Jam, Accept, Deliver;
    if e.thread < |s.places| {
      if s.ring.used > 0 {
        DeliverConserves(s, e.thread);
      }
      if s.ring.used < s.ring.Size() {
        forall m, front
          ensures Conserved(Accept(s, e.thread, m, front))
        {
          AcceptConserves(s, e.thread, m, front);
        }
      }
    }
  }

  function Run<M>(s: System<M>, events: seq<Event<M>>): (s': System<M>)
    requires Ready(s)
    ensures Ready(s')
    decreases |events|
  {
    if events == [] then s else Run(Next(s, events[0]), events[1..])
  }

  /** Over every run: no message is lost, altered, or delivered twice. */
  lemma {:induction false} RunConserves<M>(s: System<M>, events: seq<Event<M>>)
    requires Conserved(s)
    ensures Conserved(Run(s, events))
    decreases |events|
  {
    hide Next;
    if events != [] {
      NextConserves(s, events[0]);
      RunConserves(Next(s, events[0]), events[1..]);
    }
  }

  /** Nothing was ever jammed: what was delivered, then what is queued, is what was accepted, in order. */
  ghost predicate InOrder<M>(s: System<M>) {
    && (forall k :: 0 <= k < |s.delivered| ==> s.delivered[k].0 == k)
    && (forall i :: 0 <= i < |s.queued| ==> s.queued[i] == |s.delivered| + i)
    && (forall t :: 0 <= t < |s.places| ==> !s.places[t].Jamming?)
  }

  lemma NextInOrder<M>(s: System<M>, e: Event<M>)
    requires Conserved(s) && InOrder(s) && !(e.Begin? && e.call.Jam?)
    ensures InOrder(Next(s, e))
  {
    hide Ring.Contents, Ring.Drop, Ring.Send, Ring.Jam;
  }

  lemma {:induction false} RunInOrder<M>(s: System<M>, events: seq<Event<M>>)
    requires Conserved(s) && InOrder(s) && forall e :: e in events ==> !(e.Begin? && e.call.Jam?)
    ensures InOrder(Run(s, events))
    decreases |events|
  {
    hide Next, InOrder;
    if events != [] {
      NextConserves(s, events[0]);
      NextInOrder(s, events[0]);
      RunInOrder(Next(s, events[0]), events[1..]);
    }
  }

  function Messages<M>(delivered: seq<(nat, M)>): seq<M> {
    seq(|delivered|, k requires 0 <= k < |delivered| => delivered[k].1)
  }

  /** First in, first out: without jams, deliveries followed by the queue are the accepted messages in order. */
  lemma FirstInFirstOut<M>(s: System<M>, events: seq<Event<M>>)
    requires Conserved(s) && InOrder(s) && forall e :: e in events ==> !(e.Begin? && e.call.Jam?)
    ensures var s' := Run(s, events); Messages(s'.delivered) + s'.ring.Contents() == s'.accepted
  {
    hide Ring.Contents;
    RunConserves(s, events);
    RunInOrder(s, events);
  }

  /** A new queue. */
  lemma StartsConserved<M>(messages: seq<M>, threads: nat)
    ensures var s := System(Ring(messages, 0, 0), seq(threads, t => Place<M>.Outside), [], [], []);
      Conserved(s) && InOrder(s)
  {}
}
