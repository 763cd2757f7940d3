/** The protocol of message_manager.c: any number of threads push and wait for
    messages through one mutex, one counting semaphore and one queue. Each step
    of a call is a separate atomic step; steps of different threads interleave. */
module MessageProtocol {
  import opened Sequences

  type Thread = nat

  /** Where a thread stands in pushmessage or waitmessage. */
  datatype PC<M> =
    | Idle
    | PushLock(m: M)             // about to lock the mutex
    | PushEnqueue(m: M)          // holds the mutex, about to push
    | PushUnlock                 // holds the mutex, has pushed
    | PushPost                   // has unlocked, about to post the semaphore
    | WaitSemaphore              // about to pass the semaphore
    | PopLock                    // has passed the semaphore, about to lock
    | PopDequeue                 // holds the mutex, about to pop
    | PopUnlock(got: Option<M>)  // holds the mutex, has popped
  {
    predicate HoldsMutex() {
      PushEnqueue? || PushUnlock? || PopDequeue? || PopUnlock?
    }
  }

  /** `pushed` and `popped` record the messages in the order in which they were
      enqueued under the mutex and dequeued. */
  datatype State<M> = State(queue: seq<M>, sem: nat, owner: Option<Thread>, pcs: map<Thread, PC<M>>,
                            pushed: seq<M>, popped: seq<M>)

  /** A thread calls pushmessage or waitmessage, or goes on with its call. */
  datatype Event<M> = CallPush(t: Thread, m: M) | CallWait(t: Thread) | Go(t: Thread)

  ghost predicate Enabled<M>(s: State<M>, e: Event<M>) {
    && e.t in s.pcs
    && match s.pcs[e.t]
       case Idle => !e.Go?
       case PushLock(_) => e.Go? && s.owner == None
       case WaitSemaphore => e.Go? && s.sem > 0
       case PopLock => e.Go? && s.owner == None
       case _ => e.Go?
  }

  ghost function Step<M>(s: State<M>, e: Event<M>): State<M>
    requires Enabled(s, e)
  {
    var t := e.t;
    match s.pcs[t]
    case Idle => s.(pcs := s.pcs[t := if e.CallPush? then PushLock(e.m) else WaitSemaphore])
    case PushLock(m) => s.(owner := Some(t), pcs := s.pcs[t := PushEnqueue(m)])
    case PushEnqueue(m) => s.(queue := s.queue + [m], pushed := s.pushed + [m], pcs := s.pcs[t := PushUnlock])
    case PushUnlock => s.(owner := None, pcs := s.pcs[t := PushPost])
    case PushPost => s.(sem := s.sem + 1, pcs := s.pcs[t := Idle])
    case WaitSemaphore => s.(sem := s.sem - 1, pcs := s.pcs[t := PopLock])
    case PopLock => s.(owner := Some(t), pcs := s.pcs[t := PopDequeue])
    case PopDequeue =>
      if s.queue == [] then s.(pcs := s.pcs[t := PopUnlock(None)])
      else s.(queue := s.queue[1..], popped := s.popped + [s.queue[0]], pcs := s.pcs[t := PopUnlock(Some(s.queue[0]))])
    case PopUnlock(_) => s.(owner := None, pcs := s.pcs[t := Idle])
  }

  /** A new manager used by the given threads. */
  ghost function Initial<M>(threads: set<Thread>): State<M> {
    State([], 0, None, map t | t in threads :: Idle, [], [])
  }

  ghost predicate IsRun<M>(s: State<M>, events: seq<Event<M>>)
    decreases |events|
  {
    events == [] || (Enabled(s, events[0]) && IsRun(Step(s, events[0]), events[1..]))
  }

  ghost function Final<M>(s: State<M>, events: seq<Event<M>>): State<M>
    requires IsRun(s, events)
    decreases |events|
  {
    if events == [] then s else Final(Step(s, events[0]), events[1..])
  }

  /** Consumers past the semaphore that have not popped yet. */
  ghost function Passed<M>(s: State<M>): set<Thread> {
    set t | t in s.pcs && (s.pcs[t].PopLock? || s.pcs[t].PopDequeue?)
  }

  /** Producers that have enqueued but not posted yet. */
  ghost function Unposted<M>(s: State<M>): set<Thread> {
    set t | t in s.pcs && (s.pcs[t].PushUnlock? || s.pcs[t].PushPost?)
  }

  /** Every queued message is accounted for by the semaphore or by a thread on its way. */
  ghost predicate Balanced<M>(s: State<M>) {
    |s.queue| == s.sem + |Passed(s)| + |Unposted(s)|
  }

  /** The mutex is owned by exactly the thread that is inside. */
  ghost predicate Exclusive<M>(s: State<M>) {
    && (forall t :: t in s.pcs && s.pcs[t].HoldsMutex() ==> s.owner == Some(t))
    && (s.owner.Some? ==> s.owner.value in s.pcs && s.pcs[s.owner.value].HoldsMutex())
  }

  ghost predicate Fifo<M>(s: State<M>) {
    s.popped + s.queue == s.pushed
  }

  /** Nobody who passed the semaphore has come back empty-handed. */
  ghost predicate NoEmptyPop<M>(s: State<M>) {
    forall t :: t in s.pcs && s.pcs[t].PopUnlock? ==> s.pcs[t].got.Some?
  }

  ghost predicate Invariant<M>(s: State<M>) {
    Balanced(s) && Exclusive(s) && Fifo(s) && NoEmptyPop(s)
  }

  lemma InitialInvariant<M>(threads: set<Thread>)
    ensures Invariant(Initial<M>(threads))
  {
  }

  /** How a step changes who is between the semaphore and the queue. */
  lemma StepCounts<M>(s: State<M>, e: Event<M>)
    requires Enabled(s, e)
    ensures var s', t, pc := Step(s, e), e.t, s.pcs[e.t];
            && (t in Passed(s) <==> pc.PopLock? || pc.PopDequeue?)
            && (t in Unposted(s) <==> pc.PushUnlock? || pc.PushPost?)
            && Passed(s') == (if pc.WaitSemaphore? then Passed(s) + {t}
                             else if pc.PopDequeue? then Passed(s) - {t} else Passed(s))
            && Unposted(s') == (if pc.PushEnqueue? then Unposted(s) + {t}
                               else if pc.PushPost? then Unposted(s) - {t} else Unposted(s))
  {
  }

  lemma StepBalanced<M>(s: State<M>, e: Event<M>)
    requires Balanced(s) && Enabled(s, e)
    ensures Balanced(Step(s, e))
  {
    hide Passed, Unposted;
    StepCounts(s, e);
  }

  /** Every step of every thread keeps the invariant. */
  lemma StepInvariant<M>(s: State<M>, e: Event<M>)
    requires Invariant(s) && Enabled(s, e)
    ensures Invariant(Step(s, e))
  {
    StepBalanced(s, e);
    if s.pcs[e.t].PopDequeue? {
      assert e.t in Passed(s);
    }
  }

  /** The invariant holds throughout every run of any number of threads. */
  lemma {:induction false} RunInvariant<M>(s: State<M>, events: seq<Event<M>>)
    requires Invariant(s) && IsRun(s, events)
    ensures Invariant(Final(s, events))
    decreases |events|
  {
    if events != [] {
      StepInvariant(s, events[0]);
      RunInvariant(Step(s, events[0]), events[1..]);
    }
  }

  /** Whenever a consumer that passed the semaphore reaches the queue, a message is there:
      the oldest one that was pushed and not yet delivered. */
  lemma WaitAlwaysDelivers<M>(threads: set<Thread>, events: seq<Event<M>>, t: Thread)
    requires IsRun(Initial(threads), events)
    requires t in Final(Initial(threads), events).pcs && Final(Initial(threads), events).pcs[t].PopDequeue?
    ensures var s := Final(Initial(threads), events);
            |s.popped| < |s.pushed| && Step(s, Go(t)).pcs[t] == PopUnlock(Some(s.pushed[|s.popped|]))
  {
    InitialInvariant<M>(threads);
    RunInvariant(Initial(threads), events);
    assert t in Passed(Final(Initial(threads), events));
  }

  /** Deliveries are a prefix of the pushes, in the same order, and the rest is still queued. */
  lemma RunIsFifo<M>(threads: set<Thread>, events: seq<Event<M>>)
    requires IsRun(Initial(threads), events)
    ensures var s := Final(Initial(threads), events);
            && s.popped + s.queue == s.pushed
            && (NoDup(s.pushed) ==> NoDup(s.popped) && forall m :: m in s.popped ==> m !in s.queue)
  {
    InitialInvariant<M>(threads);
    RunInvariant(Initial(threads), events);
    var s := Final(Initial(threads), events);
    assert forall i :: 0 <= i < |s.popped| ==> s.popped[i] == s.pushed[i];
    assert forall i :: 0 <= i < |s.queue| ==> s.queue[i] == s.pushed[|s.popped| + i];
  }

  /** With no call in progress other than waits at the semaphore, a wait blocks exactly when the queue is empty. */
  lemma BlocksOnlyWhenEmpty<M>(s: State<M>, t: Thread)
    requires Invariant(s) && t in s.pcs && s.pcs[t].WaitSemaphore?
    requires forall u :: u in s.pcs ==> s.pcs[u].Idle? || s.pcs[u].WaitSemaphore?
    ensures Enabled(s, Go(t)) <==> s.queue != []
  {
  }

  lemma EmptyRun<M>(s: State<M>)
    ensures IsRun(s, []) && Final(s, []) == s
  {
  }

  lemma StepThenRun<M>(s: State<M>, events: seq<Event<M>>)
    requires events != [] && Enabled(s, events[0]) && IsRun(Step(s, events[0]), events[1..])
    ensures IsRun(s, events) && Final(s, events) == Final(Step(s, events[0]), events[1..])
  {
  }

  /** A call of pushmessage by thread t, not interrupted. */
  ghost function PushEvents<M>(t: Thread, m: M): seq<Event<M>> {
    [CallPush(t, m), Go(t), Go(t), Go(t), Go(t)]
  }

  lemma FiveSteps<M>(s: State<M>, events: seq<Event<M>>)
    requires |events| == 5 && Enabled(s, events[0])
    requires var s1 := Step(s, events[0]);
             && Enabled(s1, events[1])
             && var s2 := Step(s1, events[1]);
             && Enabled(s2, events[2])
             && var s3 := Step(s2, events[2]);
             && Enabled(s3, events[3])
             && Enabled(Step(s3, events[3]), events[4])
    ensures IsRun(s, events)
    ensures var s3 := Step(Step(Step(s, events[0]), events[1]), events[2]);
            Final(s, events) == Step(Step(s3, events[3]), events[4])
  {
    hide IsRun, Final, Enabled, Step;
    var s1 := Step(s, events[0]);
    var s2 := Step(s1, events[1]);
    var s3 := Step(s2, events[2]);
    var s4 := Step(s3, events[3]);
    EmptyRun(Step(s4, events[4]));
    assert events[4..][1..] == [] && events[3..][1..] == events[4..] && events[2..][1..] == events[3..];
    assert events[1..][1..] == events[2..];
    StepThenRun(s4, events[4..]);
    StepThenRun(s3, events[3..]);
    StepThenRun(s2, events[2..]);
    StepThenRun(s1, events[1..]);
    StepThenRun(s, events);
  }

  /** An uninterrupted push appends the message and posts once. */
  lemma PushRun<M>(s: State<M>, t: Thread, m: M)
    requires t in s.pcs && s.pcs[t] == Idle && s.owner == None
    ensures IsRun(s, PushEvents(t, m))
    ensures Final(s, PushEvents(t, m)) == s.(queue := s.queue + [m], sem := s.sem + 1, pushed := s.pushed + [m])
  {
    hide IsRun, Final;
    var events := PushEvents(t, m);
    FiveSteps(s, events);
    var s4 := Step(Step(Step(Step(s, events[0]), Go(t)), Go(t)), Go(t));
    assert Step(s4, Go(t)).pcs == s.pcs;
  }

  /** A call of waitmessage by thread t, not interrupted. */
  ghost function WaitEvents<M>(t: Thread): seq<Event<M>> {
    [CallWait(t), Go(t), Go(t), Go(t), Go(t)]
  }

  /** The steps of an uninterrupted wait, and what it has popped before it unlocks. */
  lemma WaitSteps<M>(s: State<M>, t: Thread)
    requires t in s.pcs && s.pcs[t] == Idle && s.owner == None && s.sem > 0
    ensures var e: Event<M> := CallWait(t);
            && Enabled(s, e)
            && var s1 := Step(s, e);
            && Enabled(s1, Go(t)) && s1.pcs[t].WaitSemaphore?
            && var s2 := Step(s1, Go(t));
            && Enabled(s2, Go(t)) && s2.pcs[t].PopLock?
            && var s3 := Step(s2, Go(t));
            && Enabled(s3, Go(t)) && s3.pcs[t].PopDequeue?
            && var s4 := Step(s3, Go(t));
            && Enabled(s4, Go(t)) && s4.pcs[t] == PopUnlock(if s.queue == [] then None else Some(s.queue[0]))
            && Step(s4, Go(t)) == if s.queue == [] then s.(sem := s.sem - 1)
                                  else s.(queue := s.queue[1..], sem := s.sem - 1, popped := s.popped + [s.queue[0]])
  {
    var s4 := Step(Step(Step(Step(s, CallWait(t)), Go(t)), Go(t)), Go(t));
    assert Step(s4, Go(t)).pcs == s.pcs;
  }

  /** An uninterrupted wait, with a wake-up and a message there, takes one of each and returns: the
      message is the oldest one, and the thread is out of the call again. */
  lemma WaitRun<M>(s: State<M>, t: Thread)
    requires t in s.pcs && s.pcs[t] == Idle && s.owner == None && s.sem > 0 && s.queue != []
    ensures IsRun(s, WaitEvents(t))
    ensures Final(s, WaitEvents(t))
            == s.(queue := s.queue[1..], sem := s.sem - 1, popped := s.popped + [s.queue[0]])
    ensures Delivers(s, WaitEvents(t)[..4], t, s.queue[0])
  {
    hide IsRun, Final, Step, Enabled;
    WaitSteps(s, t);
    var events: seq<Event<M>> := WaitEvents(t);
    var s1 := Step(s, events[0]);
    var s2 := Step(s1, Go(t));
    var s3 := Step(s2, Go(t));
    FiveSteps(s, events);
    EmptyRun(Step(s3, Go(t)));
    assert events[..4][3..][1..] == [] && events[..4][2..][1..] == events[..4][3..];
    assert events[..4][1..][1..] == events[..4][2..];
    StepThenRun(s3, events[..4][3..]);
    StepThenRun(s2, events[..4][2..]);
    StepThenRun(s1, events[..4][1..]);
    StepThenRun(s, events[..4]);
  }

  /** The events are a run from s at whose end thread u has just popped message m. */
  ghost predicate Delivers<M>(s: State<M>, events: seq<Event<M>>, u: Thread, m: M) {
    IsRun(s, events) && u in Final(s, events).pcs && Final(s, events).pcs[u] == PopUnlock(Some(m))
  }

  lemma DeliverNow<M>(s: State<M>, u: Thread) returns (events: seq<Event<M>>)
    requires u in s.pcs && s.pcs[u].PopDequeue? && s.queue != []
    ensures Delivers(s, events, u, s.queue[0])
  {
    events := [Go(u)];
    EmptyRun(Step(s, Go(u)));
    StepThenRun(s, events);
  }

  lemma DeliverLater<M>(s: State<M>, e: Event<M>, rest: seq<Event<M>>, u: Thread, m: M) returns (events: seq<Event<M>>)
    requires Enabled(s, e) && Delivers(Step(s, e), rest, u, m)
    ensures Delivers(s, events, u, m)
  {
    events := [e] + rest;
    assert events[1..] == rest;
    StepThenRun(s, events);
  }

  lemma LockAndDeliver<M>(s: State<M>, u: Thread) returns (events: seq<Event<M>>)
    requires s.owner == None && s.queue != [] && u in s.pcs && s.pcs[u].PopLock?
    ensures Delivers(s, events, u, s.queue[0])
  {
    hide Delivers;
    events := DeliverNow(Step(s, Go(u)), u);
    events := DeliverLater(s, Go(u), events, u, s.queue[0]);
  }

  /** With the mutex free, a queued message is delivered to the waiting thread t or to one before it. */
  lemma FreeMutexDelivers<M>(s: State<M>, t: Thread) returns (events: seq<Event<M>>, u: Thread)
    requires Invariant(s) && s.owner == None && s.queue != [] && t in s.pcs && s.pcs[t].WaitSemaphore?
    ensures Delivers(s, events, u, s.queue[0])
  {
    hide Delivers;
    if s.sem > 0 {
      u := t;
      events := LockAndDeliver(Step(s, Go(t)), t);
      events := DeliverLater(s, Go(t), events, t, s.queue[0]);
    } else if Passed(s) != {} {
      u :| u in Passed(s);
      events := LockAndDeliver(s, u);
    } else {
      assert Unposted(s) != {};
      var p :| p in Unposted(s);
      var posted := Step(s, Go(p));
      u := t;
      events := LockAndDeliver(Step(posted, Go(t)), t);
      events := DeliverLater(posted, Go(t), events, t, s.queue[0]);
      events := DeliverLater(s, Go(p), events, t, s.queue[0]);
    }
  }

  /** No wake-up is lost: while a message is queued and a thread waits, some run delivers the
      oldest message to a wait. */
  lemma {:induction false} NoLostWakeup<M>(s: State<M>, t: Thread) returns (events: seq<Event<M>>, u: Thread)
    requires Invariant(s) && s.queue != [] && t in s.pcs && s.pcs[t].WaitSemaphore?
    ensures Delivers(s, events, u, s.queue[0])
    decreases s.owner.Some?, s.owner.Some? && s.owner.value in s.pcs && s.pcs[s.owner.value].PushEnqueue?
  {
    hide Delivers, Invariant;
    if s.owner == None {
      events, u := FreeMutexDelivers(s, t);
    } else {
      OwnerIsInside(s);
      u := s.owner.value;
      if s.pcs[u].PopDequeue? {
        events := DeliverNow(s, u);
      } else {
        var e: Event<M> := Go(u);
        StepInvariant(s, e);
        events, u := NoLostWakeup(Step(s, e), t);
        events := DeliverLater(s, e, events, u, s.queue[0]);
      }
    }
  }

  lemma OwnerIsInside<M>(s: State<M>)
    requires Invariant(s) && s.owner.Some?
    ensures s.owner.value in s.pcs && s.pcs[s.owner.value].HoldsMutex()
  {
  }
}
