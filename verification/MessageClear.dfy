/** Wake-ups against messages in the protocol of message_manager.c, and what its clear does to
    them: the clear takes no lock, so other threads step between its pops and its reset. */
module MessageClear {
  import opened Sequences
  import opened MessageProtocol

  // ---- Wake-ups and messages --------------------------------------------------------

  /** By how much the wake-ups that were or will be given exceed the queued messages. */
  ghost function Surplus<M>(s: State<M>): int {
    s.sem + |Passed(s)| + |Unposted(s)| - |s.queue|
  }

  /** A consumer is about to find the queue empty. */
  ghost predicate IsEmptyPop<M>(s: State<M>, e: Event<M>) {
    Enabled(s, e) && s.pcs[e.t].PopDequeue? && s.queue == []
  }

  /** How many waits of a run come back empty-handed. */
  ghost function EmptyPops<M>(s: State<M>, events: seq<Event<M>>): nat
    requires IsRun(s, events)
    decreases |events|
  {
    if events == [] then 0
    else (if IsEmptyPop(s, events[0]) then 1 else 0) + EmptyPops(Step(s, events[0]), events[1..])
  }

  /** A step keeps the surplus, except that a pop of the empty queue uses one up. */
  lemma StepSurplus<M>(s: State<M>, e: Event<M>)
    requires Enabled(s, e)
    ensures Surplus(Step(s, e)) == Surplus(s) - if IsEmptyPop(s, e) then 1 else 0
    ensures Surplus(s) >= 0 ==> Surplus(Step(s, e)) >= 0
  {
    hide Passed, Unposted;
    StepCounts(s, e);
  }

  /** Over any run, the surplus used up is the number of empty pops: a surplus of n allows
      at most n of them, and none at all without a surplus. */
  lemma {:induction false} RunSurplus<M>(s: State<M>, events: seq<Event<M>>)
    requires IsRun(s, events)
    ensures Surplus(Final(s, events)) + EmptyPops(s, events) == Surplus(s)
    ensures Surplus(s) >= 0 ==> EmptyPops(s, events) <= Surplus(s)
    decreases |events|
  {
    hide Surplus;
    if events != [] {
      StepSurplus(s, events[0]);
      RunSurplus(Step(s, events[0]), events[1..]);
    }
  }

  /** The events are a run from s in which some wait comes back empty-handed. */
  ghost predicate PopsEmpty<M>(s: State<M>, events: seq<Event<M>>) {
    IsRun(s, events) && EmptyPops(s, events) > 0
  }

  lemma EmptyPopNow<M>(s: State<M>, t: Thread) returns (events: seq<Event<M>>)
    requires IsEmptyPop(s, Go(t))
    ensures events == [Go(t)] && PopsEmpty(s, events)
  {
    events := [Go(t)];
    assert EmptyPops(s, events) == 1 + EmptyPops(Step(s, events[0]), []);
  }

  lemma EmptyPopLater<M>(s: State<M>, e: Event<M>, rest: seq<Event<M>>) returns (events: seq<Event<M>>)
    requires Enabled(s, e) && PopsEmpty(Step(s, e), rest)
    ensures events == [e] + rest && PopsEmpty(s, events)
  {
    events := [e] + rest;
    assert events[1..] == rest;
  }

  lemma StepExclusive<M>(s: State<M>, e: Event<M>)
    requires Exclusive(s) && Enabled(s, e)
    ensures Exclusive(Step(s, e))
  {
  }

  /** By how much the threads between semaphore and queue exceed the queued messages. */
  ghost function Excess<M>(s: State<M>): int {
    Surplus(s) - s.sem
  }

  /** Thread x, past the semaphore, takes the free mutex and pops; of excess threads one pops nothing in the end. */
  lemma {:induction false} PasserPopsEmpty<M>(s: State<M>, x: Thread) returns (events: seq<Event<M>>)
    requires s.owner == None && Exclusive(s) && Excess(s) > 0 && x in s.pcs && s.pcs[x].PopLock?
    ensures PopsEmpty(s, events)
    decreases |s.queue|, 0
  {
    hide PopsEmpty, Surplus, Exclusive;
    var s1 := Step(s, Go(x));
    StepExclusive(s, Go(x));
    StepSurplus(s, Go(x));
    if s.queue == [] {
      events := EmptyPopNow(s1, x);
    } else {
      var s2 := Step(s1, Go(x));
      StepExclusive(s1, Go(x));
      StepSurplus(s1, Go(x));
      StepExclusive(s2, Go(x));
      StepSurplus(s2, Go(x));
      events := FreeMutexPopsEmpty(Step(s2, Go(x)));
      events := EmptyPopLater(s2, Go(x), events);
      events := EmptyPopLater(s1, Go(x), events);
    }
    events := EmptyPopLater(s, Go(x), events);
  }

  /** With the mutex free, excess threads pop the queue empty and then once more. A thread that is
      about to post waits for its own post. */
  lemma {:induction false} FreeMutexPopsEmpty<M>(s: State<M>) returns (events: seq<Event<M>>)
    requires s.owner == None && Exclusive(s) && Excess(s) > 0
    ensures PopsEmpty(s, events)
    decreases |s.queue|, 1
  {
    hide PopsEmpty;
    assert Passed(s) + Unposted(s) != {};
    var x :| x in Passed(s) + Unposted(s);
    hide Surplus, Exclusive, Passed, Unposted;
    FreeMutexThread(s, x);
    if s.pcs[x].PopLock? {
      events := PasserPopsEmpty(s, x);
    } else {
      var s1 := Step(s, Go(x));
      var s2 := Step(s1, CallWait(x));
      StepExclusive(s, Go(x));
      StepSurplus(s, Go(x));
      StepExclusive(s1, CallWait(x));
      StepSurplus(s1, CallWait(x));
      StepExclusive(s2, Go(x));
      StepSurplus(s2, Go(x));
      events := PasserPopsEmpty(Step(s2, Go(x)), x);
      events := EmptyPopLater(s2, Go(x), events);
      events := EmptyPopLater(s1, CallWait(x), events);
      events := EmptyPopLater(s, Go(x), events);
    }
  }

  lemma FreeMutexThread<M>(s: State<M>, x: Thread)
    requires s.owner == None && Exclusive(s) && x in Passed(s) + Unposted(s)
    ensures x in s.pcs && (s.pcs[x].PopLock? || s.pcs[x].PushPost?)
  {
  }

  /** More threads between semaphore and queue than queued messages lead to an empty pop, whoever holds the mutex. */
  lemma {:induction false} ExcessPopsEmpty<M>(s: State<M>) returns (events: seq<Event<M>>)
    requires Exclusive(s) && Excess(s) > 0
    ensures PopsEmpty(s, events)
    decreases s.owner.Some?, if s.owner.Some? && s.owner.value in s.pcs then InsideSteps(s.pcs[s.owner.value]) else 0
  {
    hide PopsEmpty, Surplus, Exclusive;
    if s.owner == None {
      events := FreeMutexPopsEmpty(s);
    } else {
      OwnerInside(s);
      var e: Event<M> := Go(s.owner.value);
      if IsEmptyPop(s, e) {
        events := EmptyPopNow(s, s.owner.value);
      } else {
        StepExclusive(s, e);
        StepSurplus(s, e);
        OwnerStep(s);
        events := ExcessPopsEmpty(Step(s, e));
        events := EmptyPopLater(s, e, events);
      }
    }
  }

  /** How many steps a thread at pc takes until it leaves the mutex. */
  ghost function InsideSteps<M>(pc: PC<M>): nat {
    if pc.PushEnqueue? || pc.PopDequeue? then 2 else 1
  }

  lemma OwnerInside<M>(s: State<M>)
    requires Exclusive(s) && s.owner.Some?
    ensures s.owner.value in s.pcs && s.pcs[s.owner.value].HoldsMutex() && Enabled(s, Go(s.owner.value))
  {
  }

  /** A step of the owner frees the mutex or brings it closer to that. The threads between semaphore
      and queue, set against the queue, stay as they are, save when a message is popped. */
  lemma OwnerStep<M>(s: State<M>)
    requires Exclusive(s) && s.owner.Some?
    ensures s.owner.value in s.pcs && Enabled(s, Go(s.owner.value))
    ensures var t, s' := s.owner.value, Step(s, Go(s.owner.value));
            && s'.sem == s.sem
            && (s'.owner == None || (s'.owner == s.owner && InsideSteps(s'.pcs[t]) < InsideSteps(s.pcs[t])))
  {
  }

  // ---- Clearing -----------------------------------------------------------------------

  /** One pop of the loop in round_message_manager_clear, which takes no lock. */
  ghost function Discarded<M>(s: State<M>): State<M> {
    if s.queue == [] then s else s.(queue := s.queue[1..], popped := s.popped + [s.queue[0]])
  }

  /** The semaphore reset at the end of round_message_manager_clear. */
  ghost function SemaphoreReset<M>(s: State<M>): State<M> {
    s.(sem := 0)
  }

  /** After the reset no wait of any later run comes back empty-handed, exactly when the reset finds no
      more threads between semaphore and queue than queued messages. */
  lemma ResetSafe<M>(s: State<M>)
    requires Exclusive(s)
    ensures |Passed(s)| + |Unposted(s)| <= |s.queue| <==> forall events :: !PopsEmpty(SemaphoreReset(s), events)
  {
    hide PopsEmpty;
    var r := SemaphoreReset(s);
    assert Passed(r) == Passed(s) && Unposted(r) == Unposted(s);
    if Excess(r) > 0 {
      var events := ExcessPopsEmpty(r);
    } else {
      forall events
        ensures !PopsEmpty(r, events)
      {
        NoSurplusNoEmptyPop(r, events);
      }
    }
  }

  lemma {:induction false} NoSurplusNoEmptyPop<M>(s: State<M>, events: seq<Event<M>>)
    requires Surplus(s) <= 0
    ensures !PopsEmpty(s, events)
    decreases |events|
  {
    if events != [] && Enabled(s, events[0]) {
      if IsEmptyPop(s, events[0]) {
        assert events[0].t in Passed(s);
      }
      hide Surplus;
      StepSurplus(s, events[0]);
      NoSurplusNoEmptyPop(Step(s, events[0]), events[1..]);
    }
  }

  /** No thread is between the semaphore and the queue. */
  ghost predicate Quiet<M>(s: State<M>) {
    Passed(s) == {} && Unposted(s) == {}
  }

  /** However a run goes on from the reset to a state with no thread between semaphore and queue, there is
      a wake-up for every queued message then, exactly when the reset found no more queued messages
      than such threads. Of more messages, all the rest stay without a wake-up. */
  lemma ResetWakesAll<M>(s: State<M>, events: seq<Event<M>>)
    requires IsRun(SemaphoreReset(s), events) && Quiet(Final(SemaphoreReset(s), events))
    ensures var f, between := Final(SemaphoreReset(s), events), |Passed(s)| + |Unposted(s)|;
            && (|f.queue| <= f.sem <==> |s.queue| <= between)
            && (|s.queue| >= between ==> |f.queue| - f.sem == |s.queue| - between)
  {
    var r := SemaphoreReset(s);
    assert Passed(r) == Passed(s) && Unposted(r) == Unposted(s);
    RunSurplus(r, events);
    if Surplus(r) <= 0 {
      NoSurplusNoEmptyPop(r, events);
    } else {
      SurplusStays(r, events);
    }
  }

  lemma {:induction false} SurplusStays<M>(s: State<M>, events: seq<Event<M>>)
    requires IsRun(s, events) && Surplus(s) >= 0
    ensures Surplus(Final(s, events)) >= 0
    decreases |events|
  {
    hide Surplus;
    if events != [] {
      StepSurplus(s, events[0]);
      SurplusStays(Step(s, events[0]), events[1..]);
    }
  }

  /** After the reset the empty pops of any run are at most the excess threads. */
  lemma ResetBoundsEmptyPops<M>(s: State<M>, events: seq<Event<M>>)
    requires IsRun(SemaphoreReset(s), events)
    ensures var between := |Passed(s)| + |Unposted(s)|;
            EmptyPops(SemaphoreReset(s), events) <= if between <= |s.queue| then 0 else between - |s.queue|
  {
    var r := SemaphoreReset(s);
    assert Passed(r) == Passed(s) && Unposted(r) == Unposted(s);
    RunSurplus(r, events);
    if Surplus(r) <= 0 {
      NoSurplusNoEmptyPop(r, events);
    }
  }

  /** The events are a run from s to a state with no thread between semaphore and queue. */
  ghost predicate Settles<M>(s: State<M>, events: seq<Event<M>>) {
    IsRun(s, events) && Quiet(Final(s, events))
  }

  lemma SettleLater<M>(s: State<M>, e: Event<M>, rest: seq<Event<M>>) returns (events: seq<Event<M>>)
    requires Enabled(s, e) && Settles(Step(s, e), rest)
    ensures Settles(s, events)
  {
    events := [e] + rest;
    assert events[1..] == rest;
  }

  /** A bound on the steps that the threads between semaphore and queue, and the owner of the mutex, have to go. */
  ghost function StepsToSettle<M>(s: State<M>): nat {
    4 * (|Passed(s)| + |Unposted(s)|)
    + if s.owner.Some? && s.owner.value in s.pcs then
        (match s.pcs[s.owner.value] case PushEnqueue(_) => 7 case PopDequeue => 0 case _ => 2)
      else 1
  }

  lemma OwnerSettles<M>(s: State<M>)
    requires Exclusive(s) && s.owner.Some?
    ensures Enabled(s, Go(s.owner.value))
    ensures StepsToSettle(Step(s, Go(s.owner.value))) < StepsToSettle(s)
  {
    OwnerInside(s);
    StepCounts(s, Go(s.owner.value));
    hide Passed, Unposted, Exclusive;
  }

  lemma FreeMutexSettles<M>(s: State<M>, x: Thread)
    requires Exclusive(s) && s.owner == None && x in Passed(s) + Unposted(s)
    ensures Enabled(s, Go(x)) && StepsToSettle(Step(s, Go(x))) < StepsToSettle(s)
  {
    FreeMutexThread(s, x);
    StepCounts(s, Go(x));
    hide Passed, Unposted, Exclusive;
  }

  /** Every state leads to one with no thread between semaphore and queue. */
  lemma {:induction false} SettlesAlways<M>(s: State<M>) returns (events: seq<Event<M>>)
    requires Exclusive(s)
    ensures Settles(s, events)
    decreases StepsToSettle(s)
  {
    hide Exclusive, StepsToSettle, Passed, Unposted;
    if Quiet(s) {
      EmptyRun(s);
      events := [];
    } else {
      hide Settles;
      var x :| x in Passed(s) + Unposted(s);
      var e: Event<M> := Go(if s.owner.Some? then s.owner.value else x);
      if s.owner.Some? {
        OwnerSettles(s);
      } else {
        FreeMutexSettles(s, x);
      }
      StepExclusive(s, e);
      events := SettlesAlways(Step(s, e));
      events := SettleLater(s, e, events);
    }
  }

  lemma SettlesAwake<M>(s: State<M>, events: seq<Event<M>>)
    requires Settles(SemaphoreReset(s), events) && |s.queue| <= |Passed(s)| + |Unposted(s)|
    ensures var f := Final(SemaphoreReset(s), events); |f.queue| <= f.sem
  {
    ResetWakesAll(s, events);
  }

  /** A reset that finds more queued messages than threads between semaphore and queue strands some:
      a run leads to a state with no such thread and fewer wake-ups than messages. */
  lemma ResetStrands<M>(s: State<M>) returns (events: seq<Event<M>>)
    requires Exclusive(s) && |s.queue| > |Passed(s)| + |Unposted(s)|
    ensures Settles(SemaphoreReset(s), events)
    ensures var f := Final(SemaphoreReset(s), events); f.sem < |f.queue|
  {
    events := SettlesAlways(SemaphoreReset(s));
    ResetWakesAll(s, events);
  }

  // ---- A clear among other threads ------------------------------------------------------

  /** What happens while a clear is under way: a step of some thread, or a pop of the clear. */
  datatype Move<M> = Take(e: Event<M>) | Discard

  ghost predicate CanMove<M>(s: State<M>, move: Move<M>) {
    move.Take? ==> Enabled(s, move.e)
  }

  ghost function Moved<M>(s: State<M>, move: Move<M>): State<M>
    requires CanMove(s, move)
  {
    match move
    case Take(e) => Step(s, e)
    case Discard => Discarded(s)
  }

  ghost predicate IsSchedule<M>(s: State<M>, moves: seq<Move<M>>)
    decreases |moves|
  {
    moves == [] || (CanMove(s, moves[0]) && IsSchedule(Moved(s, moves[0]), moves[1..]))
  }

  ghost function AfterMoves<M>(s: State<M>, moves: seq<Move<M>>): State<M>
    requires IsSchedule(s, moves)
    decreases |moves|
  {
    if moves == [] then s else AfterMoves(Moved(s, moves[0]), moves[1..])
  }

  /** The messages that the clear takes away, less the waits that come back empty-handed meanwhile. */
  ghost function NetDiscards<M>(s: State<M>, moves: seq<Move<M>>): int
    requires IsSchedule(s, moves)
    decreases |moves|
  {
    if moves == [] then 0
    else
      NetDiscards(Moved(s, moves[0]), moves[1..])
      + match moves[0]
        case Take(e) => if IsEmptyPop(s, e) then -1 else 0
        case Discard => if s.queue == [] then 0 else 1
  }

  /** The moves of threads that no clear is among. */
  function Takes<M>(events: seq<Event<M>>): seq<Move<M>> {
    seq(|events|, i requires 0 <= i < |events| => Take(events[i]))
  }

  lemma {:induction false} RunIsSchedule<M>(s: State<M>, events: seq<Event<M>>)
    requires IsRun(s, events)
    ensures IsSchedule(s, Takes(events)) && AfterMoves(s, Takes(events)) == Final(s, events)
    decreases |events|
  {
    if events != [] {
      RunIsSchedule(Step(s, events[0]), events[1..]);
      assert Takes(events)[1..] == Takes(events[1..]);
    }
  }

  lemma MoveSurplus<M>(s: State<M>, move: Move<M>)
    requires Exclusive(s) && CanMove(s, move)
    ensures var s' := Moved(s, move);
            && Exclusive(s') && (Fifo(s) ==> Fifo(s'))
            && Surplus(s') == Surplus(s) + match move
                                           case Take(e) => if IsEmptyPop(s, e) then -1 else 0
                                           case Discard => if s.queue == [] then 0 else 1
  {
    match move
    case Take(e) =>
      StepExclusive(s, e);
      StepSurplus(s, e);
      hide Surplus, Exclusive;
    case Discard =>
      assert Passed(Discarded(s)) == Passed(s) && Unposted(Discarded(s)) == Unposted(s);
  }

  /** Whatever threads do while a clear is under way, each message it takes away leaves a wake-up too
      many, the mutex stays exclusive, and the dequeued messages and the queue stay in push order. */
  lemma {:induction false} ScheduleSurplus<M>(s: State<M>, moves: seq<Move<M>>)
    requires Exclusive(s) && IsSchedule(s, moves)
    ensures Exclusive(AfterMoves(s, moves)) && (Fifo(s) ==> Fifo(AfterMoves(s, moves)))
    ensures Surplus(AfterMoves(s, moves)) == Surplus(s) + NetDiscards(s, moves)
    decreases |moves|
  {
    hide Surplus, Exclusive, Fifo, Moved, CanMove, IsEmptyPop;
    if moves != [] {
      MoveSurplus(s, moves[0]);
      ScheduleSurplus(Moved(s, moves[0]), moves[1..]);
    }
  }

  /** The clear as it is, with threads stepping between its pops and its reset: from a state in order,
      no later wait comes back empty-handed exactly when the reset takes back at least as many wake-ups
      as messages were discarded, and no message stays without a wake-up exactly when it takes back at most as many. */
  lemma ClearAmongThreads<M>(s: State<M>, moves: seq<Move<M>>)
    requires Invariant(s) && IsSchedule(s, moves)
    ensures var c, net := AfterMoves(s, moves), NetDiscards(s, moves);
            && (net <= c.sem <==> forall events :: !PopsEmpty(SemaphoreReset(c), events))
            && (c.sem <= net <==>
                  forall events :: Settles(SemaphoreReset(c), events) ==>
                    var f := Final(SemaphoreReset(c), events); |f.queue| <= f.sem)
  {
    hide PopsEmpty, IsSchedule, NetDiscards, AfterMoves;
    var c, net := AfterMoves(s, moves), NetDiscards(s, moves);
    ScheduleSurplus(s, moves);
    ResetSafe(c);
    if c.sem <= net {
      forall events | Settles(SemaphoreReset(c), events)
        ensures var f := Final(SemaphoreReset(c), events); |f.queue| <= f.sem
      {
        SettlesAwake(c, events);
      }
    } else {
      var events := ResetStrands(c);
    }
  }

  /** A clear that no other thread interrupts: the queue is popped until empty, then the semaphore is reset. */
  ghost function Cleared<M>(s: State<M>): State<M> {
    SemaphoreReset(s.(queue := [], popped := s.popped + s.queue))
  }

  /** After a clear that nobody interrupts every later wait finds a message exactly when no thread was
      between the semaphore and the queue; the invariant of runs then holds again. */
  lemma ClearSafeWhenQuiet<M>(s: State<M>)
    requires Invariant(s)
    ensures Quiet(s) <==> forall events :: !PopsEmpty(Cleared(s), events)
    ensures Quiet(s) <==> Invariant(Cleared(s))
  {
    hide PopsEmpty;
    var c := Cleared(s);
    assert Passed(c) == Passed(s) && Unposted(c) == Unposted(s);
    assert SemaphoreReset(c) == c;
    ResetSafe(c);
  }

  // ---- Inputs ---------------------------------------------------------------------------

  /** An input: thread 1 passes the semaphore, the manager is cleared, and thread 1 pops nothing. */
  lemma ClearBehindWaiter<M>(m: M)
    ensures IsRun(Initial({0, 1}), PushEvents(0, m))
    ensures var s := Final(Initial({0, 1}), PushEvents(0, m));
            && Enabled(s, CallWait(1)) && Enabled(Step(s, CallWait(1)), Go(1))
            && PopsEmpty(Cleared(Step(Step(s, CallWait(1)), Go(1))), [Go(1), Go(1)])
  {
    PushRun(Initial({0, 1}), 0, m);
    hide IsRun, Final, PopsEmpty;
    var s := Final(Initial({0, 1}), PushEvents(0, m));
    var c := Cleared(Step(Step(s, CallWait(1)), Go(1)));
    var rest := EmptyPopNow(Step(c, Go(1)), 1);
    var events := EmptyPopLater(c, Go(1), rest);
  }

  /** Another: a push that completes between the last pop of a clear and its reset leaves a message
      without a wake-up, so that a wait blocks although a message is queued. */
  lemma PushBeforeReset<M>(m: M)
    ensures Discarded(Initial({0, 1})) == Initial<M>({0, 1}) && IsRun(Initial({0, 1}), PushEvents(0, m))
    ensures var s := SemaphoreReset(Final(Initial({0, 1}), PushEvents(0, m)));
            && s.queue == [m] && Surplus(s) == -1
            && Enabled(s, CallWait(1)) && !Enabled(Step(s, CallWait(1)), Go(1))
  {
    PushRun(Initial({0, 1}), 0, m);
  }

  /** A third: nobody is between semaphore and queue when the clear takes the message away, but thread 1
      passes the semaphore before the clear, finding nothing more to pop, resets it. */
  lemma WaitDuringClear<M>(m: M)
    ensures IsRun(Initial({0, 1}), PushEvents(0, m))
    ensures var s := Final(Initial({0, 1}), PushEvents(0, m));
            var moves := [Discard, Take(CallWait(1)), Take(Go(1)), Discard];
            && Invariant(s) && Quiet(s) && IsSchedule(s, moves)
            && PopsEmpty(SemaphoreReset(AfterMoves(s, moves)), [Go(1), Go(1)])
  {
    InitialInvariant<M>({0, 1});
    PushRun(Initial({0, 1}), 0, m);
    RunInvariant(Initial({0, 1}), PushEvents(0, m));
    hide IsRun, Final, PopsEmpty, Invariant, IsSchedule, AfterMoves;
    WaitWhileCleared(Final(Initial({0, 1}), PushEvents(0, m)));
  }

  lemma WaitWhileCleared<M>(s: State<M>)
    requires s.owner == None && |s.queue| == 1 && s.sem > 0 && 1 in s.pcs && s.pcs[1] == Idle
    ensures var moves := [Discard, Take(CallWait(1)), Take(Go(1)), Discard];
            IsSchedule(s, moves) && PopsEmpty(SemaphoreReset(AfterMoves(s, moves)), [Go(1), Go(1)])
  {
    hide PopsEmpty, IsSchedule, AfterMoves;
    var moves := [Discard, Take(CallWait(1)), Take(Go(1)), Discard];
    var s1 := Discarded(s);
    var s2 := Step(s1, CallWait(1));
    var s3 := Step(s2, Go(1));
    NothingMoves(Discarded(s3));
    assert moves[3..][1..] == [] && moves[2..][1..] == moves[3..] && moves[1..][1..] == moves[2..];
    MoveThenSchedule(s3, moves[3..]);
    MoveThenSchedule(s2, moves[2..]);
    MoveThenSchedule(s1, moves[1..]);
    MoveThenSchedule(s, moves);
    var c := SemaphoreReset(s3);
    var rest := EmptyPopNow(Step(c, Go(1)), 1);
    var events := EmptyPopLater(c, Go(1), rest);
    assert events == [Go(1), Go(1)] && Discarded(s3) == s3;
  }

  lemma NothingMoves<M>(s: State<M>)
    ensures IsSchedule(s, []) && AfterMoves(s, []) == s
  {
  }

  lemma MoveThenSchedule<M>(s: State<M>, moves: seq<Move<M>>)
    requires moves != [] && CanMove(s, moves[0]) && IsSchedule(Moved(s, moves[0]), moves[1..])
    ensures IsSchedule(s, moves) && AfterMoves(s, moves) == AfterMoves(Moved(s, moves[0]), moves[1..])
  {
  }
}
