/** The message manager of message_manager.c over the list queue. Its state changes one
    atomic step at a time, and every step is a step of the protocol. */
module MessageManager {
  import opened Sequences
  import opened IntrusiveList
  import opened Queue
  import opened MessageClear
  import opened MessageProtocol

  /** The message a thread is about to enqueue. */
  ghost function Carried<T(0)>(pc: PC<ListNode<T>>): Option<ListNode<T>> {
    match pc
    case PushLock(m) => Some(m)
    case PushEnqueue(m) => Some(m)
    case _ => None
  }

  /** Messages on their way into the queue are distinct plain nodes that are in no list. */
  ghost predicate CarriedFree<T(0)>(pcs: map<Thread, PC<ListNode<T>>>, nodes: set<ListNode<T>>, owner: Links<T>) {
    && (forall t :: t in pcs && Carried(pcs[t]).Some? ==>
          var m := Carried(pcs[t]).value;
          m in nodes && !m.headFlag && m !in owner)
    && (forall t, u :: t in pcs && u in pcs && t != u && Carried(pcs[t]).Some? ==> Carried(pcs[u]) != Carried(pcs[t]))
  }

  /** The move calls pushmessage. */
  ghost predicate IsPush<M>(move: Move<M>) {
    move.Take? && move.e.CallPush?
  }

  class MessageManager<T(0)> {
    const queue: Queue<T>
    var sem: nat
    var owner: Option<Thread>
    var pcs: map<Thread, PC<ListNode<T>>>
    ghost var pushed: seq<ListNode<T>>
    ghost var popped: seq<ListNode<T>>

    /** round_message_manager_new, for use by the given threads */
    constructor (queue: Queue<T>, threads: set<Thread>)
      requires queue.Valid() && queue.Contents() == []
      ensures this.queue == queue && Valid() && Protocol() == Initial(threads)
    {
      this.queue := queue;
      sem, owner := 0, None;
      pcs := map t | t in threads :: Idle;
      pushed, popped := [], [];
    }

    ghost predicate Valid()
      reads this, queue.heap, queue.heap.nodes
    {
      queue.Valid() && CarriedFree(pcs, queue.heap.nodes, queue.heap.owner)
    }

    lemma CarriedIsFree(t: Thread)
      requires Valid() && t in pcs && Carried(pcs[t]).Some?
      ensures var m := Carried(pcs[t]).value;
              m in queue.heap.nodes && !m.headFlag && m !in queue.heap.owner
    {
    }

    lemma CarriedUnlisted()
      requires Valid()
      ensures forall u, h :: u in pcs && Carried(pcs[u]).Some? && h in queue.heap.lists ==>
                Carried(pcs[u]).value !in queue.heap.lists[h]
    {
    }

    /** A change to the queue's own list that brings in nothing but t's message keeps the
        other carried messages free. */
    lemma CarriedStillFree(before: Lists<T>, owner0: Links<T>, t: Thread, pc: PC<ListNode<T>>)
      requires queue.Valid() && CarriedFree(pcs, queue.heap.nodes, owner0) && t in pcs && Carried(pc) == None
      requires forall u, h :: u in pcs && Carried(pcs[u]).Some? && h in before ==> Carried(pcs[u]).value !in before[h]
      requires queue.header in before && queue.heap.lists == before[queue.header := queue.Contents()]
      requires forall x :: x in queue.Contents() ==> x in before[queue.header] || Carried(pcs[t]) == Some(x)
      ensures CarriedFree(pcs[t := pc], queue.heap.nodes, queue.heap.owner)
    {
    }

    /** Taking messages out of the queue keeps every carried message free. */
    lemma CarriedFreeAfterPop(before: Lists<T>, owner0: Links<T>)
      requires queue.Valid() && CarriedFree(pcs, queue.heap.nodes, owner0)
      requires forall u, h :: u in pcs && Carried(pcs[u]).Some? && h in before ==> Carried(pcs[u]).value !in before[h]
      requires queue.header in before && queue.heap.lists == before[queue.header := queue.Contents()]
      requires forall x :: x in queue.Contents() ==> x in before[queue.header]
      ensures CarriedFree(pcs, queue.heap.nodes, queue.heap.owner)
    {
      hide Layout, Linked;
      forall u | u in pcs && Carried(pcs[u]).Some?
        ensures Carried(pcs[u]).value !in queue.heap.owner
      {
        queue.heap.FreeIffUnlisted(Carried(pcs[u]).value);
      }
    }

    /** What the protocol sees of the manager. */
    ghost function Protocol(): State<ListNode<T>>
      requires queue.Valid()
      reads this, queue.heap, queue.heap.nodes
    {
      State(queue.Contents(), sem, owner, pcs, pushed, popped)
    }

    /** Thread t enters pushmessage, with a message that is in no list and that no other thread is pushing. */
    method CallPushMessage(t: Thread, m: ListNode<T>)
      requires Valid() && Enabled(Protocol(), CallPush(t, m))
      requires m in queue.heap.nodes && !m.headFlag && m !in queue.heap.owner
      requires forall u :: u in pcs ==> Carried(pcs[u]) != Some(m)
      modifies this
      ensures Valid() && Protocol() == Step(old(Protocol()), CallPush(t, m))
    {
      hide ListHeap.Valid;
      pcs := pcs[t := PushLock(m)];
    }

    /** Thread t enters waitmessage. */
    method CallWaitMessage(t: Thread)
      requires Valid() && Enabled(Protocol(), CallWait(t))
      modifies this
      ensures Valid() && Protocol() == Step(old(Protocol()), CallWait(t))
    {
      hide ListHeap.Valid;
      pcs := pcs[t := WaitSemaphore];
    }

    /** round_queue_push, inside the mutex */
    method Enqueue(t: Thread)
      requires Valid() && Enabled(Protocol(), Go(t)) && pcs[t].PushEnqueue?
      modifies this, queue.heap, queue.heap.nodes
      ensures Valid() && Protocol() == Step(old(Protocol()), Go(t))
      ensures queue.heap.nodes == old(queue.heap.nodes)
      ensures queue.heap.lists == old(queue.heap.lists)[queue.header := queue.Contents()]
    {
      hide ListHeap.Valid, CarriedFree;
      var m := pcs[t].m;
      CarriedUnlisted();
      CarriedIsFree(t);
      queue.Push(m);
      CarriedStillFree(old(queue.heap.lists), old(queue.heap.owner), t, PushUnlock);
      pushed := pushed + [m];
      pcs := pcs[t := PushUnlock];
    }

    /** round_queue_pop, inside the mutex */
    method Dequeue(t: Thread)
      requires Valid() && Enabled(Protocol(), Go(t)) && pcs[t].PopDequeue?
      modifies this, queue.heap, queue.heap.nodes
      ensures Valid() && Protocol() == Step(old(Protocol()), Go(t))
      ensures queue.heap.nodes == old(queue.heap.nodes)
      ensures queue.heap.lists == old(queue.heap.lists)[queue.header := queue.Contents()]
    {
      hide ListHeap.Valid, CarriedFree;
      CarriedUnlisted();
      var obj := queue.Pop();
      var got: Option<ListNode<T>> := if obj == null then None else Some(obj);
      CarriedStillFree(old(queue.heap.lists), old(queue.heap.owner), t, PopUnlock(got));
      popped := if obj == null then popped else popped + [obj];
      pcs := pcs[t := PopUnlock(got)];
    }

    /** The remaining steps: locking, unlocking, and the semaphore. */
    method Synchronize(t: Thread)
      requires Valid() && Enabled(Protocol(), Go(t)) && !pcs[t].PushEnqueue? && !pcs[t].PopDequeue?
      modifies this
      ensures Valid() && Protocol() == Step(old(Protocol()), Go(t))
    {
      hide ListHeap.Valid;
      match pcs[t]
      case PushLock(m) =>
        owner, pcs := Some(t), pcs[t := PushEnqueue(m)];
      case PushUnlock =>
        owner, pcs := None, pcs[t := PushPost];
      case PushPost =>
        sem, pcs := sem + 1, pcs[t := Idle];
      case WaitSemaphore =>
        sem, pcs := sem - 1, pcs[t := PopLock];
      case PopLock =>
        owner, pcs := Some(t), pcs[t := PopDequeue];
      case PopUnlock(_) =>
        owner, pcs := None, pcs[t := Idle];
    }

    /** One pop of the loop in round_message_manager_clear, which takes no lock; false when there was nothing to pop. */
    method DiscardMessage() returns (popsMore: bool)
      requires Valid()
      modifies this, queue.heap, queue.heap.nodes
      ensures Valid() && Protocol() == Discarded(old(Protocol()))
      ensures queue.heap.lists == old(queue.heap.lists)[queue.header := queue.Contents()]
      ensures popsMore == (old(queue.Contents()) != []) && queue.heap.nodes == old(queue.heap.nodes)
    {
      hide ListHeap.Valid, CarriedFree;
      CarriedUnlisted();
      var obj := queue.Pop();
      popsMore := obj != null;
      popped := if obj == null then popped else popped + [obj];
      CarriedFreeAfterPop(old(queue.heap.lists), old(queue.heap.owner));
    }

    /** round_semaphore_reset */
    method ResetSemaphore()
      requires Valid()
      modifies this
      ensures Valid() && Protocol() == SemaphoreReset(old(Protocol()))
    {
      hide ListHeap.Valid, CarriedFree;
      sem := 0;
    }

    /** round_message_manager_clear, when no other thread interrupts it */
    method ClearAlone()
      requires Valid()
      modifies this, queue.heap, queue.heap.nodes
      ensures Valid() && Protocol() == Cleared(old(Protocol()))
    {
      hide ListHeap.Valid, CarriedFree;
      var popsMore := true;
      while popsMore
        invariant Valid() && queue.heap.nodes == old(queue.heap.nodes)
        invariant popped + queue.Contents() == old(popped) + old(queue.Contents())
        invariant !popsMore ==> queue.Contents() == []
        invariant Protocol() == old(Protocol()).(queue := queue.Contents(), popped := popped)
        decreases popsMore, |queue.Contents()|
      {
        popsMore := DiscardMessage();
      }
      ResetSemaphore();
    }

    // ---- Whole runs -----------------------------------------------------------------

    /** Node x is neither queued nor on its way into the queue. */
    ghost predicate Unseen(s: State<ListNode<T>>, x: ListNode<T>) {
      x !in s.queue && forall t :: t in s.pcs ==> Carried(s.pcs[t]) != Some(x)
    }

    /** A push may bring in node x: a plain node that is in no list, and unseen. */
    ghost predicate Pushable(x: ListNode<T>)
      requires Valid()
      reads this, queue.heap, queue.heap.nodes
    {
      x in queue.heap.nodes && !x.headFlag && x !in queue.heap.owner && Unseen(Protocol(), x)
    }

    /** The messages that the moves push are distinct and may be pushed. */
    ghost predicate PushesFresh(moves: seq<Move<ListNode<T>>>)
      requires Valid()
      reads this, queue.heap, queue.heap.nodes
    {
      && (forall i :: 0 <= i < |moves| && IsPush(moves[i]) ==> Pushable(moves[i].e.m))
      && (forall i, j :: 0 <= i < j < |moves| && IsPush(moves[i]) && IsPush(moves[j]) ==>
            moves[i].e.m != moves[j].e.m)
    }

    /** A step that leaves the other lists alone keeps node x pushable, unless the step pushes x. */
    lemma StillPushable(before: Lists<T>, s: State<ListNode<T>>, move: Move<ListNode<T>>, x: ListNode<T>)
      requires Valid() && x in queue.heap.nodes && !x.headFlag && Unseen(s, x)
      requires CanMove(s, move) && Protocol() == Moved(s, move) && !(IsPush(move) && move.e.m == x)
      requires queue.header in before && queue.heap.lists == before[queue.header := queue.Contents()]
      requires forall h :: h in before ==> x !in before[h]
      ensures Pushable(x)
    {
      hide ListHeap.Valid, CarriedFree;
      queue.heap.FreeIffUnlisted(x);
    }

    /** One event of the protocol on the linked queue. */
    method Perform(e: Event<ListNode<T>>)
      requires Valid() && Enabled(Protocol(), e) && (e.CallPush? ==> Pushable(e.m))
      modifies this, queue.heap, queue.heap.nodes
      ensures Valid() && Protocol() == Step(old(Protocol()), e)
      ensures queue.heap.nodes == old(queue.heap.nodes)
      ensures queue.heap.lists == old(queue.heap.lists)[queue.header := queue.Contents()]
    {
      hide ListHeap.Valid, CarriedFree;
      match e
      case CallPush(t, m) => CallPushMessage(t, m);
      case CallWait(t) => CallWaitMessage(t);
      case Go(t) =>
        if pcs[t].PushEnqueue? {
          Enqueue(t);
        } else if pcs[t].PopDequeue? {
          Dequeue(t);
        } else {
          Synchronize(t);
        }
    }

    /** round_message_manager_pushmessage, called by thread t and not interrupted */
    method PushMessage(t: Thread, m: ListNode<T>)
      requires Valid() && Pushable(m) && t in pcs && pcs[t] == Idle && owner == None
      modifies this, queue.heap, queue.heap.nodes
      ensures Valid()
      ensures queue.Contents() == old(queue.Contents()) + [m] && sem == old(sem) + 1
      ensures owner == None && pcs == old(pcs) && pushed == old(pushed) + [m] && popped == old(popped)
    {
      hide ListHeap.Valid, CarriedFree;
      CallPushMessage(t, m);
      Synchronize(t);
      Enqueue(t);
      Synchronize(t);
      Synchronize(t);
      assert pcs == old(pcs);
    }

    /** round_message_manager_waitmessage, called by thread t and not interrupted, when it does not block:
        with a message there it returns the oldest one. */
    method WaitMessage(t: Thread) returns (msg: Option<ListNode<T>>)
      requires Valid() && t in pcs && pcs[t] == Idle && owner == None && sem > 0
      modifies this, queue.heap, queue.heap.nodes
      ensures Valid() && sem == old(sem) - 1
      ensures owner == None && pcs == old(pcs) && pushed == old(pushed)
      ensures if old(queue.Contents()) == [] then msg == None && queue.Contents() == [] && popped == old(popped)
              else
                && msg == Some(old(queue.Contents())[0]) && queue.Contents() == old(queue.Contents())[1..]
                && popped == old(popped) + [old(queue.Contents())[0]]
    {
      hide ListHeap.Valid, CarriedFree, Step, Enabled;
      WaitSteps(Protocol(), t);
      CallWaitMessage(t);
      Synchronize(t);
      Synchronize(t);
      Dequeue(t);
      msg := pcs[t].got;
      Synchronize(t);
    }

    /** A step of a thread, or a pop of a clear that is under way. */
    method Move(move: Move<ListNode<T>>)
      requires Valid() && CanMove(Protocol(), move) && (IsPush(move) ==> Pushable(move.e.m))
      modifies this, queue.heap, queue.heap.nodes
      ensures Valid() && Protocol() == Moved(old(Protocol()), move)
      ensures queue.heap.nodes == old(queue.heap.nodes)
      ensures queue.heap.lists == old(queue.heap.lists)[queue.header := queue.Contents()]
    {
      hide ListHeap.Valid, CarriedFree, Step, Enabled;
      match move
      case Take(e) => Perform(e);
      case Discard => var _ := DiscardMessage();
    }

    /** The first of the moves. */
    method MoveFirst(moves: seq<Move<ListNode<T>>>)
      requires Valid() && moves != [] && CanMove(Protocol(), moves[0]) && PushesFresh(moves)
      modifies this, queue.heap, queue.heap.nodes
      ensures Valid() && queue.heap.nodes == old(queue.heap.nodes)
      ensures Protocol() == Moved(old(Protocol()), moves[0]) && PushesFresh(moves[1..])
    {
      hide ListHeap.Valid, CarriedFree, Moved, CanMove;
      ghost var s, before := Protocol(), queue.heap.lists;
      forall j, h | 0 <= j < |moves| && IsPush(moves[j]) && h in before
        ensures moves[j].e.m !in before[h]
      {
        queue.heap.FreeIffUnlisted(moves[j].e.m);
      }
      Move(moves[0]);
      forall j | 0 <= j < |moves[1..]| && IsPush(moves[1..][j])
        ensures Pushable(moves[1..][j].e.m)
      {
        assert moves[1..][j] == moves[j + 1];
        StillPushable(before, s, moves[0], moves[j + 1].e.m);
      }
    }

    /** Any interleaving of threads and a clear's pops, carried out on the linked queue, ends where the
        protocol does: what was dequeued and what is queued is what was enqueued, in order. */
    method MoveAll(moves: seq<Move<ListNode<T>>>)
      requires Valid() && IsSchedule(Protocol(), moves) && PushesFresh(moves)
      modifies this, queue.heap, queue.heap.nodes
      ensures Valid() && Protocol() == AfterMoves(old(Protocol()), moves)
      ensures old(Invariant(Protocol())) ==> popped + queue.Contents() == pushed
    {
      hide ListHeap.Valid, CarriedFree, Moved, CanMove, Pushable;
      if old(Invariant(Protocol())) {
        ScheduleSurplus(Protocol(), moves);
      }
      for i := 0 to |moves|
        invariant Valid() && queue.heap.nodes == old(queue.heap.nodes)
        invariant IsSchedule(Protocol(), moves[i..])
        invariant AfterMoves(Protocol(), moves[i..]) == AfterMoves(old(Protocol()), moves)
        invariant PushesFresh(moves[i..])
      {
        assert moves[i..][1..] == moves[i + 1..];
        MoveFirst(moves[i..]);
      }
    }

    /** Any run of the threads alone. */
    method Execute(events: seq<Event<ListNode<T>>>)
      requires Valid() && IsRun(Protocol(), events) && PushesFresh(Takes(events))
      modifies this, queue.heap, queue.heap.nodes
      ensures Valid() && Protocol() == Final(old(Protocol()), events)
      ensures old(Invariant(Protocol())) ==> Invariant(Protocol()) && popped + queue.Contents() == pushed
    {
      hide ListHeap.Valid, CarriedFree, Pushable;
      if old(Invariant(Protocol())) {
        RunInvariant(Protocol(), events);
      }
      RunIsSchedule(Protocol(), events);
      MoveAll(Takes(events));
    }

    /** round_message_manager_clear among other threads: their steps and the clear's pops interleave as
        `moves` says, then the semaphore is reset. Later waits all find a message exactly when the reset
        takes back at least the wake-ups of the discarded messages. */
    method Clear(moves: seq<Move<ListNode<T>>>)
      requires Valid() && Invariant(Protocol()) && IsSchedule(Protocol(), moves) && PushesFresh(moves)
      modifies this, queue.heap, queue.heap.nodes
      ensures Valid() && Protocol() == SemaphoreReset(AfterMoves(old(Protocol()), moves))
      ensures popped + queue.Contents() == pushed
      ensures var lost := AfterMoves(old(Protocol()), moves).sem;
              old(NetDiscards(Protocol(), moves)) <= lost <==> forall events :: !PopsEmpty(Protocol(), events)
    {
      hide ListHeap.Valid, CarriedFree, Pushable, Invariant, PopsEmpty, AfterMoves, IsSchedule, NetDiscards;
      ghost var s := Protocol();
      MoveAll(moves);
      ResetSemaphore();
      ClearAmongThreads(s, moves);
    }
  }
}
