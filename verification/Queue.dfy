/** The queue of queue.c: a list header whose nodes are the queued objects. */
module Queue {
  import opened Sequences
  import opened IntrusiveList

  class Queue<T(0)> {
    const heap: ListHeap<T>
    const header: ListNode<T>

    constructor (heap: ListHeap<T>, header: ListNode<T>)
      ensures this.heap == heap && this.header == header
    {
      this.heap, this.header := heap, header;
    }

    ghost predicate Valid()
      reads heap, heap.nodes
    {
      heap.Valid() && header in heap.lists
    }

    ghost function Contents(): seq<ListNode<T>>
      requires Valid()
      reads heap, heap.nodes
    {
      heap.lists[header]
    }

    /** round_queue_push: the object moves to the end of the queue from whichever list holds it;
        pushed again while it is last, it leaves the queue. */
    method Push(obj: ListNode<T>)
      requires Valid() && obj in heap.nodes && !obj.headFlag
      modifies heap, heap.nodes
      ensures Valid() && heap.nodes == old(heap.nodes)
      ensures var s := old(Contents());
              var rest := Without(s, obj);
              Contents() == if s != [] && s[|s| - 1] == obj then rest else rest + [obj]
      ensures heap.lists == Removed(old(heap.lists), obj)[header := Contents()]
      ensures old(obj !in heap.owner) ==>
                Contents() == old(Contents()) + [obj] && heap.lists == old(heap.lists)[header := Contents()]
    {
      hide ListHeap.Valid, Removed, Without;
      heap.AddLast(header, obj);
    }

    /** round_queue_pop */
    method Pop() returns (obj: ListNode?<T>)
      requires Valid()
      modifies heap, heap.nodes
      ensures Valid() && heap.nodes == old(heap.nodes)
      ensures if old(Contents()) == [] then obj == null && heap.lists == old(heap.lists)
              else
                && obj == old(Contents())[0] && Contents() == old(Contents())[1..]
                && heap.lists == old(heap.lists)[header := Contents()]
    {
      hide Layout, Linked, Removed;
      ghost var s := Contents();
      heap.HeaderLinks(header);
      obj := header.Next();
      if obj == null {
        return;
      }
      assert s[..0] + s[1..] == s[1..];
      RemovedFrom(heap.nodes, heap.lists, heap.owner, header, 0);
      heap.Listed(header, 0);
      heap.Remove(obj);
    }
  }
}
