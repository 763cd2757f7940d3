/** The ordered list of list_ordered.c: a list header and a comparison. */
module Ordered {
  import opened IntrusiveList

  const COMPARE_SAME := 0
  const COMPARE_LESS := -1
  const COMPARE_GREATER := 1

  /** How many nodes stay in front when the walk runs backwards to the first one that compares as greater. */
  ghost function WalkPosition<T(0)>(s: seq<ListNode<T>>, cmpFunc: (T, T) -> int, x: ListNode<T>): (k: nat)
    ensures k <= |s|
    ensures k > 0 ==> cmpFunc(s[k - 1].item, x.item) == COMPARE_GREATER
    ensures forall j :: k <= j < |s| ==> cmpFunc(s[j].item, x.item) != COMPARE_GREATER
  {
    if s == [] then 0
    else if cmpFunc(s[|s| - 1].item, x.item) == COMPARE_GREATER then |s|
    else WalkPosition(s[..|s| - 1], cmpFunc, x)
  }

  /** The two stopping conditions of the walk determine where it stops. */
  lemma WalkPositionUnique<T(0)>(s: seq<ListNode<T>>, cmpFunc: (T, T) -> int, x: ListNode<T>, k: nat)
    requires k <= |s|
    requires k > 0 ==> cmpFunc(s[k - 1].item, x.item) == COMPARE_GREATER
    requires forall j :: k <= j < |s| ==> cmpFunc(s[j].item, x.item) != COMPARE_GREATER
    ensures k == WalkPosition(s, cmpFunc, x)
  {
  }

  class OrderedList<T(0)> {
    const heap: ListHeap<T>
    const sortedList: ListNode<T>
    const cmpFunc: (T, T) -> int

    constructor (heap: ListHeap<T>, sortedList: ListNode<T>, cmpFunc: (T, T) -> int)
      ensures this.heap == heap && this.sortedList == sortedList && this.cmpFunc == cmpFunc
    {
      this.heap, this.sortedList, this.cmpFunc := heap, sortedList, cmpFunc;
    }

    ghost predicate Valid()
      reads heap, heap.nodes
    {
      heap.Valid() && sortedList in heap.lists
    }

    ghost function Nodes(): seq<ListNode<T>>
      requires Valid()
      reads heap, heap.nodes
    {
      heap.lists[sortedList]
    }

    /** round_ordered_list_add */
    method Add(newNode: ListNode<T>)
      requires Valid() && newNode in heap.nodes && !newNode.headFlag
      modifies heap, heap.nodes
      ensures Valid() && heap.nodes == old(heap.nodes) && heap.lists.Keys == old(heap.lists.Keys)
      ensures var s := old(Nodes());
              var k := WalkPosition(s, cmpFunc, newNode);
              heap.lists == Inserted(old(heap.lists), if k == 0 then sortedList else s[k - 1], newNode)
    {
      hide Layout, Linked, Inserted, WalkPosition;
      ghost var s := Nodes();
      ghost var k: int := |s|;
      heap.HeaderLinks(sortedList);
      var node := sortedList.Prev();
      while node != null && cmpFunc(node.item, newNode.item) != COMPARE_GREATER
        invariant 0 <= k <= |s| && node == if k == 0 then null else s[k - 1]
        invariant forall j :: k <= j < |s| ==> cmpFunc(s[j].item, newNode.item) != COMPARE_GREATER
        decreases k
        modifies {}
      {
        heap.ListLinks(sortedList, k - 1);
        k := k - 1;
        node := node.Prev();
      }
      WalkPositionUnique(s, cmpFunc, newNode, k);
      if node != null {
        heap.Listed(sortedList, k - 1);
        heap.Insert(node, newNode);
      } else {
        InsertedInto(heap.nodes, heap.lists, heap.owner, sortedList, sortedList, newNode);
        heap.AddFirst(sortedList, newNode);
      }
    }
  }
}
