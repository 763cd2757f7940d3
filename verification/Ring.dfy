/** The consistent hashing ring of consistent_hashing_ring.c over its ordered list. */
module Ring {
  import opened Sequences
  import opened CStrings
  import opened IntrusiveList
  import opened Nodes
  import opened Ordered
  import opened RingTheory

  /** Where the ordered insert links a node in: behind the header or behind a node of the ring. */
  ghost function InsertionPoint(h: RingNode, s: seq<RingNode>, n: RingNode): RingNode {
    var k := OrderedPosition(s, n);
    if k == 0 then h else s[k - 1]
  }

  lemma PlacedIsAdded(h: RingNode, s: seq<RingNode>, n: RingNode)
    requires NoDup(s) && h !in s && !HasHash(s, Hash(n))
    ensures Placed(h, Without(s, n), InsertionPoint(h, s, n), n) == Added(s, n)
    ensures InsertionPoint(h, s, n) == h || (InsertionPoint(h, s, n) in s && n !in s)
  {
    hide StrCmp, OrderedPosition, IndexOfHash;
    var k := OrderedPosition(s, n);
    if Hash(n).Some? {
      assert n !in s;
      if k > 0 {
        AfterAt(s, s[k - 1], n, k - 1);
      } else {
        assert s[..0] + [n] + s[0..] == [n] + s;
      }
    }
  }

  /** The ordered insert, seen on the ring's own list: exactly Added, and every other list
      loses the node if it held it. */
  lemma InsertedIsAdded(nodes: set<RingNode>, lists: Lists<NodeData>, owner: Links<NodeData>, h: RingNode, n: RingNode)
    requires Layout(nodes, lists, owner) && h in lists && n in nodes && !n.headFlag
    requires !HasHash(lists[h], Hash(n))
    ensures Inserted(lists, InsertionPoint(h, lists[h], n), n) == Removed(lists, n)[h := Added(lists[h], n)]
  {
    hide Layout, Inserted, Removed, Placed, Added, InsertionPoint, OwnedBy, NoDup, HasHash, Without;
    ListOwned(nodes, lists, owner, h);
    PlacedIsAdded(h, lists[h], n);
    InsertedInto(nodes, lists, owner, h, InsertionPoint(h, lists[h], n), n);
  }

  lemma IndexOfHashIs(s: seq<RingNode>, d: Option<string>, k: nat)
    requires k < |s| && d.Some? && Hash(s[k]) == d && forall j :: 0 <= j < k ==> Hash(s[j]) != d
    ensures HasHash(s, d) && IndexOfHash(s, d) == k
  {
  }

  lemma NextTimesNone(nodes: set<RingNode>, x: RingNode)
    ensures NextTimes(nodes, x, 0) == x
  {
  }

  lemma PrevTimesNone(nodes: set<RingNode>, x: RingNode)
    ensures PrevTimes(nodes, x, 0) == x
  {
  }

  /** k calls of round_list_next_circular. */
  ghost function NextTimes(nodes: set<RingNode>, x: RingNode, k: nat): RingNode
    reads nodes
  {
    if k > 0 && x in nodes && x.next in nodes then NextTimes(nodes, x.NextCircular(), k - 1) else x
  }

  /** k calls of round_list_prev_circular. */
  ghost function PrevTimes(nodes: set<RingNode>, x: RingNode, k: nat): RingNode
    reads nodes
  {
    if k > 0 && x in nodes && x.prev in nodes then PrevTimes(nodes, x.PrevCircular(), k - 1) else x
  }

  class ConsistentHashingRing {
    const orderedList: OrderedList<NodeData>

    constructor (orderedList: OrderedList<NodeData>)
      ensures this.orderedList == orderedList
    {
      this.orderedList := orderedList;
    }

    /** The ring's list is sound and its hashed nodes are in order. */
    ghost predicate Valid()
      reads orderedList.heap, orderedList.heap.nodes
    {
      orderedList.Valid() && orderedList.cmpFunc == CompFunc && Increasing(orderedList.Nodes())
    }

    ghost function Nodes(): seq<RingNode>
      requires Valid()
      reads orderedList.heap, orderedList.heap.nodes
    {
      orderedList.Nodes()
    }

    /** round_consistenthashing_ring_getnodeindex */
    method GetNodeIndex(target: NodeData) returns (nodeIdx: int)
      requires Valid()
      ensures nodeIdx == IndexOfHash(Nodes(), target.digest)
    {
      hide Layout, Linked, Increasing, IndexOfHash;
      ghost var s := Nodes();
      if target.digest == None {
        return -1;
      }
      nodeIdx := 0;
      orderedList.heap.HeaderLinks(orderedList.sortedList);
      var node := orderedList.sortedList.Next();
      while node != null
        invariant 0 <= nodeIdx <= |s| && node == if nodeIdx < |s| then s[nodeIdx] else null
        invariant forall j :: 0 <= j < nodeIdx ==> Hash(s[j]) != target.digest
        decreases |s| - nodeIdx
      {
        orderedList.heap.ListLinks(orderedList.sortedList, nodeIdx);
        if Hash(node).Some? {
          StrCmpIsLexOrder(target.digest.value, Hash(node).value);
          if RoundStrCmp(target.digest, Hash(node)) == 0 {
            IndexOfHashIs(s, target.digest, nodeIdx);
            return;
          }
        }
        nodeIdx := nodeIdx + 1;
        node := node.Next();
      }
      nodeIdx := -1;
    }

    /** round_consistenthashing_ring_getnodebyhashcode */
    method GetNodeByHashCode(targetNodeHash: Option<string>) returns (node: ListNode?<NodeData>)
      requires Valid()
      ensures node == if HasHash(Nodes(), targetNodeHash) then Nodes()[IndexOfHash(Nodes(), targetNodeHash)] else null
    {
      hide Layout, Linked, Increasing, IndexOfHash;
      ghost var s, i := Nodes(), 0;
      orderedList.heap.HeaderLinks(orderedList.sortedList);
      node := orderedList.sortedList.Next();
      while node != null
        invariant 0 <= i <= |s| && node == if i < |s| then s[i] else null
        invariant forall j :: 0 <= j < i && Hash(s[j]).Some? ==> Hash(s[j]) != targetNodeHash
        decreases |s| - i
      {
        orderedList.heap.ListLinks(orderedList.sortedList, i);
        if Hash(node).Some? {
          if targetNodeHash.Some? {
            StrCmpIsLexOrder(targetNodeHash.value, Hash(node).value);
          }
          if RoundStrCmp(targetNodeHash, Hash(node)) == 0 {
            IndexOfHashIs(s, targetNodeHash, i);
            return;
          }
        }
        i := i + 1;
        node := node.Next();
      }
    }

    /** round_consistenthashing_ring_getequalnode */
    method GetEqualNode(target: NodeData) returns (node: ListNode?<NodeData>)
      requires Valid()
      ensures node == if HasHash(Nodes(), target.digest) then Nodes()[IndexOfHash(Nodes(), target.digest)] else null
    {
      if target.digest.None? {
        return null;
      }
      node := GetNodeByHashCode(target.digest);
    }

    /** round_consistenthashing_ring_addnode */
    method AddNode(node: RingNode) returns (added: bool)
      requires Valid() && node in orderedList.heap.nodes && !node.headFlag
      modifies orderedList.heap, orderedList.heap.nodes
      ensures Valid() && orderedList.heap.nodes == old(orderedList.heap.nodes)
      ensures added == !old(HasHash(Nodes(), Hash(node)))
      ensures Nodes() == Added(old(Nodes()), node)
      ensures var before := old(orderedList.heap.lists);
              orderedList.heap.lists
              == if added then Removed(before, node)[orderedList.sortedList := Nodes()] else before
    {
      hide Layout, Linked, Increasing, IndexOfHash, Removed, Inserted;
      var nodeIdx := GetNodeIndex(node.item);
      if 0 <= nodeIdx {
        return false;
      }
      ghost var heap := orderedList.heap;
      ghost var s := Nodes();
      InsertedIsAdded(heap.nodes, heap.lists, heap.owner, orderedList.sortedList, node);
      heap.NoDuplicates(orderedList.sortedList);
      AddedIncreasing(s, node);
      orderedList.Add(node);
      return true;
    }

    /** round_consistenthashing_ring_removenode: takes out the node with the same hash. */
    method RemoveNode(target: NodeData) returns (removed: bool)
      requires Valid()
      modifies orderedList.heap, orderedList.heap.nodes
      ensures Valid() && orderedList.heap.nodes == old(orderedList.heap.nodes)
      ensures removed == old(HasHash(Nodes(), target.digest))
      ensures Nodes() == Dropped(old(Nodes()), target.digest)
      ensures orderedList.heap.lists == old(orderedList.heap.lists)[orderedList.sortedList := Nodes()]
    {
      hide Layout, Linked, Increasing, IndexOfHash, Removed;
      ghost var heap := orderedList.heap;
      heap.NoDuplicates(orderedList.sortedList);
      DroppedIncreasing(Nodes(), target.digest);
      var eqNode := GetEqualNode(target);
      if eqNode == null {
        return false;
      }
      ghost var k := IndexOfHash(Nodes(), target.digest);
      RemovedFrom(heap.nodes, heap.lists, heap.owner, orderedList.sortedList, k);
      heap.Listed(orderedList.sortedList, k);
      orderedList.heap.Remove(eqNode);
      return true;
    }

    /** round_consistenthashing_ring_clear */
    method Clear()
      requires Valid()
      modifies orderedList.heap, orderedList.heap.nodes
      ensures Valid() && orderedList.heap.nodes == old(orderedList.heap.nodes)
      ensures orderedList.heap.lists == old(orderedList.heap.lists)[orderedList.sortedList := []]
    {
      orderedList.heap.Clear(orderedList.sortedList);
    }

    /** round_consistenthashing_ring_getlastnode */
    method GetLastNode() returns (node: ListNode?<NodeData>)
      requires Valid()
      ensures node == if Nodes() == [] then null else Nodes()[|Nodes()| - 1]
    {
      var ringSize := orderedList.heap.Size(orderedList.sortedList);
      if ringSize <= 0 {
        return null;
      }
      node := orderedList.heap.Get(orderedList.sortedList, ringSize - 1);
    }

    /** round_consistenthashing_ring_gethandlenode */
    method GetHandleNode(hashCode: Option<string>) returns (handler: ListNode?<NodeData>)
      requires Valid()
      ensures handler == if Nodes() == [] then null else HandleNode(Nodes(), hashCode)
    {
      hide Layout, Linked, Increasing, StrCmp;
      ghost var s, i := Nodes(), 0;
      orderedList.heap.HeaderLinks(orderedList.sortedList);
      var node := orderedList.sortedList.Next();
      while node != null
        invariant 0 <= i <= |s| && node == if i < |s| then s[i] else null
        invariant s != [] ==> i < |s| && HandleFrom(s, hashCode, 0) == HandleFrom(s, hashCode, i)
        decreases |s| - i
      {
        orderedList.heap.ListLinks(orderedList.sortedList, i);
        var nextNode := node.Next();
        if nextNode == null {
          break;
        }
        if !(RoundStrCmp(hashCode, Hash(node)) < 0 || RoundStrCmp(hashCode, Hash(nextNode)) >= 0) {
          return node;
        }
        i := i + 1;
        node := nextNode;
      }
      handler := GetLastNode();
    }

    /** round_consistenthashing_ring_ishandlenode */
    method IsHandleNode(node: RingNode, hashCode: Option<string>) returns (b: bool)
      requires Valid()
      ensures b <==> Nodes() != [] && node == HandleNode(Nodes(), hashCode)
    {
      var handler := GetHandleNode(hashCode);
      b := node == handler;
    }

    /** round_consistenthashing_ring_getoffsetnode */
    method GetOffsetNode(target: NodeData, offset: int) returns (node: ListNode?<NodeData>)
      requires Valid()
      ensures node == OffsetNode(Nodes(), target.digest, offset)
    {
      hide Layout, Linked, Increasing, IndexOfHash;
      var nodeIndex := GetNodeIndex(target);
      if nodeIndex < 0 {
        return null;
      }
      var ringSize := orderedList.heap.Size(orderedList.sortedList);
      var offsetNodeIndex := nodeIndex + offset;
      if offsetNodeIndex < 0 {
        while offsetNodeIndex < 0
          invariant offsetNodeIndex % ringSize == (nodeIndex + offset) % ringSize
          decreases -offsetNodeIndex
        {
          ModShift(offsetNodeIndex, ringSize);
          offsetNodeIndex := offsetNodeIndex + ringSize;
        }
        ModAdd(offsetNodeIndex, 0, ringSize);
        offsetNodeIndex := offsetNodeIndex % ringSize;
      }
      offsetNodeIndex := offsetNodeIndex % ringSize;
      node := orderedList.heap.Get(orderedList.sortedList, offsetNodeIndex);
    }

    /** round_consistenthashing_ring_getforwardnodedistance */
    method GetForwardNodeDistance(firstNode: NodeData, lastNode: NodeData) returns (clockwiseOffset: int)
      requires Valid()
      ensures var i, j := IndexOfHash(Nodes(), firstNode.digest), IndexOfHash(Nodes(), lastNode.digest);
              if i < 0 || j < 0 then clockwiseOffset == 0
              else
                && clockwiseOffset == RingTheory.Forward(|Nodes()|, i, j)
                && 0 <= clockwiseOffset < |Nodes()|
                && OffsetNode(Nodes(), firstNode.digest, clockwiseOffset) == Nodes()[j]
    {
      hide Layout, Linked, Increasing, IndexOfHash;
      var firstNodeIndex := GetNodeIndex(firstNode);
      if firstNodeIndex < 0 {
        return 0;
      }
      var lastNodeIndex := GetNodeIndex(lastNode);
      if lastNodeIndex < 0 {
        return 0;
      }
      var ringSize := orderedList.heap.Size(orderedList.sortedList);
      DistancesReach(ringSize, firstNodeIndex, lastNodeIndex);
      if firstNodeIndex == lastNodeIndex {
        clockwiseOffset := 0;
      } else if firstNodeIndex <= lastNodeIndex {
        clockwiseOffset := lastNodeIndex - firstNodeIndex;
      } else {
        clockwiseOffset := (lastNodeIndex + ringSize) - firstNodeIndex;
      }
    }

    /** round_consistenthashing_ring_getbackwardnodedistance */
    method GetBackwardNodeDistance(firstNode: NodeData, lastNode: NodeData) returns (counterClockwiseOffset: int)
      requires Valid()
      ensures var i, j := IndexOfHash(Nodes(), firstNode.digest), IndexOfHash(Nodes(), lastNode.digest);
              if i < 0 || j < 0 then counterClockwiseOffset == 0
              else
                && counterClockwiseOffset == RingTheory.Backward(|Nodes()|, i, j)
                && -|Nodes()| < counterClockwiseOffset <= 0
                && OffsetNode(Nodes(), firstNode.digest, counterClockwiseOffset) == Nodes()[j]
    {
      hide Layout, Linked, Increasing, IndexOfHash;
      var firstNodeIndex := GetNodeIndex(firstNode);
      if firstNodeIndex < 0 {
        return 0;
      }
      var lastNodeIndex := GetNodeIndex(lastNode);
      if lastNodeIndex < 0 {
        return 0;
      }
      var ringSize := orderedList.heap.Size(orderedList.sortedList);
      DistancesReach(ringSize, firstNodeIndex, lastNodeIndex);
      if firstNodeIndex == lastNodeIndex {
        counterClockwiseOffset := 0;
      } else if firstNodeIndex <= lastNodeIndex {
        counterClockwiseOffset := lastNodeIndex - (firstNodeIndex + ringSize);
      } else {
        counterClockwiseOffset := lastNodeIndex - firstNodeIndex;
      }
    }

    /** round_consistenthashing_ring_getminnodedistance: the shortest offset from the first node to the last one. */
    method GetMinNodeDistance(firstNode: NodeData, lastNode: NodeData) returns (offset: int)
      requires Valid()
      ensures var s := Nodes();
              var i, j := IndexOfHash(s, firstNode.digest), IndexOfHash(s, lastNode.digest);
              if i < 0 || j < 0 then offset == 0
              else
                && OffsetNode(s, firstNode.digest, offset) == s[j]
                && 2 * Abs(offset) <= |s|
                && forall o :: OffsetNode(s, firstNode.digest, o) == s[j] ==> Abs(offset) <= Abs(o)
    {
      hide Layout, Linked, Increasing, IndexOfHash, RingTheory.Forward, RingTheory.Backward;
      var clockwiseOffset := GetForwardNodeDistance(firstNode, lastNode);
      var counterClockwiseOffset := GetBackwardNodeDistance(firstNode, lastNode);
      offset := if Abs(clockwiseOffset) < Abs(counterClockwiseOffset) then clockwiseOffset else counterClockwiseOffset;
      ghost var s := Nodes();
      ghost var i, j := IndexOfHash(s, firstNode.digest), IndexOfHash(s, lastNode.digest);
      if i >= 0 && j >= 0 {
        DistancesReach(|s|, i, j);
        NearestIsShortest(|s|, i, j, 0);
        orderedList.heap.NoDuplicates(orderedList.sortedList);
        forall o | OffsetNode(s, firstNode.digest, o) == s[j]
          ensures Abs(offset) <= Abs(o)
        {
          NearestIsShortest(|s|, i, j, o);
        }
      }
    }

    lemma NextStep(i: nat, k: nat)
      requires Valid() && i < |Nodes()| && k > 0
      ensures NextTimes(orderedList.heap.nodes, Nodes()[i], k)
              == NextTimes(orderedList.heap.nodes, Nodes()[(i + 1) % |Nodes()|], k - 1)
    {
      orderedList.heap.CircularLinks(orderedList.sortedList, i);
      orderedList.heap.ListLinks(orderedList.sortedList, i);
      hide Layout, Linked, Increasing;
    }

    lemma PrevStep(i: nat, k: nat)
      requires Valid() && i < |Nodes()| && k > 0
      ensures PrevTimes(orderedList.heap.nodes, Nodes()[i], k)
              == PrevTimes(orderedList.heap.nodes, Nodes()[(i - 1) % |Nodes()|], k - 1)
    {
      orderedList.heap.CircularLinks(orderedList.sortedList, i);
      orderedList.heap.ListLinks(orderedList.sortedList, i);
      hide Layout, Linked, Increasing;
    }

    /** The pointer walk of k circular steps forward is the offset by k. */
    lemma {:induction false} NextStepsAreOffsets(i: nat, k: nat)
      requires Valid() && i < |Nodes()|
      ensures NextTimes(orderedList.heap.nodes, Nodes()[i], k) == Nodes()[(i + k) % |Nodes()|]
      decreases k
    {
      hide Layout, Linked, Increasing, NextTimes;
      var n := |Nodes()|;
      if k == 0 {
        ModUnique(i, n, 0, i);
        NextTimesNone(orderedList.heap.nodes, Nodes()[i]);
      } else {
        NextStep(i, k);
        NextStepsAreOffsets((i + 1) % n, k - 1);
        ModAdd(i + 1, k - 1, n);
      }
    }

    /** The pointer walk of k circular steps backward is the offset by -k. */
    lemma {:induction false} PrevStepsAreOffsets(i: nat, k: nat)
      requires Valid() && i < |Nodes()|
      ensures PrevTimes(orderedList.heap.nodes, Nodes()[i], k) == Nodes()[(i - k) % |Nodes()|]
      decreases k
    {
      hide Layout, Linked, Increasing, PrevTimes;
      var n := |Nodes()|;
      if k == 0 {
        ModUnique(i, n, 0, i);
        PrevTimesNone(orderedList.heap.nodes, Nodes()[i]);
      } else {
        PrevStep(i, k);
        PrevStepsAreOffsets((i - 1) % n, k - 1);
        ModAdd(i - 1, 1 - k, n);
      }
    }
  }
}
