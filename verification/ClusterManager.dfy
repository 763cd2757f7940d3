/** The cluster manager of cluster_manager.c: one ring of node copies per cluster name. */
module ClusterManager {
  import opened Sequences
  import opened CStrings
  import opened IntrusiveList
  import opened Nodes
  import opened Ordered
  import opened RingTheory
  import opened Ring
  import RoundNode

  datatype Cluster = Cluster(name: string, ring: ConsistentHashingRing?)

  type ClusterNode = ListNode<Cluster>

  // ---- The clusters as a set of (cluster name, node id) pairs ------------------------

  /** The nodes in a cluster's ring. */
  ghost function RingOf(c: Cluster, lists: Lists<NodeData>): seq<RingNode> {
    if c.ring != null && c.ring.orderedList.sortedList in lists then lists[c.ring.orderedList.sortedList] else []
  }

  ghost predicate IsMember(cs: seq<ClusterNode>, lists: Lists<NodeData>, name: string, id: string) {
    exists i :: 0 <= i < |cs| && cs[i].item.name == name && HasHash(RingOf(cs[i].item, lists), Some(id))
  }

  /** A cluster's ring is a list of the node heap, strictly ordered by hash. */
  ghost predicate ClusterOk(c: Cluster, nodeHeap: ListHeap<NodeData>, lists: Lists<NodeData>) {
    && c.ring != null && c.ring.orderedList.heap == nodeHeap && c.ring.orderedList.cmpFunc == CompFunc
    && c.ring.orderedList.sortedList in lists
    && Increasing(RingOf(c, lists))
  }

  /** Clusters are sound, and no two share a name or a ring. */
  ghost predicate ClustersOk(cs: seq<ClusterNode>, nodeHeap: ListHeap<NodeData>, lists: Lists<NodeData>) {
    && (forall i :: 0 <= i < |cs| ==> ClusterOk(cs[i].item, nodeHeap, lists))
    && (forall i, j :: 0 <= i < j < |cs| ==>
          cs[i].item.name != cs[j].item.name
          && cs[i].item.ring.orderedList.sortedList != cs[j].item.ring.orderedList.sortedList)
  }

  /** The clusters are sound and hold exactly the given members. */
  ghost predicate Agrees(cs: seq<ClusterNode>, nodeHeap: ListHeap<NodeData>, lists: Lists<NodeData>,
                         members: set<(string, string)>) {
    ClustersOk(cs, nodeHeap, lists) && forall name, id :: (name, id) in members <==> IsMember(cs, lists, name, id)
  }

  lemma NotNamed(cs: seq<ClusterNode>, nodeHeap: ListHeap<NodeData>, lists: Lists<NodeData>,
                 members: set<(string, string)>, name: string, id: string)
    requires Agrees(cs, nodeHeap, lists, members) && forall i :: 0 <= i < |cs| ==> cs[i].item.name != name
    ensures (name, id) !in members
  {
  }

  /** Changing the ring of the i-th cluster changes the members of that cluster only. */
  lemma RingChanged(cs: seq<ClusterNode>, nodeHeap: ListHeap<NodeData>, lists: Lists<NodeData>,
                    members: set<(string, string)>, i: nat, s: seq<RingNode>, members': set<(string, string)>)
    requires Agrees(cs, nodeHeap, lists, members) && i < |cs| && Increasing(s)
    requires forall name, id :: (name, id) in members'
               <==> if name == cs[i].item.name then HasHash(s, Some(id)) else (name, id) in members
    ensures Agrees(cs, nodeHeap, lists[cs[i].item.ring.orderedList.sortedList := s], members')
  {
  }

  /** A new cluster with an empty ring adds no member. */
  lemma ClusterAdded(cs: seq<ClusterNode>, nodeHeap: ListHeap<NodeData>, lists: Lists<NodeData>,
                     members: set<(string, string)>,
                     c: ClusterNode)
    requires Agrees(cs, nodeHeap, lists, members) && forall i :: 0 <= i < |cs| ==> cs[i].item.name != c.item.name
    requires c.item.ring != null && c.item.ring.orderedList.heap == nodeHeap
             && c.item.ring.orderedList.cmpFunc == CompFunc
    requires c.item.ring.orderedList.sortedList !in lists
    ensures Agrees(cs + [c], nodeHeap, lists[c.item.ring.orderedList.sortedList := []], members)
  {
    hide Increasing;
    var lists' := lists[c.item.ring.orderedList.sortedList := []];
    forall j | 0 <= j < |cs|
      ensures RingOf(cs[j].item, lists') == RingOf(cs[j].item, lists) && ClusterOk(cs[j].item, nodeHeap, lists')
    {
      assert ClusterOk(cs[j].item, nodeHeap, lists);
    }
    assert Increasing([]) by {
      EmptyRing();
    }
    assert forall id :: !HasHash([], Some(id));
    forall name, id
      ensures IsMember(cs + [c], lists', name, id) <==> IsMember(cs, lists, name, id)
    {
      if IsMember(cs, lists, name, id) {
        var i :| 0 <= i < |cs| && cs[i].item.name == name && HasHash(RingOf(cs[i].item, lists), Some(id));
        assert (cs + [c])[i] == cs[i];
      }
    }
  }

  lemma RingIsSound(cs: seq<ClusterNode>, nodeHeap: ListHeap<NodeData>, lists: Lists<NodeData>,
                    members: set<(string, string)>)
    requires Agrees(cs, nodeHeap, lists, members)
    ensures ClustersOk(cs, nodeHeap, lists)
  {
  }

  lemma NothingDropped(s: seq<RingNode>, d: Option<string>)
    ensures !HasHash(s, d) ==> Dropped(s, d) == s
  {
  }

  /** A cluster's ring before and after a copy of the node was to join it: the new entry is the copy,
      at its place in the order, or nothing changed. */
  ghost predicate Joined(c: Cluster, before: Lists<NodeData>, after: Lists<NodeData>, entry: ListNode?<NodeData>,
                         d: NodeData, sha: string -> string, joins: bool) {
    if joins then
      && entry != null && entry.item == RoundNode.CopyData(d, sha)
      && entry in RingOf(c, after) && RingOf(c, after) == Added(RingOf(c, before), entry)
    else RingOf(c, after) == RingOf(c, before)
  }

  /** The clusters are those from before, and the i-th one, which may be a new last one, has the name. */
  ghost predicate Extended(before: seq<ClusterNode>, cs: seq<ClusterNode>, i: int, name: string) {
    && 0 <= i < |cs| && cs[i].item.name == name
    && (cs == before || (i == |before| && cs == before + [cs[i]] && forall c :: c in before ==> c.item.name != name))
  }

  /** No cluster but the i-th sees its ring change. */
  ghost predicate OthersKept(cs: seq<ClusterNode>, i: int, before: Lists<NodeData>, after: Lists<NodeData>) {
    forall j :: 0 <= j < |cs| && j != i ==> RingOf(cs[j].item, after) == RingOf(cs[j].item, before)
  }

  lemma SameRings(cs: seq<ClusterNode>, lists: Lists<NodeData>)
    ensures forall i :: OthersKept(cs, i, lists, lists)
  {
  }

  /** What was done to the i-th ring after its cluster was created counts from before that. */
  lemma JoinedSinceBefore(cs: seq<ClusterNode>, i: nat, before: Lists<NodeData>, created: Lists<NodeData>,
                          after: Lists<NodeData>, entry: ListNode?<NodeData>, d: NodeData, sha: string -> string,
                          joins: bool)
    requires i < |cs| && OthersKept(cs, i, before, created) && OthersKept(cs, i, created, after)
    requires RingOf(cs[i].item, before) == RingOf(cs[i].item, created)
    requires Joined(cs[i].item, created, after, entry, d, sha, joins)
    ensures OthersKept(cs, i, before, after) && Joined(cs[i].item, before, after, entry, d, sha, joins)
  {
    hide RingOf, Added, RoundNode.CopyData;
  }

  /** The rings just after the last cluster was created: its own is empty, as it was not there before. */
  lemma RingsAfterCreate(cs: seq<ClusterNode>, nodeHeap: ListHeap<NodeData>, before: Lists<NodeData>, i: nat)
    requires i + 1 == |cs| && cs[i].item.ring != null && cs[i].item.ring.orderedList.sortedList !in before
    requires ClustersOk(cs, nodeHeap, before[cs[i].item.ring.orderedList.sortedList := []])
    ensures var lists := before[cs[i].item.ring.orderedList.sortedList := []];
            OthersKept(cs, i, before, lists) && RingOf(cs[i].item, before) == RingOf(cs[i].item, lists) == []
  {
    hide Increasing;
  }

  /** The change leaves every other cluster's ring as it is. */
  lemma OtherRingsKept(cs: seq<ClusterNode>, nodeHeap: ListHeap<NodeData>, lists: Lists<NodeData>, i: nat,
                       s: seq<RingNode>)
    requires ClustersOk(cs, nodeHeap, lists) && i < |cs|
    ensures var lists' := lists[cs[i].item.ring.orderedList.sortedList := s];
            RingOf(cs[i].item, lists') == s && OthersKept(cs, i, lists, lists')
  {
    hide Increasing;
  }

  /** A node that an ordered ring accepts is in it afterwards. */
  lemma AddedIsThere(s: seq<RingNode>, n: RingNode)
    requires !HasHash(s, Hash(n))
    ensures n in Added(s, n)
  {
    hide OrderedPosition, HasHash;
    if Hash(n).Some? {
      assert Added(s, n)[OrderedPosition(s, n)] == n;
    } else {
      assert Added(s, n)[0] == n;
    }
  }

  ghost function WithMember(members: set<(string, string)>, name: string, digest: Option<string>)
    : set<(string, string)>
  {
    if digest.Some? then members + {(name, digest.value)} else members
  }

  /** What a new node does to a sound manager when it is put into the i-th ring. */
  lemma EntryAdded(cs: seq<ClusterNode>, nodeHeap: ListHeap<NodeData>, lists: Lists<NodeData>,
                   members: set<(string, string)>, i: nat, entry: RingNode)
    requires Agrees(cs, nodeHeap, lists, members) && i < |cs|
    requires NoDup(RingOf(cs[i].item, lists)) && entry !in RingOf(cs[i].item, lists)
    ensures cs[i].item.ring != null
    ensures var c, s := cs[i].item, RingOf(cs[i].item, lists);
            var lists' := lists[c.ring.orderedList.sortedList := Added(s, entry)];
            && Agrees(cs, nodeHeap, lists', WithMember(members, c.name, Hash(entry)))
            && RingOf(c, lists') == Added(s, entry) && OthersKept(cs, i, lists, lists')
            && (HasHash(s, Hash(entry)) <==> Hash(entry).Some? && (c.name, Hash(entry).value) in members)
            && |Added(s, entry)| == |s| + (if HasHash(s, Hash(entry)) then 0 else 1)
            && (HasHash(s, Hash(entry)) ==> Added(s, entry) == s)
            && (!HasHash(s, Hash(entry)) ==> entry in Added(s, entry))
  {
    var c, s := cs[i].item, RingOf(cs[i].item, lists);
    RingIsSound(cs, nodeHeap, lists, members);
    assert ClusterOk(c, nodeHeap, lists);
    NodeJoins(s, entry);
    OtherRingsKept(cs, nodeHeap, lists, i, Added(s, entry));
    if !HasHash(s, Hash(entry)) {
      AddedIsThere(s, entry);
    }
    MemberHasHash(cs, nodeHeap, lists, members, i, Hash(entry));
    hide Increasing, OrderedPosition, HasHash, OthersKept, RingOf, ClusterOk, ClustersOk, NoDup;
    forall name, id
      ensures (name, id) in WithMember(members, c.name, Hash(entry))
              <==> if name == c.name then HasHash(Added(s, entry), Some(id)) else (name, id) in members
    {
      MemberHasHash(cs, nodeHeap, lists, members, i, Some(id));
    }
    RingChanged(cs, nodeHeap, lists, members, i, Added(s, entry), WithMember(members, c.name, Hash(entry)));
  }

  lemma MemberHasHash(cs: seq<ClusterNode>, nodeHeap: ListHeap<NodeData>, lists: Lists<NodeData>,
                      members: set<(string, string)>, i: nat, d: Option<string>)
    requires Agrees(cs, nodeHeap, lists, members) && i < |cs|
    ensures HasHash(RingOf(cs[i].item, lists), d) <==> d.Some? && (cs[i].item.name, d.value) in members
  {
  }

  /** A hash finds one node only. */
  lemma SameHashSameNode(s: seq<RingNode>, x: RingNode, y: RingNode)
    requires Increasing(s) && x in s && y in s && Hash(x).Some? && Hash(x) == Hash(y)
    ensures x == y
  {
    StrCmpIsLexOrder(Hash(x).value, Hash(x).value);
    hide StrCmp, LexLess;
    var i :| 0 <= i < |s| && s[i] == x;
    var j :| 0 <= j < |s| && s[j] == y;
  }

  lemma EmptyRing()
    ensures Increasing([])
  {
  }

  /** A node joins a ring: it stays ordered and gains that node's hash only. */
  lemma NodeJoins(s: seq<RingNode>, n: RingNode)
    requires Increasing(s) && NoDup(s)
    ensures Increasing(Added(s, n))
    ensures forall id :: HasHash(Added(s, n), Some(id)) <==> HasHash(s, Some(id)) || Some(id) == Hash(n)
    ensures n !in s ==> |Added(s, n)| == |s| + if HasHash(s, Hash(n)) then 0 else 1
  {
    hide Increasing, OrderedPosition, HasHash;
    AddedIncreasing(s, n);
    forall id
      ensures HasHash(Added(s, n), Some(id)) <==> HasHash(s, Some(id)) || Some(id) == Hash(n)
    {
      AddedHashes(s, n, Some(id));
    }
  }

  /** A hash leaves a ring: it stays ordered and loses that hash only. */
  lemma HashLeaves(s: seq<RingNode>, d: Option<string>)
    requires Increasing(s) && NoDup(s)
    ensures Increasing(Dropped(s, d))
    ensures forall id :: HasHash(Dropped(s, d), Some(id)) <==> HasHash(s, Some(id)) && Some(id) != d
  {
    hide Increasing, HasHash, IndexOfHash;
    DroppedIncreasing(s, d);
    forall id
      ensures HasHash(Dropped(s, d), Some(id)) <==> HasHash(s, Some(id)) && Some(id) != d
    {
      DroppedHashes(s, d, Some(id));
    }
  }

  // ---- What the operations do to the set of members ----------------------------------

  /** The node's cluster has a member with the node's identifier. */
  ghost predicate Listed(members: set<(string, string)>, d: NodeData) {
    RoundStrLen(d.clusterName) > 0 && d.digest.Some? && (d.clusterName.value, d.digest.value) in members
  }

  /** Adding is refused for a node without a cluster, and when only the copy's identifier is taken. */
  ghost predicate Accepts(members: set<(string, string)>, d: NodeData, sha: string -> string) {
    RoundStrLen(d.clusterName) > 0 && (Listed(members, d) || !Listed(members, RoundNode.CopyData(d, sha)))
  }

  /** The members after adding a copy of the node. */
  ghost function AfterAdd(members: set<(string, string)>, d: NodeData, sha: string -> string): set<(string, string)> {
    var copy := RoundNode.CopyData(d, sha);
    if RoundStrLen(d.clusterName) <= 0 || Listed(members, d) || copy.digest.None? then members
    else members + {(d.clusterName.value, copy.digest.value)}
  }

  lemma NotClustered(members: set<(string, string)>, d: NodeData, sha: string -> string)
    requires RoundStrLen(d.clusterName) <= 0
    ensures AfterAdd(members, d, sha) == members && !Accepts(members, d, sha)
  {
  }

  /** The members after removing the node. */
  ghost function AfterRemove(members: set<(string, string)>, d: NodeData): set<(string, string)> {
    if Listed(members, d) then members - {(d.clusterName.value, d.digest.value)} else members
  }

  /** Once added, a node is found by its own identifier exactly when its copy keeps that identifier,
      which CopyKeepsId decides from its address and port. */
  lemma AddedIsListed(members: set<(string, string)>, d: NodeData, sha: string -> string)
    requires RoundNode.Tracked(d, sha) && RoundNode.TellsCopy(d, sha)
    requires RoundStrLen(d.clusterName) > 0 && !Listed(members, d)
    ensures Listed(AfterAdd(members, d, sha), d)
            <==> || (RoundStrLen(d.addr) > 0 && (d.port >= 0 || |d.addr.value| + 1 >= RoundNode.SEED_LENGTH))
                 || (d.addr.None? && d.port > 0)
  {
    hide RoundNode.Seed;
    RoundNode.CopyKeepsId(d, sha);
  }

  /** An accepted node is accepted a second time exactly when it was listed before, or its copy keeps
      the identifier or has none. The second addition never changes the members. */
  lemma SecondAdd(members: set<(string, string)>, d: NodeData, sha: string -> string)
    requires Accepts(members, d, sha)
    ensures var once, copyId := AfterAdd(members, d, sha), RoundNode.CopyData(d, sha).digest;
            && (Accepts(once, d, sha) <==> Listed(members, d) || copyId.None? || copyId == d.digest)
            && AfterAdd(once, d, sha) == once
            && (once == members <==> Listed(members, d) || copyId.None?)
  {
    hide RoundNode.Seed;
  }

  /** Removing a node that was just added and not listed before restores the members exactly when its
      copy keeps the identifier, or the addition changed nothing: there is no cluster, no identifier
      for the copy, or the copy's identifier was taken. */
  lemma RemoveAfterAdd(members: set<(string, string)>, d: NodeData, sha: string -> string)
    requires !Listed(members, d)
    ensures var copy := RoundNode.CopyData(d, sha);
            AfterRemove(AfterAdd(members, d, sha), d) == members
            <==> || RoundStrLen(d.clusterName) <= 0 || copy.digest.None?
                 || copy.digest == d.digest || Listed(members, copy)
  {
    hide RoundNode.Seed;
    var copy := RoundNode.CopyData(d, sha);
    if RoundStrLen(d.clusterName) > 0 && copy.digest.Some? && copy.digest != d.digest && !Listed(members, copy) {
      assert (d.clusterName.value, copy.digest.value) in AfterRemove(AfterAdd(members, d, sha), d);
    }
  }

  datatype ClusterOp = AddOp(d: NodeData) | RemoveOp(d: NodeData) | ClearOp

  /** The members after the operations ops, in order, on a manager with the members `start`. */
  ghost function MembersAfter(start: set<(string, string)>, ops: seq<ClusterOp>, sha: string -> string):
    set<(string, string)>
  {
    if ops == [] then start
    else
      var members := MembersAfter(start, ops[..|ops| - 1], sha);
      match ops[|ops| - 1]
      case AddOp(d) => AfterAdd(members, d, sha)
      case RemoveOp(d) => AfterRemove(members, d)
      case ClearOp => {}
  }

  /** The operation is on the given cluster and identifier. */
  ghost predicate IsOn(d: NodeData, key: (string, string)) {
    d.clusterName == Some(key.0) && d.digest == Some(key.1)
  }

  /** The k-th operation adds the member, and no later one takes it out. */
  ghost predicate AddedForGood(ops: seq<ClusterOp>, key: (string, string), k: int) {
    && 0 <= k < |ops| && ops[k].AddOp? && IsOn(ops[k].d, key)
    && forall j :: k < j < |ops| ==> ops[j].AddOp? || (ops[j].RemoveOp? && !IsOn(ops[j].d, key))
  }

  lemma AddedEarlier(ops: seq<ClusterOp>, key: (string, string), k: int)
    requires ops != []
    ensures var init, last := ops[..|ops| - 1], ops[|ops| - 1];
            AddedForGood(ops, key, k) && k < |ops| - 1
            <==> AddedForGood(init, key, k) && (last.AddOp? || (last.RemoveOp? && !IsOn(last.d, key)))
  {
    var init := ops[..|ops| - 1];
    assert forall j :: 0 <= j < |init| ==> init[j] == ops[j];
  }

  /** Over any run on a new manager with reachable nodes, a node is a member exactly when it was added and
      neither removed nor cleared away since. */
  lemma {:induction false} MembersAreAddedForGood(ops: seq<ClusterOp>, sha: string -> string, key: (string, string))
    requires forall j :: 0 <= j < |ops| && !ops[j].ClearOp? ==>
               RoundNode.Tracked(ops[j].d, sha) && RoundNode.Addressable(ops[j].d)
    ensures key in MembersAfter({}, ops, sha) <==> exists k :: AddedForGood(ops, key, k)
  {
    hide RoundNode.Tracked, RoundNode.Seed;
    if ops != [] {
      var init, op := ops[..|ops| - 1], ops[|ops| - 1];
      MembersAreAddedForGood(init, sha, key);
      if !op.ClearOp? {
        RoundNode.CopyOfAddressable(op.d, sha);
      }
      forall k
        ensures AddedForGood(ops, key, k) && k < |ops| - 1
                <==> AddedForGood(init, key, k) && (op.AddOp? || (op.RemoveOp? && !IsOn(op.d, key)))
      {
        AddedEarlier(ops, key, k);
      }
      if op.AddOp? && IsOn(op.d, key) {
        assert AddedForGood(ops, key, |ops| - 1);
      } else if key in MembersAfter({}, init, sha) {
        var k :| AddedForGood(init, key, k);
        assert AddedForGood(ops, key, k) <==> !op.ClearOp? && !IsOn(op.d, key);
      }
    }
  }

  /** A call of the manager, on a node object. */
  datatype NodeCall = AddCall(node: RoundNode.Node) | RemoveCall(node: RoundNode.Node) | ClearCall

  /** The call, with the data that its node has now. */
  ghost function OpOf(call: NodeCall): ClusterOp
    reads if call.ClearCall? then {} else {call.node}
  {
    match call
    case AddCall(node) => ClusterOp.AddOp(node.Data())
    case RemoveCall(node) => ClusterOp.RemoveOp(node.Data())
    case ClearCall => ClearOp
  }

  /** The i-th cluster is the node's, and n stands in its ring with the node's identifier. */
  ghost predicate Found(cs: seq<ClusterNode>, lists: Lists<NodeData>, i: int, n: RingNode, d: NodeData) {
    0 <= i < |cs| && Some(cs[i].item.name) == d.clusterName && n in RingOf(cs[i].item, lists) && Hash(n) == d.digest
  }

  class ClusterManager {
    const clusterHeap: ListHeap<Cluster>
    const header: ClusterNode
    const nodeHeap: ListHeap<NodeData>
    ghost var members: set<(string, string)>

    /** round_cluster_manager_new, on its list header */
    constructor (clusterHeap: ListHeap<Cluster>, header: ClusterNode, nodeHeap: ListHeap<NodeData>)
      requires clusterHeap.Valid() && header in clusterHeap.lists && clusterHeap.lists[header] == [] && nodeHeap.Valid()
      ensures this.clusterHeap == clusterHeap && this.header == header && this.nodeHeap == nodeHeap
      ensures Valid() && members == {}
    {
      hide Layout, Linked;
      this.clusterHeap, this.header, this.nodeHeap, members := clusterHeap, header, nodeHeap, {};
    }

    ghost predicate Valid()
      reads this, clusterHeap, clusterHeap.nodes, nodeHeap, nodeHeap.nodes
    {
      && clusterHeap.Valid() && header in clusterHeap.lists && nodeHeap.Valid()
      && Agrees(Clusters(), nodeHeap, nodeHeap.lists, members)
    }

    ghost function Clusters(): seq<ClusterNode>
      requires header in clusterHeap.lists
      reads clusterHeap
    {
      clusterHeap.lists[header]
    }

    /** round_cluster_manager_getclusterbyname */
    method GetClusterByName(name: string) returns (cluster: ListNode?<Cluster>, ghost i: int)
      requires Valid()
      ensures cluster == null ==> forall j :: 0 <= j < |Clusters()| ==> Clusters()[j].item.name != name
      ensures cluster != null ==> 0 <= i < |Clusters()| && cluster == Clusters()[i] && cluster.item.name == name
    {
      hide Layout, Linked, ClustersOk, IsMember, StrCmp, LexLess;
      ghost var cs := Clusters();
      i := 0;
      clusterHeap.HeaderLinks(header);
      cluster := header.Next();
      while cluster != null
        invariant 0 <= i <= |cs| && cluster == if i < |cs| then cs[i] else null
        invariant forall j :: 0 <= j < i ==> cs[j].item.name != name
        decreases |cs| - i
      {
        clusterHeap.ListLinks(header, i);
        StrCmpIsLexOrder(name, cluster.item.name);
        if RoundStrEq(Some(name), Some(cluster.item.name)) {
          return;
        }
        i := i + 1;
        cluster := cluster.Next();
      }
    }

    /** round_consistenthashing_ring_new */
    method NewRing() returns (ring: ConsistentHashingRing)
      requires nodeHeap.Valid()
      modifies nodeHeap
      ensures nodeHeap.Valid() && ring.orderedList.heap == nodeHeap && ring.orderedList.cmpFunc == CompFunc
      ensures ring.orderedList.sortedList !in old(nodeHeap.lists)
      ensures nodeHeap.lists == old(nodeHeap.lists)[ring.orderedList.sortedList := []]
      ensures nodeHeap.nodes >= old(nodeHeap.nodes) && fresh(nodeHeap.nodes - old(nodeHeap.nodes))
    {
      hide Layout, Linked;
      var sortedList := nodeHeap.NewHeader();
      var orderedList := new OrderedList(nodeHeap, sortedList, CompFunc);
      ring := new ConsistentHashingRing(orderedList);
    }

    /** round_cluster_new and round_cluster_manager_addcluster, for a name not used yet */
    method CreateCluster(name: string) returns (cluster: ClusterNode, ghost i: int)
      requires Valid() && forall j :: 0 <= j < |Clusters()| ==> Clusters()[j].item.name != name
      modifies clusterHeap, clusterHeap.nodes, nodeHeap
      ensures Valid() && 0 <= i < |Clusters()| && cluster == Clusters()[i] && cluster.item.name == name
      ensures i == |old(Clusters())| && Clusters() == old(Clusters()) + [cluster]
      ensures cluster.item.ring != null && cluster.item.ring.orderedList.sortedList !in old(nodeHeap.lists)
      ensures nodeHeap.lists == old(nodeHeap.lists)[cluster.item.ring.orderedList.sortedList := []]
      ensures nodeHeap.nodes >= old(nodeHeap.nodes) && fresh(nodeHeap.nodes - old(nodeHeap.nodes))
      ensures clusterHeap.nodes >= old(clusterHeap.nodes) && fresh(clusterHeap.nodes - old(clusterHeap.nodes))
    {
      hide Layout, Linked, Agrees, ListHeap.Valid;
      ghost var cs, lists := Clusters(), nodeHeap.lists;
      var ring := NewRing();
      cluster := clusterHeap.NewNode(Cluster(name, ring));
      ClusterAdded(cs, nodeHeap, lists, members, cluster);
      i := |Clusters()|;
      clusterHeap.AddLast(header, cluster);
      assert clusterHeap.lists[header] == cs + [cluster];
    }

    /** What a sound manager knows of its i-th cluster. */
    lemma ClusterRing(i: nat)
      requires Valid() && i < |Clusters()|
      ensures var c := Clusters()[i].item;
              && c.ring != null && c.ring.Valid() && c.ring.orderedList.heap == nodeHeap
              && c.ring.Nodes() == RingOf(c, nodeHeap.lists)
              && !HasHash(c.ring.Nodes(), None)
              && forall id :: (c.name, id) in members <==> HasHash(c.ring.Nodes(), Some(id))
    {
    }

    /** round_cluster_manager_getclusterbynode, then its hasnode: a node without a cluster name is in no cluster. */
    method HasNode(node: RoundNode.Node) returns (found: bool)
      requires Valid()
      ensures found <==> Listed(members, node.Data())
    {
      hide ListHeap.Valid, Agrees, HasHash, Increasing, IndexOfHash;
      if RoundStrLen(node.clusterName) <= 0 {
        return false;
      }
      var cluster, i := GetClusterByName(node.clusterName.value);
      if cluster == null {
        forall id
          ensures (node.clusterName.value, id) !in members
        {
          NotNamed(Clusters(), nodeHeap, nodeHeap.lists, members, node.clusterName.value, id);
        }
        return false;
      }
      ClusterRing(i);
      var equalNode := cluster.item.ring.GetEqualNode(NodeData(node.addr, node.port, node.digest, node.clusterName));
      found := equalNode != null;
    }

    /** round_cluster_manager_getnode: the ring's node with the identifier of the given one. */
    method GetNode(node: RoundNode.Node) returns (found: ListNode?<NodeData>, ghost i: int)
      requires Valid()
      ensures found != null <==> Listed(members, node.Data())
      ensures found != null ==> Found(Clusters(), nodeHeap.lists, i, found, node.Data())
    {
      hide ListHeap.Valid, Agrees, HasHash, Increasing, IndexOfHash;
      found, i := null, 0;
      var isMember := HasNode(node);
      if !isMember {
        return;
      }
      var cluster;
      cluster, i := GetClusterByName(node.clusterName.value);
      if cluster == null {
        NotNamed(Clusters(), nodeHeap, nodeHeap.lists, members, node.clusterName.value, node.digest.value);
        return;
      }
      ClusterRing(i);
      found := cluster.item.ring.GetEqualNode(NodeData(node.addr, node.port, node.digest, node.clusterName));
    }

    /** round_cluster_addnode of a new node with the given data: exactly that node joins the ring. */
    method AddEntry(cluster: ClusterNode, ghost i: int, data: NodeData) returns (ok: bool, ghost entry: RingNode)
      requires Valid() && 0 <= i < |Clusters()| && cluster == Clusters()[i]
      modifies this`members, nodeHeap, nodeHeap.nodes
      ensures Valid() && (ok <==> data.digest.Some? ==> (cluster.item.name, data.digest.value) !in old(members))
      ensures members == WithMember(old(members), cluster.item.name, data.digest)
      ensures |RingOf(cluster.item, nodeHeap.lists)| == old(|RingOf(cluster.item, nodeHeap.lists)|)
                                                     + if ok then 1 else 0
      ensures entry.item == data && (ok ==> entry in RingOf(cluster.item, nodeHeap.lists))
      ensures RingOf(cluster.item, nodeHeap.lists)
              == if ok then Added(old(RingOf(cluster.item, nodeHeap.lists)), entry)
                 else old(RingOf(cluster.item, nodeHeap.lists))
      ensures OthersKept(Clusters(), i, old(nodeHeap.lists), nodeHeap.lists)
      ensures nodeHeap.nodes >= old(nodeHeap.nodes) && fresh(nodeHeap.nodes - old(nodeHeap.nodes))
    {
      hide ListHeap.Valid, Agrees, Increasing, HasHash, IndexOfHash, Added, Removed, OthersKept;
      ClusterRing(i);
      var ring := cluster.item.ring;
      var newEntry := nodeHeap.NewNode(data);
      entry := newEntry;
      ghost var lists := nodeHeap.lists;
      nodeHeap.NoDuplicates(ring.orderedList.sortedList);
      nodeHeap.FreeUnaffected(entry);
      nodeHeap.FreeElsewhere(ring.orderedList.sortedList, entry);
      EntryAdded(Clusters(), nodeHeap, lists, members, i, entry);
      ok := ring.AddNode(newEntry);
      members := WithMember(members, cluster.item.name, data.digest);
      assert nodeHeap.lists == lists[ring.orderedList.sortedList := ring.Nodes()];
    }

    /** The second half of round_cluster_manager_addnode: a copy of the node joins the cluster
        unless the cluster has a node with its hash. */
    method AddCopy(cluster: ClusterNode, ghost i: int, node: RoundNode.Node)
      returns (ok: bool, ghost entry: ListNode?<NodeData>)
      requires Valid() && 0 <= i < |Clusters()| && cluster == Clusters()[i]
      requires RoundStrLen(node.clusterName) > 0 && node.clusterName.value == cluster.item.name
      modifies this`members, nodeHeap, nodeHeap.nodes
      ensures Valid() && ok == Accepts(old(members), node.Data(), node.sha)
      ensures members == AfterAdd(old(members), node.Data(), node.sha)
      ensures |RingOf(cluster.item, nodeHeap.lists)|
              == old(|RingOf(cluster.item, nodeHeap.lists)|) + if ok && !Listed(old(members), node.Data()) then 1 else 0
      ensures Joined(cluster.item, old(nodeHeap.lists), nodeHeap.lists, entry, node.Data(), node.sha,
                     ok && !Listed(old(members), node.Data()))
      ensures OthersKept(Clusters(), i, old(nodeHeap.lists), nodeHeap.lists)
      ensures nodeHeap.nodes >= old(nodeHeap.nodes) && fresh(nodeHeap.nodes - old(nodeHeap.nodes))
    {
      hide ListHeap.Valid, Agrees, Increasing, HasHash, IndexOfHash;
      hide RoundNode.Seed, CompFunc, RingOf, OthersKept, Added;
      ClusterRing(i);
      SameRings(Clusters(), nodeHeap.lists);
      assert HasHash(cluster.item.ring.Nodes(), node.digest) <==> Listed(members, node.Data());
      var equalNode := cluster.item.ring.GetEqualNode(NodeData(node.addr, node.port, node.digest, node.clusterName));
      if equalNode != null {
        return true, null;
      }
      var newNode := RoundNode.Copy(node);
      ok, entry := AddEntry(cluster, i, NodeData(newNode.addr, newNode.port, newNode.digest, newNode.clusterName));
    }

    /** The first half of round_cluster_manager_addnode: the cluster of that name, created when there is none. */
    method FindOrCreate(name: string) returns (cluster: ClusterNode, ghost i: int)
      requires Valid()
      modifies clusterHeap, clusterHeap.nodes, nodeHeap
      ensures Valid() && Extended(old(Clusters()), Clusters(), i, name) && cluster == Clusters()[i]
      ensures OthersKept(Clusters(), i, old(nodeHeap.lists), nodeHeap.lists)
      ensures RingOf(cluster.item, nodeHeap.lists) == RingOf(cluster.item, old(nodeHeap.lists))
      ensures nodeHeap.nodes >= old(nodeHeap.nodes) && fresh(nodeHeap.nodes - old(nodeHeap.nodes))
      ensures clusterHeap.nodes >= old(clusterHeap.nodes) && fresh(clusterHeap.nodes - old(clusterHeap.nodes))
    {
      hide ListHeap.Valid, Agrees, RingOf;
      SameRings(Clusters(), nodeHeap.lists);
      var found;
      found, i := GetClusterByName(name);
      if found == null {
        cluster, i := CreateCluster(name);
        RingIsSound(Clusters(), nodeHeap, nodeHeap.lists, members);
        RingsAfterCreate(Clusters(), nodeHeap, old(nodeHeap.lists), i);
      } else {
        cluster := found;
      }
    }

    /** round_cluster_manager_addnode */
    method AddNode(node: RoundNode.Node) returns (ok: bool, ghost i: int, ghost entry: ListNode?<NodeData>)
      requires Valid()
      modifies this`members, clusterHeap, clusterHeap.nodes, nodeHeap, nodeHeap.nodes
      ensures Valid() && ok == Accepts(old(members), node.Data(), node.sha)
      ensures members == AfterAdd(old(members), node.Data(), node.sha)
      ensures RoundStrLen(node.clusterName) <= 0 ==>
                Clusters() == old(Clusters()) && nodeHeap.lists == old(nodeHeap.lists)
      ensures RoundStrLen(node.clusterName) > 0 ==>
                && Extended(old(Clusters()), Clusters(), i, node.clusterName.value)
                && OthersKept(Clusters(), i, old(nodeHeap.lists), nodeHeap.lists)
                && Joined(Clusters()[i].item, old(nodeHeap.lists), nodeHeap.lists, entry, node.Data(), node.sha,
                          ok && !Listed(old(members), node.Data()))
      ensures nodeHeap.nodes >= old(nodeHeap.nodes) && fresh(nodeHeap.nodes - old(nodeHeap.nodes))
      ensures clusterHeap.nodes >= old(clusterHeap.nodes) && fresh(clusterHeap.nodes - old(clusterHeap.nodes))
    {
      hide ListHeap.Valid, Agrees, Accepts, AfterAdd, RingOf, Listed, Joined, OthersKept, RoundNode.CopyData;
      if RoundStrLen(node.clusterName) <= 0 {
        NotClustered(members, node.Data(), node.sha);
        return false, 0, null;
      }
      var cluster;
      cluster, i := FindOrCreate(node.clusterName.value);
      ghost var found := nodeHeap.lists;
      ok, entry := AddCopy(cluster, i, node);
      JoinedSinceBefore(Clusters(), i, old(nodeHeap.lists), found, nodeHeap.lists, entry, node.Data(), node.sha,
                        ok && !Listed(old(members), node.Data()));
    }

    /** round_cluster_manager_removenode: takes out the member with the node's identifier. */
    method RemoveNode(node: RoundNode.Node) returns (ok: bool, ghost i: int)
      requires Valid()
      modifies this`members, nodeHeap, nodeHeap.nodes
      ensures Valid() && nodeHeap.nodes == old(nodeHeap.nodes)
      ensures ok == Listed(old(members), node.Data()) && members == AfterRemove(old(members), node.Data())
      ensures !ok ==> nodeHeap.lists == old(nodeHeap.lists)
      ensures ok ==>
                && node.clusterName.Some? && Extended(Clusters(), Clusters(), i, node.clusterName.value)
                && OthersKept(Clusters(), i, old(nodeHeap.lists), nodeHeap.lists)
                && RingOf(Clusters()[i].item, nodeHeap.lists)
                   == Dropped(RingOf(Clusters()[i].item, old(nodeHeap.lists)), node.digest)
    {
      hide ListHeap.Valid, Agrees, Increasing, HasHash, IndexOfHash, Dropped;
      if RoundStrLen(node.clusterName) <= 0 {
        return false, 0;
      }
      ghost var name := node.clusterName.value;
      var cluster;
      cluster, i := GetClusterByName(node.clusterName.value);
      if cluster == null {
        forall id
          ensures (name, id) !in members
        {
          NotNamed(Clusters(), nodeHeap, nodeHeap.lists, members, name, id);
        }
        return false, 0;
      }
      ClusterRing(i);
      var ring := cluster.item.ring;
      ghost var lists := nodeHeap.lists;
      assert HasHash(ring.Nodes(), node.digest) <==> Listed(members, node.Data());
      nodeHeap.NoDuplicates(ring.orderedList.sortedList);
      HashLeaves(ring.Nodes(), node.digest);
      RingIsSound(Clusters(), nodeHeap, lists, members);
      OtherRingsKept(Clusters(), nodeHeap, lists, i, Dropped(ring.Nodes(), node.digest));
      NothingDropped(ring.Nodes(), node.digest);
      ok := ring.RemoveNode(NodeData(node.addr, node.port, node.digest, node.clusterName));
      members := AfterRemove(members, node.Data());
      RingChanged(Clusters(), nodeHeap, lists, old(members), i, ring.Nodes(), members);
    }

    /** round_cluster_manager_clear: every cluster leaves the list, and its ring with it. */
    method Clear()
      requires Valid()
      modifies this`members, clusterHeap, clusterHeap.nodes
      ensures Valid() && members == {} && Clusters() == [] && clusterHeap.nodes == old(clusterHeap.nodes)
    {
      hide ListHeap.Valid;
      clusterHeap.Clear(header);
      members := {};
    }

    /** One call, with the digest function that all nodes share. */
    method Perform(call: NodeCall, sha: string -> string)
      requires Valid() && (!call.ClearCall? ==> call.node.sha == sha)
      modifies this`members, clusterHeap, clusterHeap.nodes, nodeHeap, nodeHeap.nodes
      ensures Valid() && members == MembersAfter(old(members), [OpOf(call)], sha)
      ensures nodeHeap.nodes >= old(nodeHeap.nodes) && fresh(nodeHeap.nodes - old(nodeHeap.nodes))
      ensures clusterHeap.nodes >= old(clusterHeap.nodes) && fresh(clusterHeap.nodes - old(clusterHeap.nodes))
    {
      hide ListHeap.Valid, Agrees, Accepts, AfterAdd, AfterRemove;
      ghost var none: seq<ClusterOp> := [];
      assert [OpOf(call)][..0] == none && MembersAfter(members, none, sha) == members;
      match call
      case AddCall(node) => var _, _, _ := AddNode(node);
      case RemoveCall(node) => var _, _ := RemoveNode(node);
      case ClearCall => Clear();
    }

    /** Any sequence of calls leaves a sound manager with the members of the abstract run. */
    method Execute(calls: seq<NodeCall>, ghost ops: seq<ClusterOp>, sha: string -> string)
      requires Valid() && |ops| == |calls|
      requires forall i :: 0 <= i < |calls| ==> ops[i] == OpOf(calls[i])
      requires forall i :: 0 <= i < |calls| && !calls[i].ClearCall? ==> calls[i].node.sha == sha
      modifies this`members, clusterHeap, clusterHeap.nodes, nodeHeap, nodeHeap.nodes
      ensures Valid() && members == MembersAfter(old(members), ops, sha)
    {
      hide ListHeap.Valid, Agrees, Accepts, AfterAdd, AfterRemove;
      assert ops[..0] == [];
      for i := 0 to |calls|
        invariant Valid() && members == MembersAfter(old(members), ops[..i], sha)
        invariant nodeHeap.nodes >= old(nodeHeap.nodes) && fresh(nodeHeap.nodes - old(nodeHeap.nodes))
        invariant clusterHeap.nodes >= old(clusterHeap.nodes) && fresh(clusterHeap.nodes - old(clusterHeap.nodes))
        invariant forall j :: 0 <= j < |calls| ==> ops[j] == OpOf(calls[j])
      {
        assert ops[..i + 1][..i] == ops[..i];
        ghost var none: seq<ClusterOp> := [];
        assert [ops[i]][..0] == none && MembersAfter(members, none, sha) == members;
        Perform(calls[i], sha);
      }
      assert ops[..|ops|] == ops;
    }
  }
}
