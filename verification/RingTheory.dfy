/** Consistent hashing on the sequence of nodes that a ring's list holds. */
module RingTheory {
  import opened Sequences
  import opened CStrings
  import opened IntrusiveList
  import opened Nodes
  import opened Ordered

  /** round_consistenthashing_node_compfunc: a node without hash compares as the same as any node. */
  function CompFunc(thisNode: NodeData, otherNode: NodeData): int {
    if thisNode.digest.None? || otherNode.digest.None? then COMPARE_SAME
    else
      var strCmp := RoundStrCmp(thisNode.digest, otherNode.digest);
      if strCmp == 0 then COMPARE_SAME
      else if 0 < strCmp then COMPARE_LESS
      else COMPARE_GREATER
  }

  // ---- Order ----------------------------------------------------------------

  /** The hashed nodes, wherever they stand, appear in strictly increasing order. */
  ghost predicate Increasing(s: seq<RingNode>) {
    forall i, j :: 0 <= i < j < |s| && Hash(s[i]).Some? && Hash(s[j]).Some? ==>
      StrCmp(Hash(s[i]).value, Hash(s[j]).value) < 0
  }

  ghost predicate AllHashed(s: seq<RingNode>) {
    forall i :: 0 <= i < |s| ==> Hash(s[i]).Some?
  }

  /** Some node of s carries hash d. */
  ghost predicate HasHash(s: seq<RingNode>, d: Option<string>) {
    d.Some? && exists i :: 0 <= i < |s| && Hash(s[i]) == d
  }

  /** How many nodes the backward walk of round_ordered_list_add leaves in front of node n. */
  ghost function OrderedPosition(s: seq<RingNode>, n: RingNode): (k: nat)
    ensures k <= |s|
    ensures k > 0 ==> CompFunc(s[k - 1].item, n.item) == COMPARE_GREATER
    ensures forall j :: k <= j < |s| ==> CompFunc(s[j].item, n.item) != COMPARE_GREATER
  {
    WalkPosition(s, CompFunc, n)
  }

  /** The ring after adding node n: refused when its hash is present; a node without hash goes first. */
  ghost function Added(s: seq<RingNode>, n: RingNode): seq<RingNode> {
    if HasHash(s, Hash(n)) then s
    else if Hash(n).None? then [n] + Without(s, n)
    else s[..OrderedPosition(s, n)] + [n] + s[OrderedPosition(s, n)..]
  }

  /** Where hash d first stands, -1 if it does not. */
  ghost function IndexOfHash(s: seq<RingNode>, d: Option<string>): (k: int)
    ensures -1 <= k < |s|
    ensures k >= 0 <==> HasHash(s, d)
    ensures k >= 0 ==> Hash(s[k]) == d && forall j :: 0 <= j < k ==> Hash(s[j]) != d
  {
    if s == [] || d.None? then -1
    else if Hash(s[0]) == d then 0
    else
      var k := IndexOfHash(s[1..], d);
      if k >= 0 then k + 1 else -1
  }

  /** The ring after removing the node whose hash is d, if there is one. */
  ghost function Dropped(s: seq<RingNode>, d: Option<string>): seq<RingNode> {
    if HasHash(s, d) then s[..IndexOfHash(s, d)] + s[IndexOfHash(s, d) + 1..] else s
  }

  /** The walk stops exactly between the smaller and the greater hashes. */
  lemma OrderedPositionSplits(s: seq<RingNode>, n: RingNode)
    requires Increasing(s) && Hash(n).Some? && !HasHash(s, Hash(n))
    ensures forall i :: 0 <= i < OrderedPosition(s, n) && Hash(s[i]).Some? ==>
              StrCmp(Hash(s[i]).value, Hash(n).value) < 0
    ensures forall j :: OrderedPosition(s, n) <= j < |s| && Hash(s[j]).Some? ==>
              StrCmp(Hash(n).value, Hash(s[j]).value) < 0
  {
    hide StrCmp, LexLess, OrderedPosition;
    var d, k := Hash(n).value, OrderedPosition(s, n);
    forall i | 0 <= i < k && Hash(s[i]).Some?
      ensures StrCmp(Hash(s[i]).value, d) < 0
    {
      if i < k - 1 {
        StrCmpTransitive(Hash(s[i]).value, Hash(s[k - 1]).value, d);
      }
    }
    forall j | k <= j < |s| && Hash(s[j]).Some?
      ensures StrCmp(d, Hash(s[j]).value) < 0
    {
      assert CompFunc(s[j].item, n.item) != COMPARE_GREATER;
      StrCmpIsLexOrder(Hash(s[j]).value, d);
      StrCmpAntisymmetric(Hash(s[j]).value, d);
    }
  }

  /** A node that fits between two halves of an ordered ring leaves it ordered. */
  lemma PutIncreasing(s: seq<RingNode>, k: nat, n: RingNode)
    requires Increasing(s) && k <= |s|
    requires Hash(n).Some? ==> forall i :: 0 <= i < k && Hash(s[i]).Some? ==>
               StrCmp(Hash(s[i]).value, Hash(n).value) < 0
    requires Hash(n).Some? ==> forall j :: k <= j < |s| && Hash(s[j]).Some? ==>
               StrCmp(Hash(n).value, Hash(s[j]).value) < 0
    ensures Increasing(s[..k] + [n] + s[k..])
  {
  }

  /** Inserting by the backward walk keeps the hashed nodes in order, whatever
      nodes without hash stand between them. */
  lemma AddedIncreasing(s: seq<RingNode>, n: RingNode)
    requires Increasing(s) && NoDup(s)
    ensures Increasing(Added(s, n)) && NoDup(Added(s, n))
  {
    hide StrCmp, OrderedPosition, IndexOfHash, Increasing;
    if Hash(n).None? {
      var rest := Without(s, n);
      WithoutNoDup(s, n);
      WithoutMember(s, n, n);
      assert Increasing(rest) by {
        WithoutIncreasing(s, n);
      }
      assert rest[..0] + [n] + rest[0..] == [n] + rest;
      PutIncreasing(rest, 0, n);
    } else if !HasHash(s, Hash(n)) {
      OrderedPositionSplits(s, n);
      PutIncreasing(s, OrderedPosition(s, n), n);
      assert n !in s;
    }
  }

  lemma WithoutIncreasing(s: seq<RingNode>, n: RingNode)
    requires Increasing(s)
    ensures Increasing(Without(s, n))
  {
  }

  /** Adding a node adds its hash to the hashes present, and no other. */
  lemma AddedHashes(s: seq<RingNode>, n: RingNode, d: Option<string>)
    requires NoDup(s)
    ensures HasHash(Added(s, n), d) <==> HasHash(s, d) || (d == Hash(n) && d.Some?)
  {
    hide StrCmp, OrderedPosition;
    if Hash(n).None? {
      var t := Without(s, n);
      if HasHash(s, d) {
        var i :| 0 <= i < |s| && Hash(s[i]) == d;
        WithoutMember(s, n, s[i]);
        assert ([n] + t)[IndexOf(t, s[i]) + 1] == s[i];
      }
    } else if !HasHash(s, Hash(n)) {
      PutHashes(s, OrderedPosition(s, n), n, d);
    }
  }

  lemma PutHashes(s: seq<RingNode>, k: nat, n: RingNode, d: Option<string>)
    requires k <= |s|
    ensures HasHash(s[..k] + [n] + s[k..], d) <==> HasHash(s, d) || (d == Hash(n) && d.Some?)
  {
    hide StrCmp;
    var t := s[..k] + [n] + s[k..];
    assert t[k] == n;
    if HasHash(s, d) {
      var i :| 0 <= i < |s| && Hash(s[i]) == d;
      assert t[if i < k then i else i + 1] == s[i];
    }
  }

  lemma DroppedIncreasing(s: seq<RingNode>, d: Option<string>)
    requires Increasing(s) && NoDup(s)
    ensures Increasing(Dropped(s, d)) && NoDup(Dropped(s, d))
  {
    hide StrCmp, IndexOfHash, HasHash;
    if HasHash(s, d) {
      var k, t := IndexOfHash(s, d), Dropped(s, d);
      forall i, j | 0 <= i < j < |t|
        ensures t[i] != t[j]
        ensures Hash(t[i]).Some? && Hash(t[j]).Some? ==> StrCmp(Hash(t[i]).value, Hash(t[j]).value) < 0
      {
        assert t[i] == s[if i < k then i else i + 1] && t[j] == s[if j < k then j else j + 1];
      }
    }
  }

  /** Removing a hash takes that one away, and no other. */
  lemma DroppedHashes(s: seq<RingNode>, d: Option<string>, e: Option<string>)
    requires Increasing(s)
    ensures HasHash(Dropped(s, d), e) <==> HasHash(s, e) && e != d
  {
    if HasHash(s, d) {
      StrCmpIsLexOrder(d.value, d.value);
      hide StrCmp, LexLess, IndexOfHash;
      var k := IndexOfHash(s, d);
      if HasHash(s, e) && e != d {
        var i :| 0 <= i < |s| && Hash(s[i]) == e;
        assert Dropped(s, d)[if i < k then i else i - 1] == s[i];
      }
    }
  }

  // ---- Histories ------------------------------------------------------------

  datatype RingOp = AddOp(n: RingNode) | RemoveOp(d: Option<string>)

  ghost function Apply(s: seq<RingNode>, op: RingOp): seq<RingNode> {
    match op
    case AddOp(n) => Added(s, n)
    case RemoveOp(d) => Dropped(s, d)
  }

  /** The ring after the operations ops, in order, on an empty ring. */
  ghost function Run(ops: seq<RingOp>): seq<RingNode> {
    if ops == [] then [] else Apply(Run(ops[..|ops| - 1]), ops[|ops| - 1])
  }

  lemma {:induction false} RunIncreasing(ops: seq<RingOp>)
    ensures Increasing(Run(ops)) && NoDup(Run(ops))
  {
    if ops != [] {
      RunIncreasing(ops[..|ops| - 1]);
      match ops[|ops| - 1]
      case AddOp(n) => AddedIncreasing(Run(ops[..|ops| - 1]), n);
      case RemoveOp(d) => DroppedIncreasing(Run(ops[..|ops| - 1]), d);
    }
  }

  /** An ordered, fully hashed ring is determined by its set of hashes. */
  lemma {:induction false} SameHashesSameOrder(s: seq<RingNode>, t: seq<RingNode>)
    requires Increasing(s) && AllHashed(s) && Increasing(t) && AllHashed(t)
    requires forall d :: HasHash(s, d) <==> HasHash(t, d)
    ensures |s| == |t| && forall i :: 0 <= i < |s| ==> Hash(s[i]) == Hash(t[i])
  {
    if s == [] {
      if t != [] {
        assert HasHash(t, Hash(t[0]));
      }
    } else {
      assert HasHash(s, Hash(s[0]));
      assert t != [];
      assert HasHash(t, Hash(t[0]));
      HeadIsLeast(s, Hash(t[0]));
      HeadIsLeast(t, Hash(s[0]));
      StrCmpAntisymmetric(Hash(s[0]).value, Hash(t[0]).value);
      StrCmpIsLexOrder(Hash(s[0]).value, Hash(t[0]).value);
      forall d
        ensures HasHash(s[1..], d) <==> HasHash(t[1..], d)
      {
        TailHashes(s, d);
        TailHashes(t, d);
      }
      SameHashesSameOrder(s[1..], t[1..]);
      assert forall i :: 0 < i < |s| ==> s[i] == s[1..][i - 1] && t[i] == t[1..][i - 1];
    }
  }

  lemma HeadIsLeast(s: seq<RingNode>, d: Option<string>)
    requires Increasing(s) && s != [] && Hash(s[0]).Some? && HasHash(s, d)
    ensures d == Hash(s[0]) || StrCmp(Hash(s[0]).value, d.value) < 0
  {
  }

  lemma TailHashes(s: seq<RingNode>, d: Option<string>)
    requires Increasing(s) && AllHashed(s) && s != []
    ensures HasHash(s[1..], d) <==> HasHash(s, d) && d != Hash(s[0])
  {
    StrCmpIsLexOrder(Hash(s[0]).value, Hash(s[0]).value);
    if HasHash(s, d) && d != Hash(s[0]) {
      var i :| 0 <= i < |s| && Hash(s[i]) == d;
      assert s[1..][i - 1] == s[i];
    }
  }

  /** The order of a fully hashed ring depends on its set of hashes, not on its history. */
  lemma OrderIgnoresHistory(ops: seq<RingOp>, ops': seq<RingOp>)
    requires AllHashed(Run(ops)) && AllHashed(Run(ops'))
    requires forall d :: HasHash(Run(ops), d) <==> HasHash(Run(ops'), d)
    ensures |Run(ops)| == |Run(ops')|
    ensures forall i :: 0 <= i < |Run(ops)| ==> Hash(Run(ops)[i]) == Hash(Run(ops')[i])
  {
    RunIncreasing(ops);
    RunIncreasing(ops');
    SameHashesSameOrder(Run(ops), Run(ops'));
  }

  // ---- Key assignment ---------------------------------------------------------

  /** The forward walk of gethandlenode from the i-th node on. */
  ghost function HandleFrom(s: seq<RingNode>, key: Option<string>, i: nat): (r: nat)
    requires i < |s|
    ensures i <= r < |s|
    decreases |s| - i
  {
    if i == |s| - 1 then i
    else if RoundStrCmp(key, Hash(s[i])) < 0 || RoundStrCmp(key, Hash(s[i + 1])) >= 0 then HandleFrom(s, key, i + 1)
    else i
  }

  /** The node that handles a key. */
  ghost function HandleNode(s: seq<RingNode>, key: Option<string>): RingNode
    requires s != []
  {
    s[HandleFrom(s, key, 0)]
  }

  ghost predicate NotAbove(n: RingNode, key: string) {
    Hash(n).Some? && StrCmp(key, Hash(n).value) >= 0
  }

  /** c nodes of s have a hash that is not above the key, and they come first. */
  ghost predicate Rank(s: seq<RingNode>, key: string, c: nat) {
    c <= |s| && forall i :: 0 <= i < |s| ==> (NotAbove(s[i], key) <==> i < c)
  }

  lemma NotAboveDownward(s: seq<RingNode>, key: string, i: nat, j: nat)
    requires Increasing(s) && AllHashed(s) && i <= j < |s| && NotAbove(s[j], key)
    ensures NotAbove(s[i], key)
  {
    if i < j {
      var a, b := Hash(s[i]).value, Hash(s[j]).value;
      StrCmpAntisymmetric(key, b);
      StrCmpTransitive(a, b, key);
      StrCmpAntisymmetric(a, key);
    }
  }

  lemma {:induction false} RankExists(s: seq<RingNode>, key: string) returns (c: nat)
    requires Increasing(s) && AllHashed(s)
    ensures Rank(s, key, c)
  {
    hide StrCmp;
    c := |s|;
    while c > 0 && !NotAbove(s[c - 1], key)
      invariant c <= |s| && forall i :: c <= i < |s| ==> !NotAbove(s[i], key)
    {
      c := c - 1;
    }
    forall i | 0 <= i < c
      ensures NotAbove(s[i], key)
    {
      NotAboveDownward(s, key, i, c - 1);
    }
  }

  /** With c nodes not above the key, the walk returns the c-th of them, or the last node when c is 0. */
  lemma {:induction false} HandleFollowsRank(s: seq<RingNode>, key: string, c: nat, i: nat)
    requires AllHashed(s) && Rank(s, key, c) && i < |s|
    requires i < c || c == 0
    ensures HandleFrom(s, Some(key), i) == if c == 0 then |s| - 1 else c - 1
    decreases |s| - i
  {
    hide StrCmp;
    if i < |s| - 1 {
      assert NotAbove(s[i], key) <==> i < c;
      assert NotAbove(s[i + 1], key) <==> i + 1 < c;
      if i + 1 < c || c == 0 {
        HandleFollowsRank(s, key, c, i + 1);
      }
    }
  }

  /** The handler of a key is the node with the greatest hash not above it; when every
      hash is above the key, it is the last node. */
  lemma HandleIsGreatestNotAbove(s: seq<RingNode>, key: string)
    requires s != [] && Increasing(s) && AllHashed(s)
    ensures var n := HandleNode(s, Some(key));
            if exists i :: 0 <= i < |s| && NotAbove(s[i], key)
            then NotAbove(n, key) && forall i :: 0 <= i < |s| && NotAbove(s[i], key) ==>
                   s[i] == n || StrCmp(Hash(s[i]).value, Hash(n).value) < 0
            else n == s[|s| - 1]
  {
    hide StrCmp;
    var c := RankExists(s, key);
    HandleFollowsRank(s, key, c, 0);
  }

  /** An absent key is handled by the last node. */
  lemma {:induction false} NoKeyHandledByLast(s: seq<RingNode>, i: nat)
    requires i < |s|
    ensures HandleFrom(s, None, i) == |s| - 1
    decreases |s| - i
  {
    if i < |s| - 1 {
      NoKeyHandledByLast(s, i + 1);
    }
  }

  /** The keys between the i-th hash and the next one around the ring. */
  ghost predicate Arc(s: seq<RingNode>, i: nat, key: string)
    requires i < |s|
  {
    if i < |s| - 1 then NotAbove(s[i], key) && !NotAbove(s[i + 1], key)
    else NotAbove(s[i], key) || !NotAbove(s[0], key)
  }

  /** Every key has exactly one handler: the node whose arc it lies on. */
  lemma HandlersPartitionKeys(s: seq<RingNode>, key: string, i: nat)
    requires s != [] && Increasing(s) && AllHashed(s) && NoDup(s) && i < |s|
    ensures Arc(s, i, key) <==> s[i] == HandleNode(s, Some(key))
  {
    hide StrCmp;
    var c := RankExists(s, key);
    HandleFollowsRank(s, key, c, 0);
    assert NotAbove(s[0], key) <==> 0 < c;
    assert NotAbove(s[i], key) <==> i < c;
    if i < |s| - 1 {
      assert NotAbove(s[i + 1], key) <==> i + 1 < c;
    }
  }

  lemma RankWithout(s: seq<RingNode>, key: string, c: nat, i: nat)
    requires AllHashed(s) && Rank(s, key, c) && i < |s|
    ensures AllHashed(s[..i] + s[i + 1..])
    ensures Rank(s[..i] + s[i + 1..], key, if i < c then c - 1 else c)
  {
  }

  lemma PredMod(i: nat, n: nat)
    requires i < n
    ensures (i - 1) % n == if i == 0 then n - 1 else i - 1
  {
  }

  lemma HandlerAfterRemoval(s: seq<RingNode>, i: nat, key: Option<string>)
    requires |s| >= 2 && Increasing(s) && AllHashed(s) && i < |s|
    ensures var r := HandleFrom(s, key, 0);
            HandleFrom(s[..i] + s[i + 1..], key, 0)
            == if r == i then (if i == 0 then |s| - 2 else i - 1) else if r < i then r else r - 1
  {
    hide StrCmp, NotAbove, HandleFrom;
    var t := s[..i] + s[i + 1..];
    match key
    case None =>
      NoKeyHandledByLast(s, 0);
      NoKeyHandledByLast(t, 0);
    case Some(k) =>
      var c := RankExists(s, k);
      HandleFollowsRank(s, k, c, 0);
      RankWithout(s, k, c, i);
      HandleFollowsRank(t, k, if i < c then c - 1 else c, 0);
  }

  /** Removing the i-th node moves exactly its keys, and all of them to its circular predecessor. */
  lemma RemovalMovesKeysToPredecessor(s: seq<RingNode>, i: nat, key: Option<string>)
    requires |s| >= 2 && Increasing(s) && AllHashed(s) && NoDup(s) && i < |s|
    ensures HandleNode(s[..i] + s[i + 1..], key)
            == if HandleNode(s, key) == s[i] then s[(i - 1) % |s|] else HandleNode(s, key)
  {
    HandlerAfterRemoval(s, i, key);
    hide StrCmp, Increasing, AllHashed, HandleFrom;
    PredMod(i, |s|);
    var r := HandleFrom(s, key, 0);
    assert s[r] == s[i] <==> r == i;
  }

  lemma AddedAllHashed(s: seq<RingNode>, n: RingNode)
    requires AllHashed(s) && Hash(n).Some?
    ensures AllHashed(Added(s, n))
  {
    hide OrderedPosition, HasHash;
  }

  /** Adding a hashed node takes keys from nobody but its circular predecessor, and gives
      them to nobody but itself; the keys it takes are those on its arc. */
  lemma AdditionMovesKeysToNewNode(s: seq<RingNode>, n: RingNode, key: Option<string>)
    requires s != [] && Increasing(s) && AllHashed(s) && NoDup(s)
    requires Hash(n).Some? && !HasHash(s, Hash(n))
    ensures var t, k := Added(s, n), OrderedPosition(s, n);
            && |t| == |s| + 1 && t[k] == n
            && HandleNode(s, key) == (if HandleNode(t, key) == n then t[(k - 1) % |t|] else HandleNode(t, key))
            && (key.Some? ==> (HandleNode(t, key) == n <==> Arc(t, k, key.value)))
  {
    hide StrCmp, OrderedPosition, HandleFrom, Increasing, HasHash, AllHashed, NoDup, Arc;
    var t, k := Added(s, n), OrderedPosition(s, n);
    AddedIncreasing(s, n);
    AddedAllHashed(s, n);
    assert t[..k] + t[k + 1..] == s;
    RemovalMovesKeysToPredecessor(t, k, key);
    if key.Some? {
      HandlersPartitionKeys(t, key.value, k);
    }
  }

  // ---- Offsets and distances ----------------------------------------------------

  /** The node at a position counted around the ring. */
  ghost function NodeAround(s: seq<RingNode>, x: int): RingNode
    requires s != []
  {
    s[x % |s|]
  }

  /** The node `offset` places after the one with hash d, counted around the ring. */
  ghost function OffsetNode(s: seq<RingNode>, d: Option<string>, offset: int): ListNode?<NodeData> {
    if HasHash(s, d) then NodeAround(s, IndexOfHash(s, d) + offset) else null
  }

  lemma MulAtLeast(d: int, n: int)
    requires d >= 1 && n > 0
    ensures d * n >= n
  {
  }

  lemma MulGrows(q: int, q': int, n: int)
    requires q > q' && n > 0
    ensures q * n >= q' * n + n
  {
    var d := q - q';
    MulAtLeast(d, n);
    assert (q' + d) * n == q' * n + d * n;
  }

  lemma ModUnique(x: int, n: int, q: int, r: int)
    requires n > 0 && x == q * n + r && 0 <= r < n
    ensures x % n == r
  {
    if q > x / n {
      MulGrows(q, x / n, n);
    } else if q < x / n {
      MulGrows(x / n, q, n);
    }
  }

  lemma ModAdd(x: int, y: int, n: int)
    requires n > 0
    ensures (x % n + y) % n == (x + y) % n
  {
    var z := x % n + y;
    assert x + y == (x / n + z / n) * n + z % n;
    ModUnique(x + y, n, x / n + z / n, z % n);
  }

  lemma ModShift(x: int, n: int)
    requires n > 0
    ensures (x + n) % n == x % n
  {
    assert x + n == (x / n + 1) * n + x % n;
    ModUnique(x + n, n, x / n + 1, x % n);
  }

  lemma IndexOfOwnHash(s: seq<RingNode>, k: nat)
    requires Increasing(s) && AllHashed(s) && k < |s|
    ensures HasHash(s, Hash(s[k])) && IndexOfHash(s, Hash(s[k])) == k
  {
    assert HasHash(s, Hash(s[k]));
    StrCmpIsLexOrder(Hash(s[k]).value, Hash(s[k]).value);
  }

  lemma NodeInRange(s: seq<RingNode>, k: nat)
    requires k < |s|
    ensures NodeAround(s, k) == s[k]
  {
    ModUnique(k, |s|, 0, k);
  }

  /** The hash of the node at x stands at a position from which further offsets count like from x. */
  lemma NodeAroundFrom(s: seq<RingNode>, x: int, offset: int)
    requires Increasing(s) && AllHashed(s) && s != []
    ensures var d := Hash(NodeAround(s, x));
            HasHash(s, d) && NodeAround(s, IndexOfHash(s, d) + offset) == NodeAround(s, x + offset)
  {
    hide StrCmp, Increasing, AllHashed, HasHash, IndexOfHash;
    IndexOfOwnHash(s, x % |s|);
    ModAdd(x, offset, |s|);
  }

  /** Offsets act on a fully hashed ring like the integers: offset 0 is the node itself, and
      offset a followed by offset b is offset a + b. */
  lemma OffsetsAdd(s: seq<RingNode>, d: Option<string>, a: int, b: int)
    requires Increasing(s) && AllHashed(s) && HasHash(s, d)
    ensures OffsetNode(s, d, 0) == s[IndexOfHash(s, d)]
    ensures OffsetNode(s, Hash(OffsetNode(s, d, a)), b) == OffsetNode(s, d, a + b)
  {
    hide StrCmp, Increasing, AllHashed, HasHash, IndexOfHash, NodeAround;
    var k := IndexOfHash(s, d);
    NodeInRange(s, k);
    NodeAroundFrom(s, k + a, b);
  }

  /** getforwardnodedistance, on positions */
  ghost function Forward(n: int, i: int, j: int): int {
    if i == j then 0 else if i <= j then j - i else j + n - i
  }

  /** getbackwardnodedistance, on positions */
  ghost function Backward(n: int, i: int, j: int): int {
    if i == j then 0 else if i <= j then j - (i + n) else j - i
  }

  function Abs(x: int): nat {
    if x < 0 then -x else x
  }

  /** getminnodedistance, on positions */
  ghost function Nearest(n: int, i: int, j: int): int {
    if Abs(Forward(n, i, j)) < Abs(Backward(n, i, j)) then Forward(n, i, j) else Backward(n, i, j)
  }

  lemma DistancesReach(n: int, i: int, j: int)
    requires 0 <= i < n && 0 <= j < n
    ensures 0 <= Forward(n, i, j) < n && -n < Backward(n, i, j) <= 0
    ensures i != j ==> Forward(n, i, j) - Backward(n, i, j) == n
    ensures (i + Forward(n, i, j)) % n == j
    ensures (i + Backward(n, i, j)) % n == j
  {
    ModUnique(i + Forward(n, i, j), n, if i <= j then 0 else 1, j);
    ModUnique(i + Backward(n, i, j), n, if i < j then -1 else 0, j);
  }

  /** Offsets that lead from i to j differ from the forward distance by whole turns. */
  lemma WholeTurns(n: int, i: int, j: int, offset: int)
    requires 0 <= i < n && 0 <= j < n && (i + offset) % n == j
    ensures var f := Forward(n, i, j);
            offset == f || offset >= f + n || offset <= f - n
  {
    var t := (i + offset) / n - (if i <= j then 0 else 1);
    assert offset == Forward(n, i, j) + t * n;
    if t >= 1 {
      MulGrows(t, 0, n);
    } else if t <= -1 {
      MulGrows(0, t, n);
    }
  }

  /** No offset that leads from i to j is shorter than the nearest distance. */
  lemma NearestIsShortest(n: int, i: int, j: int, offset: int)
    requires 0 <= i < n && 0 <= j < n
    ensures 2 * Abs(Nearest(n, i, j)) <= n
    ensures (i + offset) % n == j ==> Abs(Nearest(n, i, j)) <= Abs(offset)
  {
    if (i + offset) % n == j {
      WholeTurns(n, i, j, offset);
    }
  }
}
