/** The bucketed hash map of map.c, and the finite map it stands for. */
module HashMap {
  import opened Sequences
  import opened CStrings
  import opened IntrusiveList

  datatype MapObject<V> = MapObject(key: string, obj: V)

  type Bucket<V(0)> = seq<ListNode<MapObject<V>>>

  // ---- The index and the map it refines -------------------------------------

  /** round_map_getkeycode */
  function KeyCode(hash: Option<string> -> nat, key: Option<string>, size: nat): (n: nat)
    requires size > 0
    ensures n < size
  {
    hash(key) % size
  }

  /** Where key k stands in bucket b, -1 if it does not. */
  ghost function Find<V(0)>(b: Bucket<V>, k: string): (i: int)
    ensures -1 <= i < |b|
    ensures i >= 0 ==> b[i].item.key == k
    ensures i < 0 ==> forall j :: 0 <= j < |b| ==> b[j].item.key != k
  {
    if b == [] then -1
    else if b[|b| - 1].item.key == k then |b| - 1
    else Find(b[..|b| - 1], k)
  }

  ghost predicate DistinctKeys<V(0)>(b: Bucket<V>) {
    forall i, j :: 0 <= i < j < |b| ==> b[i].item.key != b[j].item.key
  }

  /** The n-th of `size` buckets holds distinct keys that hash to n, with their values in contents. */
  ghost predicate BucketOk<V(0)>(b: Bucket<V>, n: nat, size: nat, hash: Option<string> -> nat, contents: map<string, V>)
    requires size > 0
  {
    && DistinctKeys(b)
    && forall i :: 0 <= i < |b| ==>
         var o := b[i].item;
         KeyCode(hash, Some(o.key), size) == n && o.key in contents && contents[o.key] == o.obj
  }

  /** The buckets hold exactly the entries of contents. */
  ghost predicate Refines<V(0)>(buckets: seq<Bucket<V>>, hash: Option<string> -> nat, contents: map<string, V>) {
    && |buckets| > 0
    && (forall n :: 0 <= n < |buckets| ==> BucketOk(buckets[n], n, |buckets|, hash, contents))
    && (forall k :: k in contents ==> Find(buckets[KeyCode(hash, Some(k), |buckets|)], k) >= 0)
  }

  lemma FindIs<V(0)>(b: Bucket<V>, k: string, i: nat)
    requires DistinctKeys(b) && i < |b| && b[i].item.key == k
    ensures Find(b, k) == i
  {
  }

  lemma RemoveBucketOk<V(0)>(b: Bucket<V>, n: nat, size: nat, hash: Option<string> -> nat, contents: map<string, V>,
                             k: string)
    requires size > 0 && BucketOk(b, n, size, hash, contents)
    requires KeyCode(hash, Some(k), size) == n ==> Find(b, k) >= 0
    ensures KeyCode(hash, Some(k), size) != n ==> BucketOk(b, n, size, hash, contents - {k})
    ensures KeyCode(hash, Some(k), size) == n ==>
              var b' := b[..Find(b, k)] + b[Find(b, k) + 1..];
              BucketOk(b', n, size, hash, contents - {k})
              && forall k' :: k' != k && Find(b, k') >= 0 ==> Find(b', k') >= 0
  {
    if KeyCode(hash, Some(k), size) == n {
      var i := Find(b, k);
      var b' := b[..i] + b[i + 1..];
      forall k' | k' != k && Find(b, k') >= 0
        ensures Find(b', k') >= 0
      {
        var j := Find(b, k');
        assert b'[if j < i then j else j - 1].item.key == k';
      }
    }
  }

  lemma RemoveRefines<V(0)>(buckets: seq<Bucket<V>>, hash: Option<string> -> nat, contents: map<string, V>, k: string)
    requires Refines(buckets, hash, contents) && k in contents
    ensures var n := KeyCode(hash, Some(k), |buckets|);
            var b := buckets[n];
            var i := Find(b, k);
            Refines(buckets[n := b[..i] + b[i + 1..]], hash, contents - {k})
  {
    hide BucketOk, Find, KeyCode;
    var m := KeyCode(hash, Some(k), |buckets|);
    forall n | 0 <= n < |buckets| && n != m
      ensures BucketOk(buckets[n], n, |buckets|, hash, contents - {k})
    {
      RemoveBucketOk(buckets[n], n, |buckets|, hash, contents, k);
    }
    RemoveBucketOk(buckets[m], m, |buckets|, hash, contents, k);
  }

  lemma AppendRefines<V(0)>(buckets: seq<Bucket<V>>, hash: Option<string> -> nat, contents: map<string, V>,
                            x: ListNode<MapObject<V>>)
    requires Refines(buckets, hash, contents) && x.item.key !in contents
    ensures var n := KeyCode(hash, Some(x.item.key), |buckets|);
            Refines(buckets[n := buckets[n] + [x]], hash, contents[x.item.key := x.item.obj])
  {
  }

  // ---- Buckets in the heap -----------------------------------------------------

  ghost function BucketAt<V(0)>(h: ListNode?<MapObject<V>>, lists: Lists<MapObject<V>>): Bucket<V> {
    if h != null && h in lists then lists[h] else []
  }

  ghost function BucketsOf<V(0)>(headers: seq<ListNode?<MapObject<V>>>,
                                 lists: Lists<MapObject<V>>): (bs: seq<Bucket<V>>)
    ensures |bs| == |headers|
  {
    seq(|headers|, n requires 0 <= n < |headers| => BucketAt(headers[n], lists))
  }

  /** Every allocated bucket is a list of its own. */
  ghost predicate TableOk<V(0)>(headers: seq<ListNode?<MapObject<V>>>, lists: Lists<MapObject<V>>) {
    && (forall n :: 0 <= n < |headers| && headers[n] != null ==> headers[n] in lists)
    && (forall n, m :: 0 <= n < m < |headers| && headers[n] != null ==> headers[n] != headers[m])
  }

  lemma BucketChanged<V(0)>(headers: seq<ListNode?<MapObject<V>>>, lists: Lists<MapObject<V>>, n: nat, b: Bucket<V>)
    requires TableOk(headers, lists) && n < |headers| && headers[n] != null
    ensures TableOk(headers, lists[headers[n] := b])
    ensures BucketsOf(headers, lists[headers[n] := b]) == BucketsOf(headers, lists)[n := b]
  {
  }

  lemma BucketCreated<V(0)>(headers: seq<ListNode?<MapObject<V>>>, lists: Lists<MapObject<V>>, n: nat,
                            h: ListNode<MapObject<V>>)
    requires TableOk(headers, lists) && n < |headers| && headers[n] == null && h !in lists
    ensures TableOk(headers[n := h], lists[h := []])
    ensures BucketsOf(headers[n := h], lists[h := []]) == BucketsOf(headers, lists)
  {
  }

  ghost function Keys<V(0)>(b: Bucket<V>): set<string> {
    set i | 0 <= i < |b| :: b[i].item.key
  }

  lemma {:induction false} KeysCounted<V(0)>(b: Bucket<V>)
    requires DistinctKeys(b)
    ensures |Keys(b)| == |b|
  {
    if b != [] {
      var init := b[..|b| - 1];
      KeysCounted(init);
      assert Keys(b) == Keys(init) + {b[|b| - 1].item.key};
    } else {
      assert Keys(b) == {};
    }
  }

  /** The mapped keys that belong into the first n buckets. */
  ghost function KeysBelow<V>(contents: map<string, V>, hash: Option<string> -> nat, size: nat, n: nat): set<string>
    requires size > 0
  {
    set k | k in contents && KeyCode(hash, Some(k), size) < n
  }

  lemma NoKeysBelowZero<V>(contents: map<string, V>, hash: Option<string> -> nat, size: nat)
    requires size > 0
    ensures |KeysBelow(contents, hash, size, 0)| == 0
  {
  }

  lemma AllKeysBelowSize<V>(contents: map<string, V>, hash: Option<string> -> nat, size: nat)
    requires size > 0
    ensures |KeysBelow(contents, hash, size, size)| == |contents|
  {
    assert KeysBelow(contents, hash, size, size) == contents.Keys;
  }

  lemma KeyInBucket<V(0)>(buckets: seq<Bucket<V>>, hash: Option<string> -> nat, contents: map<string, V>, n: nat,
                          k: string)
    requires Refines(buckets, hash, contents) && n < |buckets|
    ensures k in Keys(buckets[n]) <==> k in contents && KeyCode(hash, Some(k), |buckets|) == n
    ensures DistinctKeys(buckets[n])
  {
    hide KeyCode, DistinctKeys;
    var b := buckets[n];
    assert BucketOk(b, n, |buckets|, hash, contents);
    if k in contents && KeyCode(hash, Some(k), |buckets|) == n {
      assert b[Find(b, k)].item.key == k;
    }
  }

  /** The keys that belong into the n-th bucket are as many as its nodes. */
  lemma BucketKeys<V(0)>(buckets: seq<Bucket<V>>, hash: Option<string> -> nat, contents: map<string, V>, n: nat)
    requires Refines(buckets, hash, contents) && n < |buckets|
    ensures |KeysBelow(contents, hash, |buckets|, n + 1)| == |KeysBelow(contents, hash, |buckets|, n)| + |buckets[n]|
  {
    hide KeyCode, DistinctKeys, Refines, Keys;
    forall k
      ensures k in Keys(buckets[n]) <==> k in contents && KeyCode(hash, Some(k), |buckets|) == n
    {
      KeyInBucket(buckets, hash, contents, n, k);
    }
    KeyInBucket(buckets, hash, contents, n, "");
    KeysCounted(buckets[n]);
    var below, upTo := KeysBelow(contents, hash, |buckets|, n), KeysBelow(contents, hash, |buckets|, n + 1);
    assert upTo == below + Keys(buckets[n]);
  }

  // ---- Calls and answers -----------------------------------------------------------

  datatype MapOp<V> = Set(key: Option<string>, obj: Option<V>) | Remove(key: Option<string>)
                    | Get(key: Option<string>) | Has(key: Option<string>) | SizeOf

  datatype Answer<V> = Flag(b: bool) | Value(obj: Option<V>) | Count(n: nat)

  /** What a finite map does and answers on one call. */
  ghost function Perform<V>(m: map<string, V>, op: MapOp<V>): (map<string, V>, Answer<V>) {
    match op
    case Set(key, obj) => if key.Some? && obj.Some? then (m[key.value := obj.value], Flag(true)) else (m, Flag(false))
    case Remove(key) => if key.Some? then (m - {key.value}, Flag(key.value in m)) else (m, Flag(false))
    case Get(key) => (m, Value(if key.Some? && key.value in m then Some(m[key.value]) else None))
    case Has(key) => (m, Flag(key.Some? && key.value in m))
    case SizeOf => (m, Count(|m|))
  }

  ghost function Answers<V>(m: map<string, V>, ops: seq<MapOp<V>>): (map<string, V>, seq<Answer<V>>) {
    if ops == [] then (m, [])
    else
      var (m', answers) := Answers(m, ops[..|ops| - 1]);
      var (m'', answer) := Perform(m', ops[|ops| - 1]);
      (m'', answers + [answer])
  }

  lemma {:induction false} AnswersLength<V>(m: map<string, V>, ops: seq<MapOp<V>>)
    ensures |Answers(m, ops).1| == |ops|
  {
    if ops != [] {
      AnswersLength(m, ops[..|ops| - 1]);
    }
  }

  class Map<V(0)> {
    const heap: ListHeap<MapObject<V>>
    const mapHashFunc: Option<string> -> nat
    var table: array<ListNode?<MapObject<V>>>
    ghost var contents: map<string, V>

    /** The index agrees with the map `contents`. */
    ghost predicate Valid()
      reads this, table, heap, heap.nodes
    {
      && heap.Valid()
      && TableOk(table[..], heap.lists)
      && Refines(BucketsOf(table[..], heap.lists), mapHashFunc, contents)
    }

    /** round_map_new, with its table size and hash function */
    constructor (heap: ListHeap<MapObject<V>>, tableSize: nat, mapHashFunc: Option<string> -> nat)
      requires heap.Valid() && tableSize > 0
      ensures this.heap == heap && this.mapHashFunc == mapHashFunc && fresh(table)
      ensures Valid() && contents == map[]
    {
      hide Layout, Linked;
      this.heap, this.mapHashFunc := heap, mapHashFunc;
      table := new ListNode?<MapObject<V>>[tableSize](_ => null);
      contents := map[];
    }

    /** The bucket of key k decides whether k is mapped, and to what. */
    lemma BucketDecides(k: string)
      requires Valid()
      ensures var n := KeyCode(mapHashFunc, Some(k), table.Length);
              var b := BucketAt(table[n], heap.lists);
              && b == BucketsOf(table[..], heap.lists)[n]
              && DistinctKeys(b) && (k in contents <==> Find(b, k) >= 0)
              && (Find(b, k) >= 0 ==> contents[k] == b[Find(b, k)].item.obj)
              && (table[n] != null ==> table[n] in heap.lists)
    {
    }

    lemma BucketsListed()
      requires Valid()
      ensures table.Length > 0
      ensures heap.Valid() && Refines(BucketsOf(table[..], heap.lists), mapHashFunc, contents)
      ensures forall n :: 0 <= n < table.Length && table[n] != null ==> table[n] in heap.lists
      ensures forall n :: 0 <= n < table.Length ==>
                BucketsOf(table[..], heap.lists)[n] == if table[n] == null then [] else heap.lists[table[n]]
    {
    }

    /** round_map_getmapobjectbykey */
    method GetMapObjectByKey(key: Option<string>) returns (mapObj: ListNode?<MapObject<V>>)
      requires Valid()
      ensures mapObj == null <==> key.None? || key.value !in contents
      ensures mapObj != null ==>
                var n := KeyCode(mapHashFunc, key, table.Length);
                var b := BucketAt(table[n], heap.lists);
                table[n] != null && Find(b, key.value) >= 0 && mapObj == b[Find(b, key.value)]
    {
      hide Layout, Linked, KeyCode, Find, DistinctKeys, Refines, TableOk, StrCmp, LexLess, BucketsOf;
      BucketsListed();
      var keyCode := KeyCode(mapHashFunc, key, table.Length);
      if key.Some? {
        BucketDecides(key.value);
      }
      ghost var b, i := BucketAt(table[keyCode], heap.lists), 0;
      if table[keyCode] == null {
        return null;
      }
      heap.HeaderLinks(table[keyCode]);
      mapObj := table[keyCode].Next();
      while mapObj != null
        invariant 0 <= i <= |b| && mapObj == if i < |b| then b[i] else null
        invariant forall j :: 0 <= j < i ==> Some(b[j].item.key) != key
        decreases |b| - i
      {
        heap.ListLinks(table[keyCode], i);
        if key.Some? {
          StrCmpIsLexOrder(mapObj.item.key, key.value);
        }
        if RoundStrEq(Some(mapObj.item.key), key) {
          FindIs(b, key.value, i);
          return;
        }
        i := i + 1;
        mapObj := mapObj.Next();
      }
    }

    /** round_map_haskey */
    method HasKey(key: Option<string>) returns (b: bool)
      requires Valid()
      ensures b <==> key.Some? && key.value in contents
    {
      var mapObj := GetMapObjectByKey(key);
      b := mapObj != null;
    }

    /** round_map_getobjectbykey */
    method GetObjectByKey(key: Option<string>) returns (obj: Option<V>)
      requires Valid()
      ensures obj == if key.Some? && key.value in contents then Some(contents[key.value]) else None
    {
      hide Layout, Linked, KeyCode, Find, Refines, TableOk;
      var mapObj := GetMapObjectByKey(key);
      if mapObj == null {
        return None;
      }
      BucketDecides(key.value);
      return Some(mapObj.item.obj);
    }

    /** round_map_removeobjectbykey */
    method RemoveObjectByKey(key: Option<string>) returns (removed: bool)
      requires Valid()
      modifies this`contents, heap, heap.nodes
      ensures Valid() && heap.nodes == old(heap.nodes)
      ensures heap.owner.Keys <= old(heap.owner.Keys)
      ensures removed == (key.Some? && key.value in old(contents))
      ensures contents == if key.Some? then old(contents) - {key.value} else old(contents)
    {
      hide Layout, Linked, KeyCode, Removed, Find, Refines, TableOk, BucketsOf;
      if key.None? {
        return false;
      }
      var obj := GetMapObjectByKey(key);
      if obj == null {
        return false;
      }
      ghost var n := KeyCode(mapHashFunc, key, table.Length);
      ghost var b := BucketAt(table[n], heap.lists);
      ghost var i := Find(b, key.value);
      BucketDecides(key.value);
      RemoveRefines(BucketsOf(table[..], heap.lists), mapHashFunc, contents, key.value);
      BucketChanged(table[..], heap.lists, n, b[..i] + b[i + 1..]);
      RemovedFrom(heap.nodes, heap.lists, heap.owner, table[n], i);
      heap.Listed(table[n], i);
      heap.Remove(obj);
      contents := contents - {key.value};
      return true;
    }

    /** The bucket of key k has a list. */
    ghost predicate HasBucket(k: string)
      reads this, table
    {
      table.Length > 0 && table[KeyCode(mapHashFunc, Some(k), table.Length)] != null
    }

    /** round_map_objectlist_new, on the first use of a bucket */
    method AllocateBucket(k: string)
      requires Valid()
      modifies table, heap
      ensures Valid() && fresh(heap.nodes - old(heap.nodes)) && old(heap.nodes) <= heap.nodes
      ensures heap.owner == old(heap.owner) && HasBucket(k)
    {
      BucketsListed();
      hide Layout, Linked, KeyCode, Refines, TableOk, BucketsOf;
      var keyCode := KeyCode(mapHashFunc, Some(k), table.Length);
      if table[keyCode] == null {
        ghost var headers := table[..];
        var objs := heap.NewHeader();
        BucketCreated(headers, old(heap.lists), keyCode, objs);
        table[keyCode] := objs;
        assert table[..] == headers[keyCode := objs];
      }
    }

    /** round_map_objectlist_add, on the bucket of an absent key */
    method AppendToBucket(obj: ListNode<MapObject<V>>)
      requires Valid() && obj in heap.nodes && !obj.headFlag && obj !in heap.owner && obj.item.key !in contents
      requires HasBucket(obj.item.key)
      modifies this`contents, heap, heap.nodes
      ensures Valid() && heap.nodes == old(heap.nodes)
      ensures contents == old(contents)[obj.item.key := obj.item.obj]
    {
      hide Layout, Linked, KeyCode, Removed, Find, Refines, TableOk, BucketsOf, Without;
      var keyCode := KeyCode(mapHashFunc, Some(obj.item.key), table.Length);
      ghost var b := BucketAt(table[keyCode], heap.lists);
      BucketDecides(obj.item.key);
      AppendRefines(BucketsOf(table[..], heap.lists), mapHashFunc, contents, obj);
      BucketChanged(table[..], heap.lists, keyCode, b + [obj]);
      heap.AddLast(table[keyCode], obj);
      contents := contents[obj.item.key := obj.item.obj];
    }

    /** round_map_addmapobject, for a map object that is in no list yet */
    method AddMapObject(obj: ListNode<MapObject<V>>)
      requires Valid() && obj in heap.nodes && !obj.headFlag && obj !in heap.owner
      modifies this`contents, table, heap, heap.nodes
      ensures Valid() && fresh(heap.nodes - old(heap.nodes)) && old(heap.nodes) <= heap.nodes
      ensures contents == old(contents)[obj.item.key := obj.item.obj]
    {
      hide *;
      var key := obj.item.key;
      var _ := RemoveObjectByKey(Some(key));
      AllocateBucket(key);
      AppendToBucket(obj);
    }

    /** round_map_setobject */
    method SetObject(key: Option<string>, obj: Option<V>) returns (isSet: bool)
      requires Valid()
      modifies this`contents, table, heap, heap.nodes
      ensures Valid() && fresh(heap.nodes - old(heap.nodes)) && old(heap.nodes) <= heap.nodes
      ensures isSet == (key.Some? && obj.Some?)
      ensures contents == if isSet then old(contents)[key.value := obj.value] else old(contents)
    {
      hide Layout, Linked, Refines, TableOk;
      if key.None? {
        return false;
      }
      if obj.None? {
        return false;
      }
      var mapObj := heap.NewNode(MapObject(key.value, obj.value));
      AddMapObject(mapObj);
      return true;
    }

    /** round_map_size */
    method Size() returns (mapSize: nat)
      requires Valid()
      ensures mapSize == |contents|
    {
      hide *;
      BucketsListed();
      ghost var buckets := BucketsOf(table[..], heap.lists);
      mapSize := 0;
      NoKeysBelowZero(contents, mapHashFunc, table.Length);
      for n := 0 to table.Length
        invariant mapSize == |KeysBelow(contents, mapHashFunc, table.Length, n)|
      {
        BucketKeys(buckets, mapHashFunc, contents, n);
        if table[n] != null {
          var bucketSize := heap.Size(table[n]);
          mapSize := mapSize + bucketSize;
        }
      }
      AllKeysBelowSize(contents, mapHashFunc, table.Length);
    }

    /** A sequence of calls answers as the finite map does. */
    method Execute(ops: seq<MapOp<V>>) returns (answers: seq<Answer<V>>)
      requires Valid()
      modifies this`contents, table, heap, heap.nodes
      ensures Valid() && fresh(heap.nodes - old(heap.nodes)) && old(heap.nodes) <= heap.nodes
      ensures (contents, answers) == Answers(old(contents), ops)
    {
      hide Layout, Linked, Refines, TableOk;
      answers := [];
      for n := 0 to |ops|
        invariant Valid() && fresh(heap.nodes - old(heap.nodes)) && old(heap.nodes) <= heap.nodes
        invariant (contents, answers) == Answers(old(contents), ops[..n])
      {
        var answer;
        match ops[n] {
          case Set(key, obj) =>
            var isSet := SetObject(key, obj);
            answer := Flag(isSet);
          case Remove(key) =>
            var removed := RemoveObjectByKey(key);
            answer := Flag(removed);
          case Get(key) =>
            var obj := GetObjectByKey(key);
            answer := Value(obj);
          case Has(key) =>
            var b := HasKey(key);
            answer := Flag(b);
          case SizeOf =>
            var size := Size();
            answer := Count(size);
        }
        answers := answers + [answer];
        assert ops[..n + 1][..n] == ops[..n];
      }
      assert ops[..|ops|] == ops;
    }
  }

  /** Neither the hash function nor the table size shows: two maps with the same entries
      answer any sequence of calls alike. */
  method ExecuteBoth<V(0)>(m1: Map<V>, m2: Map<V>, ops: seq<MapOp<V>>)
    returns (answers1: seq<Answer<V>>, answers2: seq<Answer<V>>)
    requires m1.Valid() && m2.Valid() && m1.contents == m2.contents
    requires m1 != m2 && m1.table != m2.table && m1.heap != m2.heap && m1.heap.nodes !! m2.heap.nodes
    modifies m1`contents, m1.table, m1.heap, m1.heap.nodes, m2`contents, m2.table, m2.heap, m2.heap.nodes
    ensures answers1 == answers2 && m1.contents == m2.contents
    ensures |answers1| == |ops|
  {
    hide *;
    answers1 := m1.Execute(ops);
    answers2 := m2.Execute(ops);
    AnswersLength(old(m1.contents), ops);
  }
}
