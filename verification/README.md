# A verified model of Round's in-memory core

Round is a C framework for distributed nodes. This project models the parts of it that decide
where keys live, how messages reach a node, how names are looked up and what a JSON-RPC request
does to a node, and proves what those parts keep and promise.

- **Lists.** `List.dfy` has the intrusive circular list with real `prev`/`next` links on a heap of
  nodes. `ListHeap.Valid` says that every list is one closed circle in both directions, that no node
  is in two lists, and that every other node points at itself. Each operation states the contents of
  every list afterwards. `Ordered.dfy` is the backward-walking ordered insert over it.
- **Consistent hashing.** `RingTheory.dfy` proves the theorems on sequences of nodes (order, history,
  handlers, moved keys, offsets, distances). `Ring.dfy` is the imperative ring over the linked list,
  each method proved against those functions. `RoundNode.dfy` has a node's identifier and its remote
  copy, `ClusterManager.dfy` one ring per cluster name.
- **Messages.** `MessageProtocol.dfy` is an interleaved step system of any number of producers and
  consumers over a mutex, a semaphore and a queue, `MessageClear.dfy` a clear among them.
  `MessageManager.dfy` runs those steps on the linked queue and is proved to take exactly the
  protocol's steps.
- **Maps and strings.** `HashMap.dfy` is the bucketed map, proved to be the finite map it stands for.
  `StrReplace.dfy` and `RoundString.dfy` are the two replace loops with their buffers.
- **Requests.** `Clock.dfy`, `MethodTable.dfy`, `NodeRequests.dfy`, `LocalNode.dfy`,
  `RequestTheory.dfy`, `Responses.dfy` and `PostedJson.dfy` model a local node serving single and
  batch JSON-RPC requests. Each handler of the node object is proved equal to a function of its state, which
  `NodeRequests.dfy` defines; what those functions promise is in the last three files, and
  `LocalNode.Execute` carries the whole-run results back to the object. Version 2.0 of JSON-RPC is the
  request format; section 6 of its specification describes batches.

An absent (NULL) string is `None`. Time, the SHA-256 digest, the JSON parser and printer, Base64, script
engines and the map's hash function are parameters; every theorem holds for all of them. The two theorems
about the identifiers of copies ask only that the digest tells the two seeds at hand apart.

## What the code does that its names do not say

The model follows the code. These facts are proved:

- Inserting a node behind itself takes it out of its list, so adding the node that is already last removes
  it (`ListHeap.Insert`, `ListHeap.AddLast`).
- A copied node keeps its identifier only under a condition on address and port
  (`RoundNode.CopyKeepsId`), and that condition decides whether an added node is found again
  (`ClusterManager.AddedIsListed`); two nodes whose copies differ are in `RoundNode.CopiesWithOtherId`.
- `round_strreplace` goes wrong exactly when a replaced occurrence starts where the previous one ended;
  "aa" with token "a" is such an input (`StrReplace.Replace`, `StrReplace.TouchingExample`).
- Asking for a method that is not final makes a new method final, because switching a flag off toggles it
  (`MethodTable.FlagAfterSet`, `MethodTable.NativeMethodIsFinal`).
- Replacing a method that is not final by an invalid one loses the old method, and this is the only way a
  failed setmethod changes the table (`MethodTable.FailedSetMethod`, `Responses.EmptyCodeLosesMethod`).
- A request without method name or parameters, and (scripts aside) no other, is answered with the error that is in the error
  object already, in a batch that of an earlier member (`Responses.StaleErrorShows`,
  `Responses.StaleErrorInBatch`).
- Clearing a message manager takes no lock, and what it does to waits is decided when it resets the semaphore.
  Later waits can come back empty-handed exactly when more threads are between semaphore and queue then than
  messages are queued (`MessageClear.ResetSafe`), and messages can stay without a wake-up exactly when it is
  fewer (`MessageClear.ResetWakesAll`, `MessageClear.ResetStrands`). Counted over the clear itself: exactly when
  the reset takes back fewer, or more, wake-ups than messages were discarded (`MessageClear.ClearAmongThreads`).
  Inputs are in `MessageClear.ClearBehindWaiter`, `MessageClear.WaitDuringClear` and
  `MessageClear.PushBeforeReset`.

## Model

| member | source | states |
|---|---|---|
| `IntrusiveList.ListHeap.NewHeader` | src/round/util/list.c:81-93 | a new header is an empty circle; all other lists are as before |
| `IntrusiveList.ListHeap.NewNode` | src/round/util/list.c:99-111 | a new node points at itself and is in no list |
| `IntrusiveList.ListHeap.Insert` | src/round/util/list.c:182-195 | every list in the heap stays a closed circle; the node leaves the list that held it and stands right behind the given one; behind itself, it ends up in no list |
| `IntrusiveList.InsertKeepsOrder` | src/round/util/list.c:182-195 | an insertion keeps the relative order of all other nodes in every list and makes the given node the predecessor |
| `IntrusiveList.ListHeap.AddFirst` | src/round/util/list.c:201-212 | the node is first in the list and in no other list; the rest is unchanged |
| `IntrusiveList.ListHeap.AddLast` | src/round/util/list.c:218-229 | the node is last, unless it was last already: then it is taken out |
| `IntrusiveList.ListHeap.Remove` | src/round/util/list.c:235-248 | exactly this node leaves its list, whose circle closes around the gap, and it points at itself |
| `IntrusiveList.RemovedLinked` | src/round/util/list.c:235-248 | relinking the two neighbours restores every circle and leaves every unlisted node alone |
| `IntrusiveList.PlacedLinked` | src/round/util/list.c:182-195 | linking a lone node in behind another keeps every circle closed in both directions |
| `IntrusiveList.ListHeap.Size` | src/round/util/list.c:117-130 | the walk ends and counts the nodes of the list |
| `IntrusiveList.ListHeap.Get` | src/round/util/list.c:160-176 | the walk ends at the index-th node, or nothing past the end |
| `IntrusiveList.ListHeap.Clear` | src/round/util/list.c:326-347 | the list becomes empty and no other list changes |
| `IntrusiveList.ListHeap.CircularLinks` | src/round/util/list.c:254-302 | a circular step forward or backward is a step modulo the list size, past the header |
| `IntrusiveList.ListHeap.ListLinks` | src/round/util/list.c:272-320 | plain steps visit the list in order and stop at its ends |
| `CStrings.StrCmpIsLexOrder` | src/round/util/string_func.c:94-101 | the comparison is negative, zero or positive as the strings stand in lexicographic order, are equal, or the other way round |
| `CStrings.StrCmpTransitive` | src/round/util/string_func.c:94-101 | the string order is transitive |
| `CStrings.AbsentStrings` | src/round/util/string_func.c:94-101 | an absent first string is smaller than any, even another absent one; two strings are equal if and only if both are there with the same characters |
| `Ordered.OrderedList.Add` | src/round/util/list_ordered.c:76-92 | the node goes behind the last node for which the comparison says greater, or first |
| `Ring.InsertedIsAdded` | src/round/util/list_ordered.c:76-92 | the ordered insert on the linked list is the ring's insertion on sequences, and other lists only lose the node |
| `RingTheory.OrderedPositionSplits` | src/round/util/list_ordered.c:76-92 | the backward walk stops exactly between the smaller and the greater hashes, whatever nodes without hash stand among them |
| `RingTheory.AddedIncreasing` | src/round/util/consistent_hashing_ring.c:77-86 | adding any node keeps the hashed nodes strictly increasing |
| `RingTheory.AddedHashes` | src/round/util/consistent_hashing_ring.c:77-86 | adding a node adds its hash to those present and no other |
| `RingTheory.DroppedIncreasing` | src/round/util/consistent_hashing_ring.c:92-102 | removing keeps the hashed nodes strictly increasing |
| `RingTheory.DroppedHashes` | src/round/util/consistent_hashing_ring.c:92-102 | removing takes that one hash away and no other |
| `RingTheory.RunIncreasing` | src/round/util/consistent_hashing_ring.c:77-102 | after any sequence of additions and removals, nodes without hash included, hashed nodes are strictly increasing and none stands twice |
| `RingTheory.SameHashesSameOrder` | src/round/util/consistent_hashing_node.c:65-87 | an ordered ring of hashed nodes is determined by its set of hashes |
| `RingTheory.OrderIgnoresHistory` | src/round/util/consistent_hashing_ring.c:77-102 | two histories that leave the same hashes on a fully hashed ring leave them in the same order |
| `RingTheory.HandleIsGreatestNotAbove` | src/round/util/consistent_hashing_ring.c:197-222 | the handler of a key has the greatest hash not above it, or is the last node when the key is below all |
| `RingTheory.NoKeyHandledByLast` | src/round/util/consistent_hashing_ring.c:197-222 | an absent key is handled by the last node |
| `RingTheory.HandlersPartitionKeys` | src/round/util/consistent_hashing_ring.c:197-231 | a node handles a key if and only if the key lies between its hash and the next one around the ring, so every key has exactly one handler |
| `RingTheory.RemovalMovesKeysToPredecessor` | src/round/util/consistent_hashing_ring.c:92-102 | removing a node moves exactly the keys it handled, all to its circular predecessor, first and last node included |
| `RingTheory.AdditionMovesKeysToNewNode` | src/round/util/consistent_hashing_ring.c:77-86 | adding a node changes a key's handler only to the new node, only away from its circular predecessor, and exactly for the keys on its arc |
| `RingTheory.OffsetsAdd` | src/round/util/consistent_hashing_ring.c:237-279 | offset 0 is the node itself and offset a followed by b is offset a+b, for all integers |
| `RingTheory.DistancesReach` | src/round/util/consistent_hashing_ring.c:285-347 | forward lies in [0,n), backward in (-n,0], they differ by n unless the nodes are equal, and both lead from the first node to the last |
| `RingTheory.NearestIsShortest` | src/round/util/consistent_hashing_ring.c:355-366 | the minimum distance is at most n/2 in size and no offset that reaches the last node is shorter |
| `Ring.ConsistentHashingRing.AddNode` | src/round/util/consistent_hashing_ring.c:77-86 | refused exactly when the hash is present; otherwise the linked list is the ordered insertion and the ring stays ordered |
| `Ring.ConsistentHashingRing.RemoveNode` | src/round/util/consistent_hashing_ring.c:92-102 | takes out the node with the same hash, if there is one, and changes no other list |
| `Ring.ConsistentHashingRing.GetNodeIndex` | src/round/util/consistent_hashing_ring.c:140-158 | the first position of the hash, -1 when it is absent |
| `Ring.ConsistentHashingRing.GetNodeByHashCode` | src/round/util/consistent_hashing_ring.c:108-121 | the node that carries the hash, or none |
| `Ring.ConsistentHashingRing.GetEqualNode` | src/round/util/consistent_hashing_ring.c:127-134 | the node with the same hash, or none; a node without hash equals no node |
| `Ring.ConsistentHashingRing.GetLastNode` | src/round/util/consistent_hashing_ring.c:183-191 | the last node of the list, none when it is empty |
| `Ring.ConsistentHashingRing.Clear` | src/round/util/consistent_hashing_ring.c:61-71 | the ring becomes empty and no other list changes |
| `Ring.ConsistentHashingRing.GetHandleNode` | src/round/util/consistent_hashing_ring.c:197-222 | the walk over the links returns the handler that the theorems are about |
| `Ring.ConsistentHashingRing.IsHandleNode` | src/round/util/consistent_hashing_ring.c:228-231 | true for exactly the handler |
| `Ring.ConsistentHashingRing.GetOffsetNode` | src/round/util/consistent_hashing_ring.c:237-279 | the index loop ends for every integer offset and yields the node that many places around the ring |
| `Ring.ConsistentHashingRing.GetForwardNodeDistance` | src/round/util/consistent_hashing_ring.c:285-310 | an offset in [0,n) that leads to the last node, 0 when a node is missing |
| `Ring.ConsistentHashingRing.GetBackwardNodeDistance` | src/round/util/consistent_hashing_ring.c:319-347 | an offset in (-n,0] that leads to the last node, 0 when a node is missing |
| `Ring.ConsistentHashingRing.GetMinNodeDistance` | src/round/util/consistent_hashing_ring.c:355-366 | an offset that leads to the last node, at most half the ring, and no other such offset is shorter; 0 when a node is missing |
| `Ring.ConsistentHashingRing.NextStepsAreOffsets` | src/round/util/list.c:290-302 | k circular next steps through the links are the offset k |
| `Ring.ConsistentHashingRing.PrevStepsAreOffsets` | src/round/util/list.c:254-266 | k circular previous steps through the links are the offset -k |
| `RoundNode.Copy` | src/round/remote_node.c:38-63 | the copy carries over a non-empty address, a positive port and a non-empty cluster name, and computes its own identifier |
| `RoundNode.CopyKeepsId` | src/round/remote_node.c:38-63 | unless the digests of the two seeds collide, the copy's identifier is the original's if and only if there is none yet, or the address is not empty and the port is not negative or cut off from the seed, or the address is absent and the port positive |
| `RoundNode.CopiesWithOtherId` | src/round/remote_node.c:38-63 | inputs: an empty address with port 80, and the address "a" with port -1, get copies with another identifier |
| `RoundNode.CopyParts` | src/round/remote_node.c:38-63 | a copy has each part that is there in earnest, the cluster "round" otherwise, and the identifier of its own address and port |
| `RoundNode.Node.SetAddress` | src/round/node.c:175-184 | the address is set and the identifier recomputed from address and port; an absent address is refused |
| `RoundNode.Node.SetPort` | src/round/node.c:207-215 | the port is set and the identifier recomputed |
| `RoundNode.Node.SetClusterName` | src/round/node.c:339-345 | the cluster name is set without touching the identifier; an absent name is refused |
| `RoundNode.CopyOfAddressable` | src/round/remote_node.c:38-63 | a copy of a node with address, port and cluster name equals it, for every digest function |
| `RoundNode.Node.UpdateId` | src/round/node.c:303-319 | the identifier becomes the digest of the current address and port; the seed lemmas below say what that distinguishes |
| `RoundNode.DigitsDenote` | src/round/node.c:309 | the decimal text of a number consists of digits and denotes the number |
| `RoundNode.DecimalTells` | src/round/node.c:309 | two ports are printed alike if and only if they are equal, negative ones included |
| `RoundNode.SeedTells` | src/round/node.c:308-309 | seeds that fit the buffer are equal if and only if address text and port are |
| `RoundNode.SeedHidesPort` | src/round/node.c:308-309 | the port does not show in the identifier at all if and only if the address has 30 characters or more |
| `ClusterManager.ClusterManager.GetClusterByName` | src/round/cluster_manager.c:64-77 | the cluster with the name, or none when no cluster has it |
| `ClusterManager.ClusterManager.CreateCluster` | src/round/cluster_manager.c:107-114 | a cluster with an unused name is appended to the list with an empty ring that was no list before; no other list and no member changes |
| `ClusterManager.ClusterManager.AddCopy` | src/round/cluster_manager.c:118-137 | unless the node is listed, a new ring node that carries exactly the copy's data joins the cluster's ring at its place in the order, and every other ring stays; refused when only the copy's identifier is taken; a copy without identifier joins every time |
| `ClusterManager.ClusterManager.AddEntry` | src/round/cluster_internal.h:47 | exactly one new node with the given data joins the ring at its place, unless its hash is taken; every other ring stays |
| `ClusterManager.ClusterManager.FindOrCreate` | src/round/cluster_manager.c:105-115 | the cluster of that name, appended with an empty ring when there was none; every ring stays |
| `ClusterManager.EntryAdded` | src/round/cluster_internal.h:47 | a new entry keeps the manager sound, adds its own (cluster, identifier) pair and no other, and leaves the other rings |
| `ClusterManager.ClusterManager.AddNode` | src/round/cluster_manager.c:96-138 | for every node: names stay distinct and every ring ordered and duplicate-free; the node's cluster, appended when missing, gains exactly a node with the copy's data, every other ring stays, and the members gain exactly the copy's identifier, if it has one, unless the node is listed already |
| `ClusterManager.ClusterManager.RemoveNode` | src/round/cluster_manager.c:144-154 | succeeds exactly for a member; the node with that identifier leaves the ring of its cluster, every other ring stays, and the members lose that pair only |
| `ClusterManager.ClusterManager.HasNode` | src/round/cluster_manager.c:173-180 | agrees with the set of (cluster, identifier) pairs |
| `ClusterManager.ClusterManager.GetNode` | src/round/cluster_manager.c:160-167 | finds a node exactly for a member: one in the ring of the node's cluster with the node's identifier |
| `ClusterManager.SameHashSameNode` | src/round/cluster_manager.c:160-167 | an identifier stands for one node of a ring only, so what is found is what was added |
| `ClusterManager.ClusterManager.Clear` | src/round/cluster_manager.c:50-58 | no cluster and no member is left |
| `ClusterManager.AddedIsListed` | src/round/cluster_manager.c:96-138 | unless the digests of the two seeds collide, an added node is found again if and only if its address and port let the copy keep the identifier |
| `ClusterManager.SecondAdd` | src/round/cluster_manager.c:96-138 | an accepted node is accepted again if and only if it was listed before or its copy keeps the identifier or has none; the second addition never changes the members |
| `ClusterManager.RemoveAfterAdd` | src/round/cluster_manager.c:96-154 | removing a node just added restores the members if and only if its copy keeps the identifier or the addition changed nothing |
| `ClusterManager.MembersAreAddedForGood` | src/round/cluster_manager.c:50-154 | over any run with reachable nodes, a node is a member if and only if it was added and neither removed nor cleared away since |
| `ClusterManager.ClusterManager.Execute` | src/round/cluster_manager.c:50-154 | any sequence of addnode, removenode and clear leaves a sound manager with the members of the abstract run |
| `Queue.Queue.Push` | src/round/util/queue.c:56-61 | the object moves to the end of the queue from whichever list held it; pushed while it is last, it leaves the queue |
| `Queue.Queue.Pop` | src/round/util/queue.c:67-84 | the first object leaves the list and is returned; nothing when the queue is empty |
| `MessageProtocol.StepInvariant` | src/round/message_manager.c:80-114 | every step of every thread keeps: queue length = semaphore + consumers before their pop + producers before their post, mutual exclusion, FIFO order, no empty pop |
| `MessageProtocol.RunInvariant` | src/round/message_manager.c:80-114 | that invariant holds after any interleaving of any number of threads |
| `MessageProtocol.WaitAlwaysDelivers` | src/round/message_manager.c:98-114 | a wait that passed the semaphore always pops the oldest undelivered message |
| `MessageProtocol.RunIsFifo` | src/round/message_manager.c:80-114 | deliveries followed by the queue are the pushes in lock order: nothing lost, duplicated or reordered |
| `MessageProtocol.BlocksOnlyWhenEmpty` | src/round/message_manager.c:98-114 | with no call in progress a wait blocks if and only if the queue is empty |
| `MessageProtocol.NoLostWakeup` | src/round/message_manager.c:80-114 | while a message is queued and a thread waits, a run is built, whoever holds the mutex, in which a wait returns the oldest message |
| `MessageProtocol.PushRun` | src/round/message_manager.c:80-92 | a whole push appends the message, posts once, and leaves its thread out of the call with the mutex free |
| `MessageProtocol.WaitRun` | src/round/message_manager.c:98-114 | a whole wait, with a wake-up and a message there, takes one of each, returns the oldest message, and leaves its thread out of the call with the mutex free |
| `MessageClear.StepSurplus` | src/round/message_manager.c:80-114 | the surplus of wake-ups over messages (semaphore + consumers before their pop + producers before their post - queue length) is kept by every step, except that a pop of the empty queue uses one up |
| `MessageClear.RunSurplus` | src/round/message_manager.c:80-114 | over any run from any state the surplus used up is exactly the number of empty pops, so a surplus of n allows at most n |
| `MessageClear.ResetSafe` | src/round/message_manager.c:57-114 | in any state with an exclusive mutex: no wait of any run after the semaphore reset comes back empty-handed, if and only if the reset finds no more threads between semaphore and queue than queued messages |
| `MessageClear.ResetWakesAll` | src/round/message_manager.c:57-114 | in any state, for every run after the reset that ends with no thread between semaphore and queue: there is a wake-up for every queued message then, if and only if the reset found no more messages than such threads; of more, exactly the difference stays without one |
| `MessageClear.ResetStrands` | src/round/message_manager.c:57-114 | when the reset finds more messages than such threads, a run is built that ends with fewer wake-ups than messages |
| `MessageClear.ResetBoundsEmptyPops` | src/round/message_manager.c:57-114 | any run after the reset has at most as many empty pops as threads between semaphore and queue exceed the messages |
| `MessageClear.ScheduleSurplus` | src/round/message_manager.c:57-114 | whatever threads do between the pops of a clear, each message it takes away leaves one wake-up too many, the mutex stays exclusive and the order of messages is kept |
| `MessageClear.ClearAmongThreads` | src/round/message_manager.c:57-74 | for every interleaving of a clear with threads: later waits all find a message if and only if the reset takes back at least as many wake-ups as messages were discarded (less empty pops meanwhile), and no message stays without a wake-up if and only if it takes back at most as many |
| `MessageClear.ClearSafeWhenQuiet` | src/round/message_manager.c:57-74 | for a clear that nobody interrupts, later waits all find a message and the invariant of runs holds again if and only if no thread was between semaphore and queue |
| `MessageClear.ExcessPopsEmpty` | src/round/message_manager.c:80-114 | with more threads between semaphore and queue than messages, whoever holds the mutex, a run is built in which a wait comes back empty-handed |
| `MessageClear.SettlesAlways` | src/round/message_manager.c:80-114 | from every state a run is built after which no thread is between semaphore and queue |
| `MessageClear.ClearBehindWaiter` | src/round/message_manager.c:57-74 | an input: a clear behind a consumer that passed the semaphore makes its pop come back empty |
| `MessageClear.WaitDuringClear` | src/round/message_manager.c:57-74 | an input: nobody is between semaphore and queue when the clear starts, a consumer passes the semaphore before the reset, and its pop comes back empty |
| `MessageClear.PushBeforeReset` | src/round/message_manager.c:65-71 | an input: a push that completes between the last pop of a clear and its reset leaves a queued message on which a wait blocks |
| `MessageManager.MessageManager.constructor` | src/round/message_manager.c:17-31 | a new manager over an empty queue is the protocol's initial state |
| `MessageManager.MessageManager.CallPushMessage` | src/round/message_manager.c:80-85 | entering a push is the protocol's step and keeps messages on their way distinct and unqueued |
| `MessageManager.MessageManager.CallWaitMessage` | src/round/message_manager.c:98-106 | entering a wait is the protocol's step |
| `MessageManager.MessageManager.Enqueue` | src/round/message_manager.c:85-90 | the push on the linked queue is the protocol's enqueue step |
| `MessageManager.MessageManager.Dequeue` | src/round/message_manager.c:105-111 | the pop from the linked queue is the protocol's dequeue step |
| `MessageManager.MessageManager.Synchronize` | src/round/message_manager.c:80-114 | locking, unlocking, posting and waiting are the protocol's steps |
| `MessageManager.MessageManager.PushMessage` | src/round/message_manager.c:80-92 | a whole push on the linked queue: the message is last, one wake-up more, the thread is out of the call |
| `MessageManager.MessageManager.WaitMessage` | src/round/message_manager.c:98-114 | a whole wait on the linked queue returns the oldest message, if there is one, takes a wake-up, and the thread is out of the call |
| `MessageManager.MessageManager.DiscardMessage` | src/round/message_manager.c:65-69 | one pop of the clear takes the first message off the linked queue, whatever the threads are doing |
| `MessageManager.MessageManager.ResetSemaphore` | src/round/message_manager.c:71 | the semaphore drops to zero and nothing else changes |
| `MessageManager.MessageManager.MoveAll` | src/round/message_manager.c:57-114 | any interleaving of threads and a clear's pops, carried out on the linked queue, ends in the protocol's state, in message order |
| `MessageManager.MessageManager.Execute` | src/round/message_manager.c:80-114 | any run of the protocol, carried out on the linked queue, ends in the protocol's state: dequeued messages followed by the queue are the enqueued ones, in order |
| `MessageManager.MessageManager.ClearAlone` | src/round/message_manager.c:57-74 | the loop of pops and the reset, with no thread in between, end with an empty queue and the semaphore at zero |
| `MessageManager.MessageManager.Clear` | src/round/message_manager.c:57-74 | the clear's pops and the steps of threads, interleaved in any way on the linked queue, then the reset: dequeued and queued messages are the enqueued ones in order, and later waits all find a message if and only if enough wake-ups were taken back |
| `HashMap.Map.GetMapObjectByKey` | src/round/util/map.c:275-294 | finds an object if and only if the key is mapped, and then the one with that key and value |
| `HashMap.Map.AddMapObject` | src/round/util/map.c:191-214 | the object replaces any other with its key, in a bucket made when needed |
| `HashMap.Map.SetObject` | src/round/util/map.c:191-239 | the map gains or replaces the entry; a missing key or object changes nothing |
| `HashMap.Map.RemoveObjectByKey` | src/round/util/map.c:245-260 | the entry leaves the map; true exactly when there was one |
| `HashMap.Map.HasKey` | src/round/util/map.c:266-269 | true exactly for a mapped key |
| `HashMap.Map.GetObjectByKey` | src/round/util/map.c:300-309 | the mapped value, or none |
| `HashMap.Map.Size` | src/round/util/map.c:107-122 | the sum over the buckets is the number of mapped keys |
| `HashMap.RemoveRefines` | src/round/util/map.c:245-260 | taking the found node out of its bucket leaves an index of the map without the key |
| `HashMap.Map.Execute` | src/round/util/map.c:107-309 | any sequence of set, remove, get, has and size calls answers as a finite map does |
| `HashMap.ExecuteBoth` | src/round/util/map.c:179-309 | maps with different hash functions and table sizes give the same answers |
| `StrReplace.ReplaceAllIsSplitAndJoin` | src/round/util/string_func.c:455-508 | the result is the original cut at occurrences of the token and glued with the replacement |
| `StrReplace.PiecesAreLeftmost` | src/round/util/string_func.c:164-174 | every cut is at the first occurrence behind the previous cut, and the last piece has none |
| `StrReplace.ReplaceAllLength` | src/round/util/string_func.c:455-508 | the length is the original length plus the number of replacements times the length difference |
| `StrReplace.SizeAddUnwraps` | src/round/util/string_func.c:472-482 | adding a wrapped unsigned length difference still gives the right size |
| `StrReplace.Resize` | src/round/util/string_func.c:479-482 | the buffer grows or shrinks by the length difference and keeps the bytes copied so far |
| `StrReplace.CopyPieces` | src/round/util/string_func.c:484-493 | the two copies stay inside the current buffer and source unless the occurrence lies before the text already copied |
| `StrReplace.Replace` | src/round/util/string_func.c:455-508 | the result is the leftmost non-overlapping replacement of all occurrences if and only if no replaced occurrence starts where the previous one ended; every copy is then in bounds |
| `RoundString.CutIsSegmentation` | src/round/util/string.c:322-336 | the loop cuts the string into matched patterns and single characters at which no pattern matches |
| `RoundString.PassTriesNextPattern` | src/round/util/string.c:324-331 | an input: a pass goes on with the next pattern behind a match, so "aab" is cut into "a" and "ab" |
| `RoundString.RoundString.Replace` | src/round/util/string.c:294-346 | terminates; the value becomes the segments written out with their targets, and stays as it was when that is empty |
| `RoundString.RoundString.NAddValue` | src/round/util/string.c:221-260 | the value is extended by the addition and stays terminated inside its memory |
| `RoundString.RoundString.SetValue` | src/round/util/string.c:79-137 | an absent value is refused and changes nothing; any other becomes the contents |
| `LogicalClock.Clock.SetRemoteValue` | src/round/clock.c:90-105 | the clock jumps to a remote value ahead of it and then steps once |
| `LogicalClock.Clock.Increment` | src/round/clock.c:131-146 | the clock steps once and the new value is returned |
| `LogicalClock.ClockIsMaximum` | src/round/clock.c:90-146 | after n events from v the clock is the maximum of v+n and every remote value plus the number of events since, its own included |
| `MethodTable.NativeMethodIsFinal` | src/round/method/system_method.c:17-32 | a native method is final whether or not that was asked for |
| `MethodTable.FlagAfterSet` | include/round/util/option.h:33 | for every option word, the final flag is on after setting it to a value if and only if the value is true or the flag was off |
| `MethodTable.ValidMethods` | src/round/method.c:74-90 | a method can be bound if and only if it has a name, and code or the static flag |
| `MethodTable.FailedSetMethod` | src/round/local_node.c:274-295 | setting succeeds if and only if the method is valid and its name not bound to a final one; on failure the table is the old one if and only if the name was unbound or bound to a final method, and otherwise lacks exactly that name |
| `MethodTable.InvalidReplacementLosesMethod` | src/round/local_node.c:284-292 | an input: setting "f" without code over a method "f" that is not final leaves no "f" |
| `Responses.EmptyCodeLosesMethod` | src/round/method/set_method.c:18-86 | an input: a set_method request for "f" with empty code answers an internal error and loses the non-final method "f" |
| `Responses.PostedFinalMethodRefused` | src/round/method/remove_method.c:17-42 | posted set_method and remove_method requests that name a final method fail and change nothing but the clock |
| `Responses.FinalMethodRefused` | src/round/method/set_method.c:18-86 | the handlers themselves refuse a final name without changing the state |
| `Responses.PostedRemoveUndoesSetMethod` | src/round/method/remove_method.c:17-42 | posting remove_method undoes a posted set_method that bound a free name: methods and registry are as before |
| `Responses.RemoveUndoesSetMethod` | src/round/method/remove_method.c:17-42 | the handlers themselves: remove_method restores the state from before a set_method that bound a free name |
| `MethodTable.CallsKeepFinal` | src/round/local_node.c:274-316 | no sequence of setmethod and removemethod calls, valid or not, rebinds or removes a final method |
| `MethodTable.SystemMethodsStay` | src/round/local_node.c:136-150 | as all five system methods are final, a table that keeps final methods keeps each of them |
| `MethodTable.MethodManager.AddMethod` | src/round/method_manager.c:56-67 | a valid method is bound to its name, replacing another; an invalid one changes nothing |
| `MethodTable.MethodManager.GetMethod` | src/round/method_manager.c:82-88 | the method bound to the name, or none |
| `MethodTable.MethodManager.RemoveMethod` | src/round/method_manager.c:94-100 | the name is unbound, true exactly when it was bound |
| `LocalNode.LocalNode.constructor` | src/round/local_node.c:46-75 | a new node has exactly the five system methods, an empty registry and the initial clock |
| `LocalNode.LocalNode.InitSystemMethods` | src/round/local_node.c:136-150 | the table holds exactly the five system methods |
| `LocalNode.LocalNode.IsFinalMethod` | src/round/local_node.c:322-334 | true exactly for a name bound to a final method |
| `LocalNode.LocalNode.SetMethod` | src/round/local_node.c:274-295 | the new table and the result are those the table theorems are about |
| `LocalNode.LocalNode.RemoveMethod` | src/round/local_node.c:301-316 | the new table and the result are those the table theorems are about |
| `LocalNode.LocalNode.SetRegistry` | src/round/local_node.c:369-393 | the entry is stamped with the time and the clock; an absent value keeps the old one; an absent key is refused |
| `LocalNode.LocalNode.RemoveRegistry` | src/round/local_node.c:411-417 | exactly that entry is removed, true when there was one |
| `Responses.PostedCall` | src/round/local_node.c:568-761 | a posted request for a system method runs that method one clock tick later and answers its outcome |
| `PostedJson.SetMethodBinds` | src/round/method/set_method.c:18-86 | a posted set_method binds the name to a dynamic method in the sent language with the sent code, decoded if it is said to be Base64, if and only if name and code are not empty and the name is not bound to a final method; what is left of the table and which error is set otherwise |
| `PostedJson.RemoveMethodUnbinds` | src/round/method/remove_method.c:17-42 | a posted remove_method unbinds the name if and only if it is bound to a method that is not final, and tells final from unbound by its error |
| `PostedJson.SetRegistryWrites` | src/round/method/set_registry.c:17-42 | a posted set_registry with a key stores the value, or keeps the old one when it is null, with the time and the clock after the post, and changes nothing else |
| `PostedJson.GetRegistryReads` | src/round/method/get_registry.c:17-55 | a posted get_registry answers key, value and both timestamps if and only if there is an entry |
| `PostedJson.RemoveRegistryTakes` | src/round/method/remove_registry.c:17-37 | a posted remove_registry takes away that key, successful if and only if it was there |
| `PostedJson.MissingParameterRefused` | src/round/method/set_method.c:20-41 | a posted system call without a parameter it needs answers error -32602 and changes nothing but the clock |
| `PostedJson.RefusedMessages` | src/round/local_node.c:717-736 | a message that is no object and no array gets error -32600 and no response; an unknown method, and a native method without a function, get -32601, unreadable parameters of a native method -32602; only the clock changes |
| `PostedJson.ScriptAnswers` | src/round/method_manager.c:165-177 | a method in a script language gets the text of the parameters and answers the script's outcome |
| `Responses.PostedGetAfterSet` | src/round/method/get_registry.c:17-55 | posting set_registry and then get_registry answers the value, the time and the clock of the set, or the earlier value when none was given |
| `Responses.PostedGetOfOther` | src/round/method/set_registry.c:17-42 | a posted get of another key is answered as if nothing had been set |
| `Responses.GetAfterSet` | src/round/method/get_registry.c:17-55 | the handlers themselves: get_registry answers what set_registry stored, and other keys as before |
| `Responses.PostedRemove` | src/round/method/remove_registry.c:17-37 | a posted remove_registry succeeds if and only if the key is registered, and a posted get_registry then fails with invalid parameters |
| `Responses.PostedRemoveAfterSet` | src/round/method/remove_registry.c:17-37 | posting set_registry for a new key and then remove_registry restores methods and registry |
| `Responses.RemoveAfterSet` | src/round/method/remove_registry.c:17-37 | the handlers themselves: removal succeeds if and only if the key is registered, get_registry then finds nothing, and a new key is as if never set |
| `LocalNode.LocalNode.PostMessage` | src/round/local_node.c:717-761 | the clock moves once, then a single request or every batch member in order is executed, each with a response |
| `LocalNode.LocalNode.Execute` | src/round/local_node.c:274-761 | any sequence of posts and direct calls on the node object ends in the state of the abstract run; final methods and the five system methods stay bound, the clock does not go back and no entry is stamped after it |
| `Responses.ResponseWellFormed` | src/round/local_node.c:568-711 | every response carries version 2.0 and the request's id, null or as a string, and has an error, with its code and message, if and only if the request failed, then without result |
| `Responses.StaleErrorShows` | src/round/method_manager.c:148-155 | for a request not run by a script engine, an earlier error shows in the response if and only if the request is an object without method name or parameters; it never shows in state or success |
| `Responses.StaleErrorInBatch` | src/round/local_node.c:745-757 | an input: after a request for an unknown method, a batch member without method and parameters is answered "method not found"; alone and with a fresh error it answers code 0 |
| `RequestTheory.ExecRequestAlike` | src/round/local_node.c:568-711 | states that differ only in logical timestamps give responses that differ only in a returned lts |
| `RequestTheory.BatchIsSingles` | src/round/local_node.c:717-761 | posting messages that are not arrays as a batch leaves the methods, registry values, error and ordered answers (logical timestamps aside) of posting them one by one, while the clock advances once instead of n times; what is no object is refused both ways |
| `Responses.NestedBatchRefused` | src/round/local_node.c:741-757 | an input: a batch inside a batch is refused, on its own it is executed |
| `RequestTheory.PostAdvances` | src/round/local_node.c:717-761 | every posted message moves the clock forward and keeps final methods and the bound on stamps |
| `RequestTheory.PostedClock` | src/round/node.c:250-264 | a posted object with an integer ts brings the clock one past the greater of the two; any other message moves it by one |
| `RequestTheory.RunInvariant` | src/round/local_node.c:274-761 | over every run of posts and direct calls no registry entry is stamped after the clock, the system methods stay bound, and a method final at some point stays bound from then on |
| `RequestTheory.SetRegistryStamps` | src/round/local_node.c:369-393 | a set_registry request that succeeds stamps its key with the clock |
| `RequestTheory.LaterStampsAreGreater` | src/round/local_node.c:369-393 | of two successful set_registry requests in one run the later one stamps the greater logical time |
| `RequestTheory.BatchStampsOnce` | src/round/local_node.c:724-757 | all registry entries that one batch writes carry the same logical timestamp, the clock after the batch |

## Left out

- HTTP, UPnP, the RPC server and client, finders, routes, triggers, jobs and the daemon: input, output and plumbing.
- Script engines: a method in another language answers through a parameter of the model and does not touch the node; a method in a language without an engine, for which the source dereferences a null engine, is not set apart from the others.
- Custom native methods, `round_local_node_setnativemethod`: only the five system methods have native functions here.
- `round_local_node_execmessage` and `round_local_node_execjsonrequest`: they parse a text and post the result; the second reports a successful post as failure and drops its response (src/round/local_node.c:446-449).
- Failed allocations, null handles, destructors and reference counts of JSON values: one-branch facts or memory management.
- Memory release: nodes taken out by a clear stay in the list heap as unlisted nodes, and the rings of cleared clusters as unused lists.
- Text of parameters that are not strings: the source frees that text when the next parameter is read; the model keeps it.
- Integer widths: positions, sizes of lists, ports and clock values are unbounded, except in `StrReplace`, where sizes wrap at 2^64.
- NUL characters inside strings, character encodings and the locale.
- `round_map_settablesize` and `round_map_getasciihash`: the table is never resized and the hash function is arbitrary.
- Threads, timers, time-outs and the notification hand-off of a posted request: the mutex is an owner and the semaphore a counter in the protocol.
- `round_node_setclock`, which may move the clock back: it is not among the events of a run.
- The `ts` of outgoing messages: `round_json_rpc_settimestamp` has inverted guards and stores nothing, so responses carry none.
- The HTTP status and message that an error object also holds: only its detail code and message reach a response.
- MessageManager.MessageManager.CallPushMessage: asks that the message is in no list and not being pushed by another thread; pushing a queued message again would move it.
- MessageManager.MessageManager.Clear: each pop is one step, although the source takes no lock; two threads relinking the queue at the same moment are not modelled.
- IntrusiveList.ListHeap.Insert: asks that the given predecessor is a header, is in a list, or is the node itself; behind another unlisted node the source closes a circle without a header, which is no list and on which the walks do not end.
- HashMap.Map.AddMapObject: asks for an object that is in no list; an object already in this map is freed by the source before it is added again, and one in another map would leave that map's index behind.
- RequestTheory.BatchIsSingles: says nothing of members that are arrays; these differ, as `NestedBatchRefused` shows.
- StrReplace.Replace: asks that strings and the result fit into the largest object, as the C library does.
- RoundString.RoundString.Replace: asks for non-empty patterns; with an empty pattern the source does not move on.
