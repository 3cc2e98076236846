# memkit container cores

memkit implements each of its container families once, in a core class over a
fixed pool, array or table, and wraps these cores for C++ and C. The cores are
mutable structures linked by pointers or indices. This project models them in
Dafny, branch by branch, and proves that each behaves as the simple object it
stands for.

`dafny verify dfyconfig.toml` checks everything.

## What is modelled

A pointer into a pool is a slot index and the null pointer is -1. Link fields
are arrays of indices. Every class keeps ghost sequences of the slots that its
lists visit, and its methods are proved against functions on plain sequences,
maps and sets; what the library promises is then proved of those functions.

* `Links`, `Modular`, `Bits`: lists over a pool, remainders, and bit masks.
* `LruSpec`, `Lru`: the LRU cache. Each entry is in a bucket chain, in the
  doubly linked recency list, or in the free list that reuses the chain link.
* `Growth`, `OpenSpec`, `OpenMap`, `ChainMap`: when hash maps grow; open addressing
  with linear probing and tombstones; chaining, with a rehash that relinks every
  node.
* `Bst`: the ordered map, a binary search tree with successor splicing and, on
  removal, the rollback of a failed copy.
* `Mpsc`, `MpscProgress`, `Spsc`: the two lock-free queues as interleaved atomic
  steps, where a payload copy takes time, and when the first still delivers. A
  schedule is any sequence of steps of any threads; an overwriting push is one
  step for each load, store and end of a copy, like any other.
* `Hooks`, `WheelSpec`, `Wheel`: intrusive circular lists, what a timer wheel
  promises, and the wheel that keeps it. A callback is any function of what has
  fired so far that yields arming and cancelling actions.
* `Ring`: the ring buffer with growth and overwriting, and the byte ring.
* `BitStream`, `Arena`, `HandlePool`, `Heap`, `SparseSet`, `Dlist`: the bit
  reader and writer, the bump arena in wrapping word arithmetic, the handle
  pool, the binary heap, the sparse set and the doubly linked list.

Outcomes the code takes from elsewhere are parameters: which element copies
succeed, and what an allocator answers. A copy that fails leaves its destination
as it was.

## Where the code promises less than it seems to

These are results of the project. Each is an equivalence: the lemma or contract
named says exactly when the code does what one expects, and for most another
lemma shows an input for which it does not.

* Open addressing: a probe that finds no vacant slot reports `occupied` for an
  absent key. Lookups, removals and insertions are right exactly when the key
  is present or some slot is vacant (`OpenSpec.LookupExact`, `RemoveExact`,
  `PutExact`). Tombstones do not count towards growth, so removals can bring
  a growable map to that state (`OpenSpec.TombstonesExhaust`); fewer new keys
  than the last growth left slots vacant cannot (`OpenSpec.RoomyIsExact`).
* Open addressing: a new entry whose value cannot be copied leaves its slot
  vacant, even if that was a tombstone. The table stays sound exactly when no
  other key was placed past that slot (`OpenSpec.FailedPut`); otherwise that key
  is in the table and not found (`OpenSpec.FailedPutHides`).
* Hash maps: get answers ok even when the value could not be copied to the caller
  (`OpenMap.OpenHashMap.OpenGet`, `ChainMap.ChainedHashMap.ChainGet`). Put is
  refused by a map without a table; get, contains and remove divide by zero there
  (`GetEntry`, `ContainsEntry`, `RemoveEntry` of both maps).
* Ordered map: insert answers ok without storing its element exactly when an equal
  but different one is present and its copy fails (`Bst.SilentInsertIff`,
  `Bst.SilentInsertExample`).
* LRU cache: a copy that fails after an eviction leaves the evicted slot in no
  list. A run loses a slot exactly when it stores an absent key into a full
  cache and a copy fails (`LruSpec.NothingLostIff`). That happens at most once:
  from then on no put evicts anything (`LruSpec.AfterLoss`).
* Multi-producer queue: a push that gives up has already taken its ticket, and
  the consumer can never pass it. A ticket can still be popped exactly when no
  ticket from the next one up to it has been given up or is held without spins
  left (`MpscProgress.PoppableIff`); after all pushes have returned, everything
  pushed can be popped exactly when none answered full
  (`MpscProgress.DeliversAllIff`). One push without spins on an empty queue is
  enough to stop it (`MpscProgress.OneGiveUpStopsAll`). The documentation calls
  the queue lock-free (`docs/CONCURRENCY.md:35`); system-wide progress is lost in
  that case.
* Single-producer queue: with the overwrite policy the producer also stores the
  head, which the consumer owns. A step keeps the queue consistent exactly when
  it is not one at which the two collide (`Spsc.StepKeepsInv`, `Spsc.Races`): the
  element being read is overwritten, reading begins at an element that is, or the
  heads they store disagree (`Spsc.TornExample`, `Spsc.HeadGoesBackExample`). The
  documentation lists that policy without a restriction (`docs/CONCURRENCY.md:57`).
* Timer wheel: deadlines are compared as 32-bit numbers. A timer fires at its
  due tick exactly when no multiple of 2^32 lies after its first visit and up
  to its due tick, and otherwise too early, at that visit
  (`WheelSpec.FirstReady`, `WheelSpec.EarlyExample`). A timer that a callback arms
  with such a delay may be ready at once, and then fires in the same dispatch
  (`WheelSpec.TimersExact`). A dispatch with a callback that rearms its own node
  with one period ends, whatever other timers wait, exactly when that node is not
  ready or the period is not a whole number of rounds that carries the deadline
  past 2^32 (`WheelSpec.PeriodicEnds`, `WheelSpec.ImmediateIff`).
* Intrusive lists: `clear` leaves the hooks it drops linked to each other, so
  it is safe exactly on an empty list (`Hooks.ClearExact`), and resetting the
  buckets of a wheel exactly when all are empty (`Hooks.ClearAllExact`).
* Handle pool: validity compares generations only. An issued handle becomes
  valid again when its slot has been released 65535 times
  (`HandlePool.HandleLifetime`). Every slot, live or free, accepts the one handle
  with its generation, other than the invalid handle 0; for a free slot that
  handle was never issued unless the slot has been released 65535 times
  (`HandlePool.OneAccepted`, `HandlePool.UnissuedAccepted`). Releasing an accepted
  handle keeps the free stack sound exactly when its slot is live
  (`HandlePool.PushSound`, `HandlePool.Pool.Release`); when no slot is, the push
  lands past the stack, as `release(1)` does in a fresh pool
  (`HandlePool.FreshAccepts`). When some slot is, later acquisitions hand the
  released one out twice, with the same handle (`HandlePool.HandsOutTwice`,
  `HandlePool.TwoOwnersExample`).
* Priority queue: under a run-time policy elements of more than 256 bytes
  cannot be swapped. A push then answers `invalid` and leaves the queue out of
  order exactly when the element is less than the parent of its place
  (`Heap.PushInOrderIff`), and a pop exactly when the last element is greater
  than a child of the root that remains (`Heap.PopInOrderIff`,
  `Heap.OversizedExamples`). A copy that fails as the last of a swap loses the
  element that is sifted (`Heap.LosingExample`).
* Ring buffer: the larger array is asked for the bytes it needs exactly when
  capacity and element size do not overflow (`Ring.RingBuffer.RequestExact`,
  `Ring.RequestExample`), and otherwise a block that is granted is too small
  (`Ring.RingBuffer.Relinearize`). The counts for reading and writing in place are the
  contiguous runs only where `Ring.RingBuffer.ReadableContiguous` and
  `WritableContiguous` say so.

## Model

| member | source | states |
|---|---|---|
| Lru.LruCache.Put | include/memkit/detail/lrucache_map_core.hpp:234-269 | put stores the value found afterwards, moves or adds the key at the front, and on a full cache drops exactly the last entry; failed copies leave the list, and lose a slot after an eviction, just as the code does |
| Lru.LruCache.Get | include/memkit/detail/lrucache_map_core.hpp:182-209 | get returns the value of a present key and moves its entry to the front, in front of all others; an absent key or a failed copy changes nothing |
| Lru.LruCache.Peek | include/memkit/detail/lrucache_map_core.hpp:211-232 | peek returns the value of a present key and changes nothing |
| Lru.LruCache.Touch | include/memkit/detail/lrucache_map_core.hpp:300-313 | touch moves a present key to the front, and reports an absent one |
| Lru.LruCache.Contains | include/memkit/detail/lrucache_map_core.hpp:292-298 | contains answers whether the key is in the recency list |
| Lru.LruCache.Remove | include/memkit/detail/lrucache_map_core.hpp:271-290 | remove takes the key out of the recency list, its bucket and the live entries, and nothing else |
| Lru.LruCache.Clear | include/memkit/detail/lrucache_map_core.hpp:160-180 | clear empties the recency list and every bucket and puts every live slot on the free list |
| Lru.LruCache.ForeachList | include/memkit/detail/lrucache_map_core.hpp:315-325 | the walk in one order visits the recency list and the other its exact reverse, up to the first objection |
| Lru.LruCache.Walk | include/memkit/detail/lrucache_map_core.hpp:539-551 | following either link direction visits the slots of the list in order, once each, up to the first objection |
| Lru.LruCache.Init | include/memkit/detail/lrucache_map_core.hpp:96-122 | init refuses an empty pool or bucket table and otherwise gives an empty, consistent cache |
| Lru.LruCache.ResetFreeList | include/memkit/detail/lrucache_map_core.hpp:333-351 | afterwards the free list threads every slot of the pool |
| Lru.LruCache.FindEntry | include/memkit/detail/lrucache_map_core.hpp:353-395 | the chain walk finds the slot of the key and its predecessor in the chain, or rules the key out |
| Lru.LruCache.LruUnlink | include/memkit/detail/lrucache_map_core.hpp:397-413 | unlinking takes one slot out of the doubly linked recency list, in both directions |
| Lru.LruCache.LruPushFront | include/memkit/detail/lrucache_map_core.hpp:415-427 | linking in front puts one slot at the head of the recency list, in both directions |
| Lru.LruCache.Promote | include/memkit/detail/lrucache_map_core.hpp:429-437 | promotion moves one slot to the front and keeps every other in order |
| Lru.LruCache.HashUnlink | include/memkit/detail/lrucache_map_core.hpp:439-451 | unlinking takes one slot out of its bucket chain and leaves the other chains and the free list |
| Lru.LruCache.AcquireEntry | include/memkit/detail/lrucache_map_core.hpp:453-463 | acquiring takes the head of the free list, or reports that there is none |
| Lru.LruCache.ReleaseEntry | include/memkit/detail/lrucache_map_core.hpp:465-471 | releasing puts the slot at the head of the free list, which shares its link with the chains |
| Lru.LruCache.PrepareEntry | include/memkit/detail/lrucache_map_core.hpp:483-537 | a new entry is placed in a free slot or in that of the evicted tail; a failed copy after an eviction loses that slot |
| Lru.LruCache.Conservation | include/memkit/detail/lrucache_map_core.hpp:333-471 | in every valid state keys are distinct, both lists are free of repetition, and live, free and lost slots add up to the capacity |
| Lru.EverySlotOwned | include/memkit/detail/lrucache_map_core.hpp:333-471 | every slot of the pool is in the recency list, in the free list or lost |
| LruSpec.PutLookup | include/memkit/detail/lrucache_map_core.hpp:234-269 | after a put the key has the value, and only the least recently used key of a full cache can lose its own |
| LruSpec.TouchedKeys | include/memkit/detail/lrucache_map_core.hpp:429-437 | a promotion changes no lookup and no count |
| LruSpec.PutAnswers | include/memkit/detail/lrucache_map_core.hpp:234-269 | what a put answers, with every outcome of its copies: ok exactly when the value is then found |
| LruSpec.EntriesByLastUse | include/memkit/detail/lrucache_map_core.hpp:182-313 | over every run, failing copies included, the entries are in the order of their last use, latest first, and hold the values last stored |
| LruSpec.EvictsOldest | include/memkit/detail/lrucache_map_core.hpp:483-537 | a store of an absent key into a full cache drops the key whose last use is oldest, and no other |
| LruSpec.GetPromotesExample | include/memkit/detail/lrucache_map_core.hpp:182-209 | in a cache of two, a get of the older key makes the next store drop the other |
| LruSpec.RunWellFormed | include/memkit/detail/lrucache_map_core.hpp:160-313 | over every run of operations, failing copies included, keys stay distinct and with the lost slots at most the capacity in number; the slots lost are the stores that could not fill the slot of an evicted tail, and there is never more than one |
| LruSpec.NothingLostIff | include/memkit/detail/lrucache_map_core.hpp:483-537 | a run loses no slot exactly when no store of an absent key to a full cache failed to copy |
| LruSpec.AfterLoss | include/memkit/detail/lrucache_map_core.hpp:483-537 | once a slot is lost, in every continuation a put evicts nothing, and answers full for an absent key once one entry less than the capacity is held |
| LruSpec.OneLossExample | include/memkit/detail/lrucache_map_core.hpp:483-537 | a cache of one slot that loses it is empty and answers full to every put |
| LruSpec.InclusionByOne | include/memkit/detail/lrucache_map_core.hpp:182-313 | on a common run whose copies succeed the entries of a cache with one slot more are those of the smaller one, in the same order, and at most one other |
| LruSpec.Inclusion | include/memkit/detail/lrucache_map_core.hpp:182-313 | on a common run whose copies succeed the entries of a smaller cache are a subsequence of those of any larger one, so a hit in the smaller is the same hit in the larger |
| Mpsc.MutualExclusion | include/memkit/detail/mpsc_queue_core.hpp:92-146 | in every interleaving, at most one thread is inside the payload copy of a cell |
| Mpsc.PopsInTicketOrder | include/memkit/detail/mpsc_queue_core.hpp:92-146 | in every interleaving the values popped are those of tickets 0, 1, 2, ... in order, each once, each of a completed push |
| Mpsc.PopsWhatIsPassed | include/memkit/detail/mpsc_queue_core.hpp:92-146 | in every interleaving the values claimed are those that callers pass to the pushes that enter, in order, and what is popped are the first of them |
| Mpsc.PushLifetime | include/memkit/detail/mpsc_queue_core.hpp:92-111 | a push enters with a new ticket, its value and all its loads, keeps ticket and value, and leaves exactly with an answer |
| Mpsc.SpinsUsed | include/memkit/detail/mpsc_queue_core.hpp:98-110 | while a push waits for its cell, each of its loads uses up one of its spins |
| Mpsc.GivesUpAfter | include/memkit/detail/mpsc_queue_core.hpp:98-110 | a push that still waits gives up exactly once it has made all its loads |
| Mpsc.PopDelivers | include/memkit/detail/mpsc_queue_core.hpp:113-136 | a pop alone, with spins, delivers the next value when its push has completed |
| Mpsc.PopFindsEmpty | include/memkit/detail/mpsc_queue_core.hpp:138-141 | a pop alone, with spins, finds an empty queue empty |
| Mpsc.PopWaits | include/memkit/detail/mpsc_queue_core.hpp:118-145 | a pop alone waits for a push that has not completed, one spin a round, and answers full exactly when none is left |
| Mpsc.AbandonedTicketBlocks | include/memkit/detail/mpsc_queue_core.hpp:98-110 | once a push has given its ticket up, no continuation ever pops that ticket or a later one |
| Mpsc.Answers | include/memkit/detail/mpsc_queue_core.hpp:92-146 | what each answer means when it is given: ok publishes the ticket, full abandons it, a pop yields the next value, empty means the positions are equal, and pop answers full only with its spins used up |
| MpscProgress.PoppableIff | include/memkit/detail/mpsc_queue_core.hpp:92-146 | some continuation pops a ticket exactly when no ticket from the next one up to it has been given up or is out of spins |
| MpscProgress.DeliversAllIff | include/memkit/detail/mpsc_queue_core.hpp:92-146 | after any run, once all pushes have returned, everything pushed can still be popped exactly when no push answered full |
| MpscProgress.OneGiveUpStopsAll | include/memkit/detail/mpsc_queue_core.hpp:98-110 | a push that may not spin gives its ticket up even on an empty queue, and nothing is ever popped from it again |
| MpscProgress.DoomedNeverPopped | include/memkit/detail/mpsc_queue_core.hpp:98-146 | a ticket given up, or held without spins left, is never popped, in any continuation |
| MpscProgress.HelpfulStep | include/memkit/detail/mpsc_queue_core.hpp:92-146 | while no ticket stands in the way, some step of some thread brings the next pop closer |
| Mpsc.SeekFinds | include/memkit/detail/mpsc_queue_core.hpp:118-120 | the consumer finds its cell ready exactly when the push that holds the next ticket has completed |
| Mpsc.LoadAdmits | include/memkit/detail/mpsc_queue_core.hpp:101-104 | a producer is admitted to its cell exactly when its ticket is less than a round ahead of the consumer |
| Mpsc.NeverStuck | include/memkit/detail/mpsc_queue_core.hpp:101-136 | no thread that is inside a copy or out of spins is stuck |
| Mpsc.StepKeepsInv | include/memkit/detail/mpsc_queue_core.hpp:92-146 | every atomic step of every thread keeps the cell protocol |
| Mpsc.RunExtends | include/memkit/detail/mpsc_queue_core.hpp:92-146 | histories only grow: tickets completed or given up stay so |
| Mpsc.InitInv | include/memkit/detail/mpsc_queue_core.hpp:39-66 | the initial cell sequences satisfy the protocol |
| OpenSpec.LookupExact | include/memkit/detail/hashmap_map_core.hpp:763-799 | get and contains agree with the map exactly when the key is present or some slot is vacant |
| OpenSpec.RemoveExact | include/memkit/detail/hashmap_map_core.hpp:779-793 | remove acts as on the map exactly when the key is present or some slot is vacant |
| OpenSpec.PutExact | include/memkit/detail/hashmap_map_core.hpp:732-761 | put updates the map exactly when the key is present or some slot is vacant, reusing tombstones, and otherwise reports full or rewrites a tombstone of the same key |
| OpenSpec.TryPutExact | include/memkit/detail/hashmap_map_core.hpp:732-761 | an entry is stored exactly when its value is copied and, for a new key, the key too and a slot is vacant; what is answered otherwise |
| OpenSpec.GrowingPutExact | include/memkit/detail/hashmap_map_core.hpp:267-284 | put, whatever fails: a larger table is taken exactly when the map is growable and one more entry would not leave the load below 3/4; a refusal or failed copy on the way changes nothing |
| OpenSpec.FixedPut | include/memkit/detail/hashmap_map_core.hpp:471-478 | a fixed map keeps its table, whatever an allocator would answer, and a put takes effect exactly when the key is present or a slot vacant |
| OpenSpec.FixedExample | include/memkit/detail/hashmap_map_core.hpp:471-478 | a fixed map of four slots with two entries takes a third though no memory is granted |
| OpenSpec.FirstAtHome | include/memkit/detail/hashmap_map_core.hpp:698-730 | in an empty table a key goes to the slot its hash names, and one that collides with it to the slot behind |
| OpenSpec.ProbeKey | include/memkit/detail/hashmap_map_core.hpp:698-730 | the probe for a present key stops at its slot |
| OpenSpec.ProbeAbsent | include/memkit/detail/hashmap_map_core.hpp:698-730 | the probe for an absent key reports occupied exactly when no slot is vacant, and otherwise the slot to insert at |
| OpenSpec.RehashKeepsMap | include/memkit/detail/hashmap_map_core.hpp:813-869 | rehashing into more slots keeps the map, recounts it, and leaves no tombstone and a vacant slot, unless the allocation is refused or a copy fails; then nothing has changed |
| OpenSpec.GrowthKeepsLoad | include/memkit/detail/hashmap_map_core.hpp:267-284 | a growable map keeps its load below 3/4 through every put |
| OpenSpec.GrowableIsExact | include/memkit/detail/hashmap_map_core.hpp:267-284 | over every run of puts from empty, a growable map is exact for every key |
| OpenSpec.RoomyIsExact | include/memkit/detail/hashmap_map_core.hpp:267-323 | over every run of puts and removals, a growable map is exact as long as fewer new keys are put than the last growth left slots vacant |
| OpenSpec.FailedPut | include/memkit/detail/hashmap_map_core.hpp:746-756 | a put of a new key whose value cannot be copied changes no entry, and keeps the table sound exactly when no other key was placed past the slot it was to take; otherwise some key is in the table and not found |
| OpenSpec.FailedPutHides | include/memkit/detail/hashmap_map_core.hpp:746-756 | such a put can make another key unreachable |
| OpenSpec.GrowingPutSound | include/memkit/detail/hashmap_map_core.hpp:267-284 | through any put, whatever fails, the table stays sound exactly when it does not spoil such a path |
| OpenSpec.TombstonesExhaust | include/memkit/detail/hashmap_map_core.hpp:471-478 | a growable map with room can run out of vacant slots through removals, and then contains answers yes for an absent key |
| OpenMap.OpenHashMap.OpenProbe | include/memkit/detail/hashmap_map_core.hpp:698-730 | the probing loop computes the state and index of the specification |
| OpenMap.OpenHashMap.OpenPut | include/memkit/detail/hashmap_map_core.hpp:732-761 | open_put changes the slot array as the specification does, with every outcome of its copies |
| OpenMap.OpenHashMap.OpenGet | include/memkit/detail/hashmap_map_core.hpp:763-777 | open_get answers as the specification does, and ok even when the value could not be copied to the caller |
| OpenMap.OpenHashMap.GetEntry | include/memkit/detail/hashmap_map_core.hpp:286-296 | get, with a table; without one it divides by zero |
| OpenMap.OpenHashMap.ContainsEntry | include/memkit/detail/hashmap_map_core.hpp:310-320 | contains, with a table; without one it divides by zero |
| OpenMap.OpenHashMap.RemoveEntry | include/memkit/detail/hashmap_map_core.hpp:298-308 | remove, with a table; without one it divides by zero |
| OpenMap.OpenHashMap.OpenContains | include/memkit/detail/hashmap_map_core.hpp:795-799 | open_contains answers as the specification does |
| OpenMap.OpenHashMap.OpenRemove | include/memkit/detail/hashmap_map_core.hpp:779-793 | open_remove leaves a tombstone and counts down, as the specification does |
| OpenMap.OpenHashMap.OpenRehash | include/memkit/detail/hashmap_map_core.hpp:813-869 | open_rehash reinserts every entry into the new array, and rolls back if the allocation is refused or a put fails |
| OpenMap.OpenHashMap.PutEntry | include/memkit/detail/hashmap_map_core.hpp:267-284 | put is refused without a table, takes a larger table exactly when the map is growable and one more entry would not leave the load below 3/4, and stores the entry, or changes nothing, by what fails; the table stays sound exactly when no path is spoilt |
| OpenMap.OpenHashMap.OpenClear | include/memkit/detail/hashmap_map_core.hpp:801-811 | clear leaves every slot vacant and the size zero |
| OpenMap.OpenHashMap.Foreach | include/memkit/detail/hashmap_map_core.hpp:339-355 | the visitor sees every entry of the map once, accepting each but the last, up to its first objection |
| ChainMap.ChainedHashMap.ChainFind | include/memkit/detail/hashmap_map_core.hpp:547-571 | the chain walk finds the node of the key and its predecessor, or rules the key out |
| ChainMap.ChainedHashMap.ChainPut | include/memkit/detail/hashmap_map_core.hpp:573-593 | chain_put is a map update, unless a copy fails; only a new key needs memory, and only it reports the failure |
| ChainMap.ChainedHashMap.ChainGet | include/memkit/detail/hashmap_map_core.hpp:595-612 | chain_get is a map lookup, and answers ok even when the value could not be copied to the caller |
| ChainMap.ChainedHashMap.GetEntry | include/memkit/detail/hashmap_map_core.hpp:286-296 | get, with a table; without one it divides by zero |
| ChainMap.ChainedHashMap.ContainsEntry | include/memkit/detail/hashmap_map_core.hpp:310-320 | contains, with a table; without one it divides by zero |
| ChainMap.ChainedHashMap.RemoveEntry | include/memkit/detail/hashmap_map_core.hpp:298-308 | remove, with a table; without one it divides by zero |
| ChainMap.ChainedHashMap.ChainContains | include/memkit/detail/hashmap_map_core.hpp:636-640 | chain_contains is map membership |
| ChainMap.ChainedHashMap.ChainRemove | include/memkit/detail/hashmap_map_core.hpp:614-634 | chain_remove takes the key, and only it, out of the map |
| ChainMap.ChainedHashMap.ChainRehash | include/memkit/detail/hashmap_map_core.hpp:656-696 | relinking every node into a larger table leaves the map, the size and the nodes unchanged |
| ChainMap.ChainedHashMap.DrainBucket | include/memkit/detail/hashmap_map_core.hpp:669-679 | one old chain is emptied into the new chains, node by node, without touching the others |
| ChainMap.RehashStep | include/memkit/detail/hashmap_map_core.hpp:671-678 | moving one node keeps all chains apart, every moved node in the chain of its hash, and every key reachable |
| ChainMap.ChainedHashMap.PutEntry | include/memkit/detail/hashmap_map_core.hpp:267-284 | put is refused without a table, takes a larger table exactly when the map is growable and one more entry would not leave the load below 3/4, reports exactly which step failed, and keeps a growable map below 3/4 load |
| ChainMap.ChainedHashMap.ChainClear | include/memkit/detail/hashmap_map_core.hpp:642-654 | clear leaves every bucket empty |
| ChainMap.ChainedHashMap.ReleaseAll | include/memkit/detail/hashmap_map_core.hpp:642-654 | the nodes given back are those of all chains, each once |
| ChainMap.ChainedHashMap.Foreach | include/memkit/detail/hashmap_map_core.hpp:325-337 | the visitor sees every entry of the map once, accepting each but the last, up to its first objection |
| Bst.OrderedMap.Insert | include/memkit/detail/btree_map_core.hpp:189-201 | insert updates the sorted sequence of elements: an equal element is replaced even when the pool is used up, a new one goes to its rank; a copy that fails changes nothing, and is reported for a new element only |
| Bst.SilentInsertIff | include/memkit/detail/btree_map_core.hpp:441-449 | insert answers ok without storing its element exactly when an equal but different one is present and the copy fails |
| Bst.SilentInsertExample | include/memkit/detail/btree_map_core.hpp:441-449 | such an insertion |
| Bst.OrderedMap.InsertNode | include/memkit/detail/btree_map_core.hpp:431-457 | the recursion through the links finds the position of the element and keeps search order, links and free list, with every outcome of the copy |
| Bst.OrderedMap.MakeNode | include/memkit/detail/btree_map_core.hpp:389-409 | a node is taken from the free list, and given back if the copy fails |
| Bst.OrderedMap.AcquireNode | include/memkit/detail/btree_map_core.hpp:308-322 | acquiring takes the head of the free list and leaves the tree |
| Bst.OrderedMap.ReleaseNode | include/memkit/detail/btree_map_core.hpp:356-368 | releasing puts the node at the head of the free list and leaves the tree |
| Bst.OrderedMap.Remove | include/memkit/detail/btree_map_core.hpp:226-241 | remove drops the matching element and no other; it fails exactly for an absent key or when the copy that a node with two children needs fails, and then no link and no element has changed |
| Bst.OrderedMap.RemoveNode | include/memkit/detail/btree_map_core.hpp:459-513 | the recursion finds the matching node and removes its element from the sorted sequence |
| Bst.OrderedMap.RemoveInner | include/memkit/detail/btree_map_core.hpp:474-501 | splicing the successor out and copying its element over the target drops the target from the in-order sequence; a failed copy restores every link |
| Bst.OrderedMap.RemoveLeaf | include/memkit/detail/btree_map_core.hpp:503-512 | a node with at most one child is replaced by that child |
| Bst.OrderedMap.FindSuccessor | include/memkit/detail/btree_map_core.hpp:475-478 | the leftmost node of the right subtree comes directly after the target |
| Bst.OrderedMap.FindNode | include/memkit/detail/btree_map_core.hpp:418-429 | the search finds the element equal to the key, or shows that there is none |
| Bst.OrderedMap.Get | include/memkit/detail/btree_map_core.hpp:203-216 | get yields the element a lookup in the sorted sequence yields |
| Bst.OrderedMap.Contains | include/memkit/detail/btree_map_core.hpp:218-224 | contains answers whether an equal element is present |
| Bst.OrderedMap.PeekMin | include/memkit/detail/btree_map_core.hpp:243-259 | the leftmost node holds the first element of the sorted sequence |
| Bst.OrderedMap.PeekMax | include/memkit/detail/btree_map_core.hpp:261-277 | the rightmost node holds the last element of the sorted sequence |
| Bst.OrderedMap.Foreach | include/memkit/detail/btree_map_core.hpp:279-283 | the visitor sees the elements in the chosen order, in order the sorted sequence, accepts each but the last, and all of them when the answer is ok |
| Bst.OrderedMap.TraverseNode | include/memkit/detail/btree_map_core.hpp:527-570 | each of the three orders visits the elements of a subtree in that order, up to the first objection |
| Bst.VisitAllExact | include/memkit/detail/btree_map_core.hpp:527-570 | a visit sees a prefix, accepts all of it but the last, and sees and accepts everything when it answers ok |
| Bst.TraversalExact | include/memkit/detail/btree_map_core.hpp:527-570 | in preorder one node comes before another when the other lies below it, or neither does and it stands to the left; in postorder when it lies below the other, or neither does and it stands to the left |
| Bst.OrderedMap.Clear | include/memkit/detail/btree_map_core.hpp:174-187 | clear empties the map and gives every node back |
| Bst.OrderedMap.InitFreeList | include/memkit/detail/btree_map_core.hpp:296-306 | afterwards the free list threads the whole pool |
| Bst.OrderedMap.Init | include/memkit/detail/btree_map_core.hpp:70-91 | init refuses an empty pool and otherwise gives an empty map |
| Bst.InsertLookup | include/memkit/detail/btree_map_core.hpp:431-457 | insertion is a map update for keys the comparator does not tell apart |
| Bst.RemoveLookup | include/memkit/detail/btree_map_core.hpp:459-513 | removal makes exactly the keys equal to the given one absent |
| Bst.InsertSorted | include/memkit/detail/btree_map_core.hpp:431-457 | insertion at its rank keeps the sequence strictly sorted |
| Bst.RepReplace | include/memkit/detail/btree_map_core.hpp:452-456 | writing one link replaces the subtree that hangs off it and nothing else |
| Bst.SpliceGather | include/memkit/detail/btree_map_core.hpp:474-496 | copying the successor over the target and dropping its node is dropping the target from the sequence |
| Wheel.TimerWheel.Schedule | include/memkit/detail/timer_wheel_core.hpp:46-62 | schedule answers ok exactly when the delay is positive, the callback set and no timer of the node waits, and then arms one timer, in the bucket of its 32-bit deadline; otherwise it answers invalid and changes nothing |
| Wheel.TimerWheel.Cancel | include/memkit/detail/timer_wheel_core.hpp:64-73 | cancel unlinks the node from whatever list it is in, also the one a dispatch has set aside, and ends its timer and no other |
| Wheel.TimerWheel.Tick | include/memkit/detail/timer_wheel_core.hpp:75-88 | ticking the buckets fires just what the list of armed timers says, tick by tick, as long as dispatches end, and the time moves by the number of ticks |
| Wheel.TimerWheel.DispatchBucket | include/memkit/detail/timer_wheel_core.hpp:91-117 | a dispatch that can end does, and fires the ready timers in the order they were armed, while callbacks arm and cancel others |
| Wheel.TimerWheel.StepFront | include/memkit/detail/timer_wheel_core.hpp:94-110 | the front of the bucket is the earliest armed ready timer, or is set aside |
| Wheel.TimerWheel.Restore | include/memkit/detail/timer_wheel_core.hpp:112-116 | what was set aside goes back to the bucket in order |
| Wheel.TimerWheel.Perform | include/memkit/detail/timer_wheel_core.hpp:103-105 | the actions of a callback take effect one after the other |
| Wheel.TimerWheel.constructor | include/memkit/detail/timer_wheel_core.hpp:33-40 | a new wheel has empty buckets and has not ticked |
| Wheel.FrontIsEarliest | include/memkit/detail/timer_wheel_core.hpp:94-103 | bucket order is arming order |
| WheelSpec.TimersExact | include/memkit/detail/timer_wheel_core.hpp:46-117 | over every run whose dispatches end a timer fires at one tick, once, unless cancelled before: at the tick it is armed exactly when a callback arms it and it is ready at once, and otherwise at its due tick exactly when no multiple of 2^32 lies between its first visit and its due tick |
| WheelSpec.ActExact | include/memkit/detail/timer_wheel_core.hpp:46-73 | what scheduling and cancelling answer and change, for every node and delay |
| WheelSpec.ActAllConcat | include/memkit/detail/timer_wheel_core.hpp:103-105 | a callback may issue its actions in one go or in parts |
| WheelSpec.ActAllOne | include/memkit/detail/timer_wheel_core.hpp:103-105 | each action of a callback takes effect, before those that follow |
| WheelSpec.TwoActionsExample | include/memkit/detail/timer_wheel_core.hpp:103-105 | a callback that cancels one node and arms another does both |
| WheelSpec.EarlyExample | include/memkit/detail/timer_wheel_core.hpp:46-117 | a timer armed 32 ticks before the tick count wraps, for 48 ticks on, fires after 16: the run that does it |
| WheelSpec.DispatchedAfter | include/memkit/detail/timer_wheel_core.hpp:91-117 | all ways to run a dispatch to its end lead to one state |
| WheelSpec.CalmEnds | include/memkit/detail/timer_wheel_core.hpp:91-117 | a dispatch ends when no callback arms a timer that is ready at once |
| WheelSpec.PeriodicEnds | include/memkit/detail/timer_wheel_core.hpp:94-110 | a dispatch with a callback that rearms its own node with one period, whatever other timers wait, ends exactly when that node is not ready or the period is not ready at once |
| WheelSpec.FiringOrder | include/memkit/detail/timer_wheel_core.hpp:94-110 | over every run whose dispatches end timers fire in the order of their ticks, and those of one tick in the order they were armed |
| WheelSpec.FirstReady | include/memkit/detail/timer_wheel_core.hpp:103-103 | which tick first passes the comparison of 32-bit deadline and tick count, for every arming tick and delay |
| WheelSpec.FiringProgress | include/memkit/detail/timer_wheel_core.hpp:94-110 | each firing leaves fewer ready timers when no callback arms one that is ready at once |
| WheelSpec.PeriodicDispatch | include/memkit/detail/timer_wheel_core.hpp:94-110 | after any number of firings of such a dispatch that node is ready exactly when it has not fired yet or its period is ready at once |
| WheelSpec.ImmediateIff | include/memkit/detail/timer_wheel_core.hpp:58-60 | a period is ready at once exactly when it is a whole number of rounds and carries the deadline past 2^32 |
| WheelSpec.DispatchKeepsInv | include/memkit/detail/timer_wheel_core.hpp:91-117 | a dispatch that ends keeps every timer timely and the log in order, whatever its callbacks arm and cancel |
| Hooks.HookPool.Erase | include/memkit/detail/intrusive_hook.hpp:106-114 | erasing a hook takes it out of whatever list holds it and leaves the others; an unlinked hook is left alone |
| Hooks.HookPool.PushBack | include/memkit/detail/intrusive_hook.hpp:101-104 | pushing appends the hook to that list and leaves the others |
| Hooks.HookPool.PushFront | include/memkit/detail/intrusive_hook.hpp:96-99 | pushing in front makes the hook the first of that list and leaves the others |
| Hooks.HookPool.InsertAfter | include/memkit/detail/intrusive_hook.hpp:118-124 | behind any hook of any list, or behind a sentinel, the hook joins that list at that place and leaves the others |
| Hooks.HookedInsert | include/memkit/detail/intrusive_hook.hpp:118-124 | the four links written splice one cycle, in both directions, and leave all other cycles |
| Hooks.HookPool.IsLinked | include/memkit/detail/intrusive_hook.hpp:25-25 | a hook is linked exactly when some list holds it |
| Hooks.HookPool.IsEmpty | include/memkit/detail/intrusive_hook.hpp:88-88 | a list is empty exactly when its sentinel links to itself |
| Hooks.HookPool.Front | include/memkit/detail/intrusive_hook.hpp:90-91 | the hook behind the sentinel is the first of the list |
| Hooks.HookedErase | include/memkit/detail/intrusive_hook.hpp:106-114 | the two neighbours are joined in both directions and all other cycles are untouched |
| Hooks.ClearExact | include/memkit/detail/intrusive_hook.hpp:116-116 | clearing a list keeps all hooks consistent exactly when the list was empty |
| Hooks.ClearAllExact | include/memkit/detail/intrusive_hook.hpp:116-116 | clearing all lists keeps all hooks consistent exactly when all were empty |
| Spsc.Safety | include/memkit/detail/spsc_queue_core.hpp:70-121 | for the policies that refuse when full, in every interleaving head <= tail <= head + capacity, the slot written is never the slot read, and what is popped is a prefix of what is pushed |
| Spsc.Answers | include/memkit/detail/spsc_queue_core.hpp:70-137 | what each answer means when it is given: full and empty are exact, a pop and a peek yield the next value |
| Spsc.PopsWhatIsPassed | include/memkit/detail/spsc_queue_core.hpp:70-121 | in every interleaving, for every policy, the values pushed are those that callers pass to the pushes admitted, in order; without the overwrite policy what is popped are the first of them |
| Spsc.PushLifetime | include/memkit/detail/spsc_queue_core.hpp:70-95 | a push is admitted exactly when there is room or it overwrites, and otherwise answers full; it keeps its value and leaves with ok |
| Spsc.PushAnswers | include/memkit/detail/spsc_queue_core.hpp:76-94 | a push alone with room answers ok and appends its value; without room, by a policy that refuses, it answers full |
| Spsc.PopAnswers | include/memkit/detail/spsc_queue_core.hpp:97-137 | a pop or a peek alone yields the next value, or finds the queue empty |
| Spsc.NeverStuck | include/memkit/detail/spsc_queue_core.hpp:92-120 | a copy that has begun ends with ok |
| Spsc.StepKeepsInv | include/memkit/detail/spsc_queue_core.hpp:70-137 | a step of either thread, overwriting pushes included, keeps slots, positions and histories consistent exactly when it is not one at which an overwriting push and the consumer collide |
| Spsc.SoundIffRaceFree | include/memkit/detail/spsc_queue_core.hpp:70-137 | a schedule is consistent throughout exactly when it is free of such collisions |
| Spsc.RefusingIsRaceFree | include/memkit/detail/spsc_queue_core.hpp:79-90 | for the policies that refuse when full every schedule is |
| Spsc.OverwritingSafety | include/memkit/detail/spsc_queue_core.hpp:70-121 | an overwriting queue keeps the same bounds on every schedule free of collisions, and what is popped at a position is what was pushed there |
| Spsc.TornExample | include/memkit/detail/spsc_queue_core.hpp:79-121 | an overwriting push beside a pop: the pop takes the element that is only being pushed, and it is still in the queue |
| Spsc.HeadGoesBackExample | include/memkit/detail/spsc_queue_core.hpp:79-121 | an overwriting push beside two pops: the head goes back to an element already popped |
| Spsc.OverwriteKeepsNewest | include/memkit/detail/spsc_queue_core.hpp:79-88 | with no step of the consumer in between, an overwriting push keeps the last `capacity` elements |
| Ring.RingBuffer.PushBack | include/memkit/detail/ring_buffer_core.hpp:147-204 | push_back appends, after growing or dropping the oldest element when full; every failure and what it leaves; no block of up to half the address space is outgrown |
| Ring.RingBuffer.PushFront | include/memkit/detail/ring_buffer_core.hpp:206-249 | push_front prepends, after growing or dropping the newest element when full; every failure and what it leaves |
| Ring.RingBuffer.PopFront | include/memkit/detail/ring_buffer_core.hpp:251-266 | pop_front yields and drops the first element |
| Ring.RingBuffer.PopBack | include/memkit/detail/ring_buffer_core.hpp:268-285 | pop_back yields and drops the last element |
| Ring.RingBuffer.PeekFront | include/memkit/detail/ring_buffer_core.hpp:287-298 | peek_front yields the first element |
| Ring.RingBuffer.PeekBack | include/memkit/detail/ring_buffer_core.hpp:300-312 | peek_back yields the last element |
| Ring.RingBuffer.PeekAt | include/memkit/detail/ring_buffer_core.hpp:314-325 | peek_at yields the element at a position |
| Ring.RingBuffer.SetAt | include/memkit/detail/ring_buffer_core.hpp:327-342 | set_at changes the element at a position and no other, or reports the failed copy |
| Ring.RingBuffer.Reserve | include/memkit/detail/ring_buffer_core.hpp:363-374 | on success the capacity reaches the request; the elements never change; which byte count the allocator is asked for, whether the block holds the new capacity, and whether the copy runs past its end |
| Ring.RingBuffer.EnsureRoom | include/memkit/detail/ring_buffer_core.hpp:513-529 | afterwards there is room or the reason why not, also at the largest count; the elements never change |
| Ring.RingBuffer.Relinearize | include/memkit/detail/ring_buffer_core.hpp:531-600 | moving to a larger array at any wrap position keeps the elements; the block granted holds the new capacity exactly when the product does not overflow, and the copy runs past its end exactly when the elements need more bytes |
| Ring.RingBuffer.RequestExact | include/memkit/detail/ring_buffer_core.hpp:537-537 | the byte count asked for is the one needed exactly when the product does not overflow |
| Ring.RequestExample | include/memkit/detail/ring_buffer_core.hpp:363-374 | with elements of 8 bytes, reserving 2^61 + 1 of them asks for no bytes |
| Ring.RingBuffer.ReadableContiguous | include/memkit/detail/ring_buffer_core.hpp:388-404 | the count returned is the contiguous run exactly when the contents do not run past the end |
| Ring.RingBuffer.WritableContiguous | include/memkit/detail/ring_buffer_core.hpp:406-433 | the count returned is the contiguous run exactly when the contents begin at the first slot, or an unsigned difference happens to be its own opposite |
| Ring.RingBuffer.CommitRead | include/memkit/detail/ring_buffer_core.hpp:435-453 | commit_read drops the first elements |
| Ring.RingBuffer.CommitWrite | include/memkit/detail/ring_buffer_core.hpp:455-468 | commit_write takes in what was written behind the head, as far as it fits; it divides by zero exactly on a reset ring with a positive count |
| Ring.RingBuffer.Clear | include/memkit/detail/ring_buffer_core.hpp:130-145 | clear empties the ring |
| Ring.RingBuffer.ResetState | include/memkit/detail/ring_buffer_core.hpp:96-107 | a reset ring has no capacity and no elements |
| Ring.RingBuffer.Init | include/memkit/detail/ring_buffer_core.hpp:72-94 | init refuses an empty storage and otherwise gives an empty ring |
| Ring.RingBuffer.HeadIsTailPlusCount | include/memkit/detail/ring_buffer_core.hpp:201-202 | head is (tail + count) modulo the capacity in every valid state |
| Ring.GrowCapacity | include/memkit/detail/growable_storage.hpp:19-34 | the result is the first doubling that suffices, or just the request when doubling would overflow |
| Ring.ByteRing.PushBytes | include/memkit/containers/byte_ring.hpp:113-138 | without overwriting as many bytes as fit are taken; with it the ring keeps the last `capacity` of all it was given |
| Ring.ByteRing.PopBytes | include/memkit/containers/byte_ring.hpp:140-165 | as many of the oldest bytes as wanted and present are moved out in order |
| Ring.ByteRing.PushByte | include/memkit/containers/byte_ring.hpp:103-106 | one byte is appended, refused, or displaces the oldest |
| Ring.ByteRing.PopByte | include/memkit/containers/byte_ring.hpp:108-111 | the oldest byte is moved out |
| BitStream.BitWriter.WriteBits | include/memkit/containers/bit_stream.hpp:148-173 | the field is laid over the bits at the position, most significant first; every other bit is unchanged |
| BitStream.BitReader.ReadBits | include/memkit/containers/bit_stream.hpp:51-73 | the value of the bits at the position, or the reason why not |
| BitStream.BitWriter.AlignToByte | include/memkit/containers/bit_stream.hpp:175-182 | zeros are written up to the next byte; this never fails |
| BitStream.BitReader.AlignToByte | include/memkit/containers/bit_stream.hpp:85-92 | the position moves to the next byte |
| BitStream.BitReader.SkipBits | include/memkit/containers/bit_stream.hpp:75-83 | the position moves on, if there are bits enough |
| BitStream.BitWriter.Reset | include/memkit/containers/bit_stream.hpp:135-141 | the buffer and the position are cleared |
| BitStream.BitsUpdate | include/memkit/containers/bit_stream.hpp:158-168 | masking one bit of one byte changes that bit of the stream only |
| BitStream.RoundTrip | include/memkit/containers/bit_stream.hpp:51-182 | for every list of fields and alignments that fits, reading with the same widths yields each value modulo 2^width and the same positions |
| BitStream.WriteExact | include/memkit/containers/bit_stream.hpp:148-173 | a field is accepted exactly when it has 1 to 32 bits and they fit; then those bits have its value modulo 2^width and no other changes |
| BitStream.ReadExact | include/memkit/containers/bit_stream.hpp:51-73 | a read is accepted exactly when it is of 1 to 32 bits and there are as many; its value has those bits |
| BitStream.AlignExact | include/memkit/containers/bit_stream.hpp:175-182 | aligning writes zeros up to the next multiple of 8 and nothing else |
| BitStream.ByteValue | include/memkit/containers/bit_stream.hpp:153-168 | the eight bits of a byte have its value, the first the most significant |
| BitStream.WrittenByte | include/memkit/containers/bit_stream.hpp:148-173 | a field of eight bits at the start of a byte becomes that byte, and no other changes |
| BitStream.WritesStayInWindow | include/memkit/containers/bit_stream.hpp:148-182 | a run of writes leaves every bit outside its window unchanged |
| BitStream.ValueRoundTrip | include/memkit/containers/bit_stream.hpp:60-67 | shifting the top bits of a value back together gives the value modulo 2^width |
| BitStream.AlignSucceeds | include/memkit/containers/bit_stream.hpp:85-92 | writer and reader align to the same next multiple of 8 |
| Dlist.List.InsertElement | include/memkit/detail/dlist_core.hpp:210-239 | insert_at inserts at that index, for every index up to the size |
| Dlist.List.InsertFront | include/memkit/detail/dlist_core.hpp:340-351 | insertion before the first element |
| Dlist.List.InsertBack | include/memkit/detail/dlist_core.hpp:353-364 | insertion after the last element |
| Dlist.List.RemoveElement | include/memkit/detail/dlist_core.hpp:241-258 | remove_at yields and removes the element at that index |
| Dlist.List.RemoveFirst | include/memkit/detail/dlist_core.hpp:260-271 | remove_first removes the first element that satisfies the predicate, or reports that none does |
| Dlist.List.PopFront | include/memkit/detail/dlist_core.hpp:155-161 | the first element is yielded and removed |
| Dlist.List.PopBack | include/memkit/detail/dlist_core.hpp:163-169 | the last element is yielded and removed |
| Dlist.List.PopNode | include/memkit/detail/dlist_core.hpp:516-535 | a node is unlinked and given back, unless copying its element out fails |
| Dlist.List.NodeAt | include/memkit/detail/dlist_core.hpp:537-556 | walking from the nearer end reaches the node at that index |
| Dlist.List.LinkFront | include/memkit/detail/dlist_core.hpp:462-472 | linking in front, in both directions |
| Dlist.List.LinkBack | include/memkit/detail/dlist_core.hpp:474-484 | linking behind, in both directions |
| Dlist.List.LinkBeforeNode | include/memkit/detail/dlist_core.hpp:486-496 | linking before a node, in both directions |
| Dlist.List.UnlinkNode | include/memkit/detail/dlist_core.hpp:498-514 | unlinking a node, in both directions |
| Dlist.List.AcquireNode | include/memkit/detail/dlist_core.hpp:383-396 | the head of the free list is taken |
| Dlist.List.ReleaseNode | include/memkit/detail/dlist_core.hpp:414-426 | the node becomes the head of the free list |
| Dlist.List.MakeNode | include/memkit/detail/dlist_core.hpp:433-453 | a node is taken and filled, or given back if the copy fails |
| Dlist.List.Clear | include/memkit/detail/dlist_core.hpp:139-150 | clear gives every node back |
| Dlist.List.InitFreeList | include/memkit/detail/dlist_core.hpp:371-381 | afterwards the free list threads the whole pool |
| Dlist.List.EveryNodeOwned | include/memkit/detail/dlist_core.hpp:371-431 | every node is in the list or in the free list and never in both |
| HandlePool.HandleLifetime | include/memkit/detail/handle_pool_core.hpp:110-213 | over every run after an acquisition the handle is accepted exactly while the releases of its slot since then are a multiple of 65535 |
| HandlePool.IssuedAccepted | include/memkit/detail/handle_pool_core.hpp:176-185 | an issued handle passes the generation test exactly in that case |
| HandlePool.OneAccepted | include/memkit/detail/handle_pool_core.hpp:137-147 | of the handles that name a slot, live or free, one passes the generation test, unless it is the invalid handle |
| HandlePool.UnissuedAccepted | include/memkit/detail/handle_pool_core.hpp:137-147 | for a free slot that handle has been issued before exactly when the slot has been released 65535 times |
| HandlePool.AcceptedIsCurrent | include/memkit/detail/handle_pool_core.hpp:137-147 | an accepted handle names a live slot exactly when it is the one its latest acquisition issued |
| HandlePool.IssuedNamesLive | include/memkit/detail/handle_pool_core.hpp:137-153 | an issued handle that is accepted names a live slot until the slot has been released 65535 times |
| HandlePool.FreshAccepts | include/memkit/detail/handle_pool_core.hpp:137-147 | a fresh pool of n slots accepts the handles 1 to n - 1 |
| HandlePool.GenerationBumps | include/memkit/detail/handle_pool_core.hpp:206-213 | generations cycle through 1 to 65535 |
| HandlePool.HandleParts | include/memkit/detail/handle_pool_core.hpp:95-108 | index and generation are recovered from the handle |
| HandlePool.Pool.Acquire | include/memkit/detail/handle_pool_core.hpp:110-135 | in any state what is popped, refused and written, and when the stack is read past its end; in a valid pool a free slot becomes live, and its handle is new and accepted |
| HandlePool.PopsFree | include/memkit/detail/handle_pool_core.hpp:122-133 | popping a valid stack takes a free slot, and keeps the rest exact |
| HandlePool.HandsOutTwice | include/memkit/detail/handle_pool_core.hpp:110-153 | after the release of a free slot while some slot is live, two acquisitions hand that slot out with one and the same handle |
| HandlePool.TwoOwnersExample | include/memkit/detail/handle_pool_core.hpp:110-153 | in a pool of two slots, one of them live, that happens at once |
| HandlePool.Pool.Release | include/memkit/detail/handle_pool_core.hpp:137-153 | for every handle: what is refused, what is written, and when the push lands past the stack; the stack stays sound exactly when the handle is refused or its slot is live, and then the pool is valid with that slot freed |
| HandlePool.Pool.IsValid | include/memkit/detail/handle_pool_core.hpp:176-185 | valid, and get, answer by the generation test |
| HandlePool.Pool.Partition | include/memkit/detail/handle_pool_core.hpp:195-204 | the free stack holds exactly the slots that are not live, each once |
| HandlePool.PushedTwice | include/memkit/detail/handle_pool_core.hpp:150-150 | a free slot that is pushed is listed twice |
| HandlePool.RoomIff | include/memkit/detail/handle_pool_core.hpp:150-150 | the stack has room for a push exactly when some slot is live |
| HandlePool.PushSound | include/memkit/detail/handle_pool_core.hpp:150-150 | a push keeps the stack in bounds and free of repetition exactly when the slot was live |
| HandlePool.Pool.Init | include/memkit/detail/handle_pool_core.hpp:56-73 | init refuses an empty pool and one of more than 65536 slots |
| HandlePool.Pool.ResetFreeList | include/memkit/detail/handle_pool_core.hpp:195-204 | generations are zero and the stack lists every slot |
| Arena.AllocateExact | include/memkit/memory/arena.hpp:65-107 | the block is the least aligned one above all that was handed out; out of memory means that block does not fit, also when aligning up wraps |
| Arena.Region.AllocateBlock | include/memkit/memory/arena.hpp:65-107 | all blocks since the last reset are aligned, inside the region and pairwise disjoint; when each error is reported |
| Arena.Region.CallocBlock | include/memkit/memory/arena.hpp:109-128 | a product that overflows is refused, and otherwise a block of that size is allocated and filled with zeros, and no other byte |
| Arena.Region.Reset | include/memkit/memory/arena.hpp:59-63 | afterwards no block is outstanding |
| Arena.AlignedIsLeast | include/memkit/memory/arena.hpp:88-89 | no aligned address lies between the offset and the block |
| Bits.AlignUpExact | include/memkit/detail/utility.hpp:10-14 | aligning up gives the least multiple at or above the value, or zero when that does not fit in a word |
| Bits.PowerOfTwoIff | include/memkit/detail/utility.hpp:29-32 | the mask test singles out the powers of two |
| Bits.ProductFits | include/memkit/detail/utility.hpp:39-42 | the multiplication test is exact |
| Bits.MaskIsModulo | include/memkit/detail/spsc_queue_core.hpp:82-92 | masking a position with a power of two less one is taking it modulo the capacity |
| Heap.PriorityQueue.Push | include/memkit/detail/pqueue_core.hpp:113-135 | for any queue, in order or not, and any copy that fails: what is answered, which elements are in the queue and when it is in order |
| Heap.PushInOrderIff | include/memkit/detail/pqueue_core.hpp:113-135 | with copies that succeed, a push leaves the queue in order, and answers ok, exactly when elements can be swapped or the new one is not less than the parent of its place |
| Heap.PriorityQueue.Pop | include/memkit/detail/pqueue_core.hpp:137-179 | for any queue and any copy that fails: what is answered and copied out, which elements remain and when they are in order; out of a queue in order a least element is copied |
| Heap.PopInOrderIff | include/memkit/detail/pqueue_core.hpp:137-179 | with copies that succeed, a pop leaves the queue in order, and answers ok, exactly when elements can be swapped or the last element is not greater than a remaining child of the root |
| Heap.OversizedExamples | include/memkit/detail/pqueue_core.hpp:246-252 | a push and a pop of elements of 257 bytes that answer invalid and leave the queue out of order |
| Heap.LosingExample | include/memkit/detail/pqueue_core.hpp:253-262 | a push whose last copy fails loses the element and leaves another one twice |
| Heap.PriorityQueue.SiftUp | include/memkit/detail/pqueue_core.hpp:275-290 | sifting up ends; whether it answers ok, restores the order and keeps every element, by the number of swaps it takes and of copies that succeed |
| Heap.PriorityQueue.SiftDown | include/memkit/detail/pqueue_core.hpp:292-316 | the same of sifting down |
| Heap.UpOrder | include/memkit/detail/pqueue_core.hpp:275-290 | sifting up ends in order exactly when it answers ok or the failed copy is the last of a swap |
| Heap.DownOrder | include/memkit/detail/pqueue_core.hpp:292-316 | the same of sifting down |
| Heap.UpElements | include/memkit/detail/pqueue_core.hpp:275-290 | sifting up keeps every element, except that when the last copy of a swap fails the sifted one gives way to a second copy of another |
| Heap.DownElements | include/memkit/detail/pqueue_core.hpp:292-316 | the same of sifting down |
| Heap.PriorityQueue.SwapElements | include/memkit/detail/pqueue_core.hpp:246-273 | two elements change places, unless they are too large for the swap buffer of a run-time policy or one of its three copies fails; the third failure overwrites one with the other |
| Heap.PriorityQueue.Peek | include/memkit/detail/pqueue_core.hpp:181-192 | peek yields the root, a least element of a queue in order |
| Heap.PriorityQueue.Clear | include/memkit/detail/pqueue_core.hpp:103-111 | clear empties the queue |
| Heap.PriorityQueue.PopAll | include/memkit/detail/pqueue_core.hpp:137-179 | popping until empty yields a sorted permutation of everything in the queue, when elements can be swapped and copies succeed |
| Heap.PoppingSorts | include/memkit/detail/pqueue_core.hpp:137-179 | elements taken away least first come out sorted, and are all there were |
| Heap.TopIsLeast | include/memkit/detail/pqueue_core.hpp:181-202 | in a heap nothing is less than the root |
| SparseSet.IdSet.Insert | include/memkit/detail/sparse_set_core.hpp:62-75 | an id below the limit joins the set, whatever the arrays held before; the dense array never overflows |
| SparseSet.IdSet.Remove | include/memkit/detail/sparse_set_core.hpp:77-91 | the id leaves the set; the last id takes its place |
| SparseSet.IdSet.Contains | include/memkit/detail/sparse_set_core.hpp:52-60 | the two-way test is set membership |
| SparseSet.IdSet.Clear | include/memkit/detail/sparse_set_core.hpp:98-98 | clear empties the set by forgetting the size |
| SparseSet.IdSet.Listing | include/memkit/detail/sparse_set_core.hpp:93-96 | the dense prefix lists the set without repetition |
| SparseSet.IdSet.Init | include/memkit/detail/sparse_set_core.hpp:23-38 | init refuses a limit of zero and leaves the arrays as they are |
| SparseSet.RoomForMissing | include/memkit/detail/sparse_set_core.hpp:71-73 | while an id is missing the dense prefix is not full |

## Left out

- Memory management: heap, arena-backed and dynamic variants of the pools, ownership flags, moves and destructors. The pools, arrays and tables are given.
- Element layout: byte strides, alignment of elements, placement construction and raw copies; a slot is a typed array cell.
- The C interface and the null checks on pointer arguments.
- Memory orders: atomics are sequentially consistent steps.
- Width of sizes and positions, except where it decides the outcome (arena, handles, timers, growth, the size counter of open addressing): they are unbounded, so a queue position that wraps round 2^64 and a load test whose product overflows are not modelled.
- Key equality coarser than equality of keys, in the two hash maps and the LRU cache.
- Mpsc.StepKeepsInv: is about typed elements, whose copies cannot fail; `pop` asks the policy for a move that the run-time policy does not offer. `clear` is a sequence of pops.
- Spsc.StepKeepsInv: does not model `clear`, which stores zero in both positions, nor a pop without a destination.
- Wheel.TimerWheel.Tick: asks that the dispatches end, which the code cannot do without, and does not model a callback that ticks the wheel itself. The number of slots divides 2^32, as a power of two up to that bound does.
- Ring.RingBuffer.Relinearize: tells that the block is too small, and that the copy runs past it, but not what lies behind it; contents are those written.
- Hooks.HookPool.InsertAfter: the singly linked intrusive list is not modelled.
- Heap.PriorityQueue.Push: a growable queue's wrapper makes room first; its reallocation is not modelled.
- Visiting a doubly linked list, which adds nothing to its walks.
- Easier siblings: list, vector, object pool, flat map, bit set, enum map, double buffer, token bucket, running statistics, lookup table, small string and buffer, fixed variant and I/O vector.
