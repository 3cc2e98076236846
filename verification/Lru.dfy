/** The LRU cache core: one pool of entries threaded by three kinds of lists.

    Each entry is a pool slot. `hashNext` links the slots of a hash bucket, or,
    for unused slots, the free list; `lruPrev` and `lruNext` link the recency
    list. Every operation is proved to act on the recency list as LruSpec says,
    and to keep the three structures consistent. */
module Lru {
  import opened Common
  import opened Links
  import LruSpec

  // ---- Which slot is in which list ----

  // No slot is in two of the recency list, the free list and the lost slots,
  // and together they are as many as the pool has slots.
  ghost predicate Partition(n: nat, order: seq<int>, free: seq<int>, lost: set<int>) {
    && (forall s {:trigger s in lost} :: s in lost ==> 0 <= s < n && s !in order)
    && (forall s {:trigger s in free} :: s in free ==> s !in order && s !in lost)
    && |order| + |free| + |lost| == n
  }

  // Buckets and recency list hold the same slots; each slot is in the bucket
  // its key hashes to, and no two hold the same key.
  ghost predicate Hashed<K, V>(order: seq<int>, chains: seq<seq<int>>, pairs: seq<(K, V)>, home: K -> nat) {
    && (forall s {:trigger s in order} :: s in order ==> 0 <= s < |pairs| && home(pairs[s].0) < |chains| && s in chains[home(pairs[s].0)])
    && (forall b, s {:trigger s in chains[b]} :: 0 <= b < |chains| && s in chains[b] ==> s in order && home(pairs[s].0) == b)
    && (forall s, t {:trigger s in order, t in order} :: s in order && t in order && s != t ==> pairs[s].0 != pairs[t].0)
  }

  // So every slot of the pool is in exactly one of the three.
  lemma EverySlotOwned(n: nat, order: seq<int>, free: seq<int>, lost: set<int>, s: int)
    requires Partition(n, order, free, lost)
    requires Distinct(order) && Distinct(free) && 0 <= s < n
    requires forall t :: t in order || t in free ==> 0 <= t < n
    ensures s in order || s in free || s in lost
  {
    var a, b := Members(order), Members(free);
    DistinctCardinality(order);
    DistinctCardinality(free);
    DisjointCardinality(a, b, lost);
    SlotsOfPool(n);
    assert forall t :: t in a + b + lost ==> t in PoolSlots(n);
    SubsetCardinality(a + b + lost, PoolSlots(n));
    assert s in PoolSlots(n);
  }

  // A free list that has taken in the whole recency list accounts for it.
  lemma AllFreed(n: nat, order: seq<int>, free: seq<int>, free': seq<int>, lost: set<int>)
    requires Partition(n, order, free, lost)
    requires Distinct(order) && Distinct(free) && Distinct(free')
    requires forall s :: s in free' <==> s in free || s in order
    ensures Partition(n, [], free', lost)
  {
    DistinctCardinality(order);
    DistinctCardinality(free);
    DistinctCardinality(free');
    assert Members(free') == Members(order) + Members(free);
    DisjointCardinality(Members(order), Members(free), {});
    assert Members(order) + Members(free) + {} == Members(free');
  }

  lemma DisjointCardinality(a: set<int>, b: set<int>, c: set<int>)
    requires a !! b && a !! c && b !! c
    ensures |a + b + c| == |a| + |b| + |c|
  {
    assert |a + b| == |a| + |b|;
    assert (a + b) !! c;
  }

  lemma SubsetCardinality(a: set<int>, b: set<int>)
    requires a <= b && |a| == |b|
    ensures a == b
  {
    assert b == a + (b - a) && a !! b - a;
    assert |b| == |a| + |b - a|;
  }

  lemma HashedDetach<K, V>(order: seq<int>, chains: seq<seq<int>>, pairs: seq<(K, V)>, home: K -> nat, i: nat, b: nat, p: nat)
    requires Hashed(order, chains, pairs, home)
    requires i < |order| && Distinct(order)
    requires b < |chains| && Distinct(chains[b]) && p < |chains[b]| && chains[b][p] == order[i]
    ensures Hashed(RemoveAt(order, i), chains[b := RemoveAt(chains[b], p)], pairs, home)
  {
    RemoveAtMembers(order, i);
    RemoveAtMembers(chains[b], p);
    var order', chains' := RemoveAt(order, i), chains[b := RemoveAt(chains[b], p)];
    assert order[i] in chains[b] && |chains'| == |chains|;
    forall s | s in order'
      ensures 0 <= s < |pairs| && s in chains'[home(pairs[s].0)]
    {
      assert s in order && s in chains[home(pairs[s].0)];
    }
    forall c, s | 0 <= c < |chains'| && s in chains'[c]
      ensures s in order' && home(pairs[s].0) == c
    {
      assert s in chains[c] && s in order;
    }
  }

  lemma HashedAttach<K, V>(order: seq<int>, chains: seq<seq<int>>, pairs: seq<(K, V)>, home: K -> nat, s: int)
    requires Hashed(order, chains, pairs, home)
    requires 0 <= s < |pairs| && s !in order
    requires home(pairs[s].0) < |chains|
    requires forall t :: t in order ==> pairs[t].0 != pairs[s].0
    ensures var b := home(pairs[s].0);
            Hashed(InsertAt(order, 0, s), chains[b := InsertAt(chains[b], 0, s)], pairs, home)
  {
    InsertAtMembers(order, 0, s);
    InsertAtMembers(chains[home(pairs[s].0)], 0, s);
  }

  lemma HashedFrame<K, V>(order: seq<int>, order': seq<int>, chains: seq<seq<int>>, pairs: seq<(K, V)>, pairs': seq<(K, V)>, home: K -> nat)
    requires Hashed(order, chains, pairs, home)
    requires forall s :: s in order' <==> s in order
    requires |pairs'| == |pairs|
    requires forall s :: s in order ==> pairs'[s].0 == pairs[s].0
    ensures Hashed(order', chains, pairs', home)
  {
  }

  // ---- The recency list as a list of entries ----

  lemma InRange<K, V>(order: seq<int>, chains: seq<seq<int>>, pairs: seq<(K, V)>, home: K -> nat)
    requires Hashed(order, chains, pairs, home)
    ensures forall i :: 0 <= i < |order| ==> 0 <= order[i] < |pairs|
  {
    assert forall i :: 0 <= i < |order| ==> order[i] in order;
  }

  lemma EntriesPromote<K, V>(order: seq<int>, pairs: seq<(K, V)>, i: nat)
    requires forall j :: 0 <= j < |order| ==> 0 <= order[j] < |pairs|
    requires i < |order|
    ensures var order', es := [order[i]] + RemoveAt(order, i), Gather(order, pairs);
            && (forall j :: 0 <= j < |order'| ==> 0 <= order'[j] < |pairs|)
            && Gather(order', pairs) == [es[i]] + RemoveAt(es, i)
  {
  }

  lemma EntriesRemove<K, V>(order: seq<int>, pairs: seq<(K, V)>, i: nat)
    requires forall j :: 0 <= j < |order| ==> 0 <= order[j] < |pairs|
    requires i < |order|
    ensures var order', es := RemoveAt(order, i), Gather(order, pairs);
            && (forall j :: 0 <= j < |order'| ==> 0 <= order'[j] < |pairs|)
            && Gather(order', pairs) == RemoveAt(es, i)
  {
  }

  lemma EntriesKeys<K, V>(order: seq<int>, chains: seq<seq<int>>, pairs: seq<(K, V)>, home: K -> nat)
    requires Hashed(order, chains, pairs, home) && Distinct(order)
    requires forall i :: 0 <= i < |order| ==> 0 <= order[i] < |pairs|
    ensures LruSpec.DistinctKeys(Gather(order, pairs))
  {
    assert forall i :: 0 <= i < |order| ==> order[i] in order;
  }

  // ---- All chains at once ----

  // No slot is in two buckets, or in a bucket and the free list.
  ghost predicate Apart(chains: seq<seq<int>>, free: seq<int>) {
    && (forall b, c, s :: 0 <= b < |chains| && 0 <= c < |chains| && s in chains[b] && s in chains[c] ==> b == c)
    && (forall b, s :: 0 <= b < |chains| && s in chains[b] ==> s !in free)
  }

  lemma ChainRemove(next: seq<int>, heads: seq<int>, chains: seq<seq<int>>, free: seq<int>, freeHead: int, b: nat, p: nat)
    requires AllLinked(next, heads, chains) && Linked(next, freeHead, free) && Apart(chains, free)
    requires b < |chains| && p < |chains[b]|
    ensures var s := chains[b][p];
            var heads' := if p == 0 then heads[b := next[s]] else heads;
            var next' := LinkOut(next, chains[b], p)[s := NIL];
            AllLinked(next', heads', chains[b := RemoveAt(chains[b], p)]) && Linked(next', freeHead, free)
  {
    var c, s := chains[b], chains[b][p];
    var out := LinkOut(next, c, p);
    var next' := out[s := NIL];
    LinkedDistinct(next, heads[b], c);
    LinkedRemove(next, heads[b], c, p);
    RemoveAtMembers(c, p);
    var heads' := if p == 0 then heads[b := next[s]] else heads;
    var chains' := chains[b := RemoveAt(c, p)];
    assert forall t :: t !in c ==> 0 <= t < |next| ==> next'[t] == next[t];
    forall d | 0 <= d < |chains'|
      ensures Linked(next', heads'[d], chains'[d])
    {
      if d == b {
        LinkedFrame(out, next', heads'[b], chains'[b]);
      } else {
        LinkedFrame(next, next', heads[d], chains[d]);
      }
    }
    LinkedFrame(next, next', freeHead, free);
  }

  lemma ChainPush(next: seq<int>, heads: seq<int>, chains: seq<seq<int>>, free: seq<int>, freeHead: int, b: nat, s: int)
    requires AllLinked(next, heads, chains) && Linked(next, freeHead, free)
    requires b < |chains| && 0 <= s < |next| && s !in free
    requires forall c :: 0 <= c < |chains| ==> s !in chains[c]
    ensures var next' := next[s := heads[b]];
            AllLinked(next', heads[b := s], chains[b := InsertAt(chains[b], 0, s)]) && Linked(next', freeHead, free)
  {
    var next' := next[s := heads[b]];
    LinkedInsert(next, heads[b], chains[b], 0, s);
    forall c | 0 <= c < |chains| && c != b
      ensures Linked(next', heads[c], chains[c])
    {
      LinkedFrame(next, next', heads[c], chains[c]);
    }
    LinkedFrame(next, next', freeHead, free);
  }

  lemma MovedToFront(next: seq<int>, head: int, xs: seq<int>, i: nat)
    requires Linked(next, head, xs) && i < |xs|
    ensures var rest := RemoveAt(xs, i);
            && xs[i] !in rest && [xs[i]] + rest == InsertAt(rest, 0, xs[i])
            && (forall s :: s in [xs[i]] + rest <==> s in xs)
    ensures head == xs[i] ==> [xs[i]] + RemoveAt(xs, i) == xs
  {
    LinkedDistinct(next, head, xs);
    RemoveAtMembers(xs, i);
    if head == xs[i] {
      assert i == 0;
    }
  }

  // Buckets hold recency slots only, each in one bucket.
  lemma HashedApart<K, V>(n: nat, order: seq<int>, free: seq<int>, lost: set<int>, chains: seq<seq<int>>, pairs: seq<(K, V)>, home: K -> nat)
    requires Partition(n, order, free, lost) && Hashed(order, chains, pairs, home)
    ensures Apart(chains, free)
  {
    forall b, s | 0 <= b < |chains| && s in chains[b]
      ensures s !in free
    {
      assert s in order;
    }
    forall b, c, s | 0 <= b < |chains| && 0 <= c < |chains| && s in chains[b] && s in chains[c]
      ensures b == c
    {
      assert s in order;
      assert home(pairs[s].0) == b && home(pairs[s].0) == c;
    }
  }

  // A lost slot is in no list.
  lemma HashedLost<K, V>(n: nat, order: seq<int>, free: seq<int>, lost: set<int>, chains: seq<seq<int>>, pairs: seq<(K, V)>, home: K -> nat, s: int)
    requires Partition(n, order, free, lost) && Hashed(order, chains, pairs, home)
    requires s in lost
    ensures s !in order && s !in free
    ensures forall b :: 0 <= b < |chains| ==> s !in chains[b]
  {
  }

  // Searching a bucket to its end rules the key out.
  lemma KeyAbsent<K, V>(order: seq<int>, chains: seq<seq<int>>, pairs: seq<(K, V)>, home: K -> nat, key: K)
    requires Hashed(order, chains, pairs, home)
    requires home(key) < |chains|
    requires var chain := chains[home(key)];
             forall j :: 0 <= j < |chain| ==> 0 <= chain[j] < |pairs| && pairs[chain[j]].0 != key
    ensures forall s :: s in order ==> pairs[s].0 != key
  {
  }

  // The first slot of a bucket moves to the front of the free list.
  lemma DrainStep(next: seq<int>, heads: seq<int>, chains: seq<seq<int>>, free: seq<int>, freeHead: int, b: nat)
    requires AllLinked(next, heads, chains) && Linked(next, freeHead, free) && Apart(chains, free)
    requires b < |chains| && chains[b] != []
    ensures var s, c := chains[b][0], chains[b];
            && s == heads[b] && 0 <= s < |next|
            && (forall x :: x in c <==> x == s || x in c[1..])
            && AllLinked(next[s := freeHead], heads[b := next[s]], chains[b := c[1..]])
            && Linked(next[s := freeHead], s, [s] + free)
            && Apart(chains[b := c[1..]], [s] + free)
  {
    var s, c := chains[b][0], chains[b];
    assert Linked(next, heads[b], c) && s in c;
    LinkedDistinct(next, heads[b], c);
    ChainRemove(next, heads, chains, free, freeHead, b, 0);
    assert RemoveAt(c, 0) == c[1..];
    var cleared := next[s := NIL];
    var next', chains' := next[s := freeHead], chains[b := c[1..]];
    assert cleared[s := freeHead] == next';
    assert forall x :: x in c <==> x == s || x in c[1..];
    LinkedInsert(cleared, freeHead, free, 0, s);
    assert InsertAt(free, 0, s) == [s] + free;
    AllLinkedFrame(cleared, next', heads[b := next[s]], chains');
    ApartDrain(chains, free, b, s);
  }

  lemma ApartDrain(chains: seq<seq<int>>, free: seq<int>, b: nat, s: int)
    requires Apart(chains, free) && b < |chains| && chains[b] != [] && Distinct(chains[b]) && s == chains[b][0]
    ensures Apart(chains[b := chains[b][1..]], [s] + free)
  {
    var chains' := chains[b := chains[b][1..]];
    assert s in chains[b];
    assert forall c, x :: 0 <= c < |chains| && x in chains'[c] ==> x in chains[c] && x != s;
  }

  // ---- The cache ----

  class LruCache<K(==), V> {
    const hash: K -> nat
    const capacity: nat
    const pairs: array<(K, V)>
    const hashNext: array<int>
    const lruPrev: array<int>
    const lruNext: array<int>
    const buckets: array<int>
    var lruHead: int
    var lruTail: int
    var freeList: int
    var size: nat

    ghost var order: seq<int>       // slots of the recency list, most recent first
    ghost var free: seq<int>        // slots of the free list
    ghost var lost: set<int>        // slots in no list
    ghost var chains: seq<seq<int>> // slots of each bucket

    ghost predicate Shape() {
      && 0 < capacity && 0 < buckets.Length
      && pairs.Length == hashNext.Length == lruPrev.Length == lruNext.Length == capacity
      && hashNext != lruPrev && hashNext != lruNext && hashNext != buckets
      && lruPrev != lruNext && lruPrev != buckets && lruNext != buckets
    }

    // The bucket of each key.
    ghost function Home(): K -> nat
      requires Shape()
    {
      k => hash(k) % buckets.Length
    }

    ghost predicate RecencyOk()
      reads `lruHead, `lruTail, `order, lruNext, lruPrev
    {
      DoublyLinked(lruNext[..], lruPrev[..], lruHead, lruTail, order)
    }

    ghost predicate ChainsOk()
      reads `freeList, `free, `chains, hashNext, buckets
    {
      AllLinked(hashNext[..], buckets[..], chains) && Linked(hashNext[..], freeList, free)
    }

    ghost predicate MembersOk()
      requires Shape()
      reads `order, `free, `lost, `chains, pairs
    {
      Partition(capacity, order, free, lost) && Hashed(order, chains, pairs[..], Home())
    }

    ghost predicate Valid()
      reads this, pairs, hashNext, lruPrev, lruNext, buckets
    {
      Shape() && RecencyOk() && ChainsOk() && MembersOk() && size == |order|
    }

    // The abstract cache this state stands for.
    ghost function Abstract(): LruSpec.Cache<K, V>
      requires Valid()
      reads this, pairs, hashNext, lruPrev, lruNext, buckets
    {
      InRange(order, chains, pairs[..], Home());
      LruSpec.Cache(capacity, |lost|, Gather(order, pairs[..]))
    }

    // Distinct keys, and size + free + lost = capacity.
    lemma Conservation()
      requires Valid()
      ensures LruSpec.WellFormed(Abstract())
      ensures size + |free| + |lost| == capacity
      ensures Distinct(order) && Distinct(free)
    {
      LinkedDistinct(lruNext[..], lruHead, order);
      LinkedDistinct(hashNext[..], freeList, free);
      EntriesKeys(order, chains, pairs[..], Home());
    }

    method LruUnlink(slot: int, ghost i: nat)
      requires Shape() && RecencyOk()
      requires i < |order| && order[i] == slot
      modifies `lruHead, `lruTail, `order, lruNext, lruPrev
      ensures RecencyOk() && order == RemoveAt(old(order), i)
    {
      Unlink(lruNext[..], lruPrev[..], lruHead, lruTail, order, i);
      ghost var next, prev := lruNext[..], lruPrev[..];
      if lruPrev[slot] != NIL {
        lruNext[lruPrev[slot]] := lruNext[slot];
      } else {
        lruHead := lruNext[slot];
      }
      if lruNext[slot] != NIL {
        lruPrev[lruNext[slot]] := lruPrev[slot];
      } else {
        lruTail := lruPrev[slot];
      }
      lruPrev[slot] := NIL;
      lruNext[slot] := NIL;
      assert lruNext[..] == Skip(next, prev[slot], next[slot])[slot := NIL];
      assert lruPrev[..] == Skip(prev, next[slot], prev[slot])[slot := NIL];
      order := RemoveAt(order, i);
    }

    method LruPushFront(slot: int)
      requires Shape() && RecencyOk()
      requires 0 <= slot < capacity && slot !in order
      modifies `lruHead, `lruTail, `order, lruNext, lruPrev
      ensures RecencyOk() && order == InsertAt(old(order), 0, slot)
    {
      LinkBefore(lruNext[..], lruPrev[..], lruHead, lruTail, order, 0, slot);
      ghost var next, prev := lruNext[..], lruPrev[..];
      lruPrev[slot] := NIL;
      lruNext[slot] := lruHead;
      if lruHead != NIL {
        lruPrev[lruHead] := slot;
      } else {
        lruTail := slot;
      }
      assert lruNext[..] == next[slot := lruHead];
      assert lruPrev[..] == Skip(prev[slot := NIL], lruHead, slot);
      lruHead := slot;
      order := InsertAt(order, 0, slot);
    }

    method HashUnlink(bucket: nat, slot: int, prev: int, ghost p: nat)
      requires Shape() && ChainsOk() && Apart(chains, free)
      requires bucket < |chains| && p < |chains[bucket]|
      requires chains[bucket][p] == slot && prev == At(chains[bucket], p - 1)
      modifies `chains, hashNext, buckets
      ensures ChainsOk() && chains == old(chains)[bucket := RemoveAt(old(chains[bucket]), p)]
    {
      ghost var next, heads, chain := hashNext[..], buckets[..], chains[bucket];
      ChainRemove(next, heads, chains, free, freeList, bucket, p);
      assert Linked(next, heads[bucket], chain);
      if prev == NIL {
        buckets[bucket] := hashNext[slot];
      } else {
        hashNext[prev] := hashNext[slot];
      }
      hashNext[slot] := NIL;
      assert hashNext[..] == LinkOut(next, chain, p)[slot := NIL];
      assert buckets[..] == if p == 0 then heads[bucket := next[slot]] else heads;
      chains := chains[bucket := RemoveAt(chain, p)];
    }

    method BucketOf(key: K) returns (bucket: nat)
      requires Shape()
      ensures bucket == Home()(key) == hash(key) % buckets.Length < buckets.Length
    {
      bucket := hash(key) % buckets.Length;
    }

    // The chain of the key's bucket is searched front to back.
    method FindEntry(key: K) returns (found: int, bucket: nat, prev: int, ghost p: nat)
      requires Shape() && ChainsOk()
      requires Hashed(order, chains, pairs[..], Home())
      ensures bucket == Home()(key) == hash(key) % buckets.Length < |chains|
      ensures found == NIL ==> forall s :: s in order ==> pairs[s].0 != key
      ensures found != NIL ==> found in order && pairs[found].0 == key
      ensures found != NIL ==> p < |chains[bucket]| && chains[bucket][p] == found && prev == At(chains[bucket], p - 1)
    {
      bucket := BucketOf(key);
      prev := NIL;
      found := buckets[bucket];
      p := 0;
      ghost var chain := chains[bucket];
      assert Linked(hashNext[..], buckets[bucket], chain);
      while found != NIL
        invariant p <= |chain|
        invariant found == At(chain, p) && prev == At(chain, p - 1)
        invariant forall j :: 0 <= j < p ==> pairs[chain[j]].0 != key
        decreases |chain| - p
      {
        assert chain[p] in chain;
        if pairs[found].0 == key {
          return;
        }
        assert hashNext[..][chain[p]] == At(chain, p + 1);
        prev := found;
        found := hashNext[found];
        p := p + 1;
      }
      KeyAbsent(order, chains, pairs[..], Home(), key);
    }

    method Promote(slot: int, ghost i: nat)
      requires Shape() && RecencyOk() && MembersOk()
      requires i < |order| && order[i] == slot && 0 <= slot < capacity
      modifies `lruHead, `lruTail, `order, lruNext, lruPrev
      ensures RecencyOk() && MembersOk()
      ensures order == [slot] + RemoveAt(old(order), i)
    {
      ghost var list := order;
      MovedToFront(lruNext[..], lruHead, order, i);
      if lruHead == slot {
        return;
      }
      LruUnlink(slot, i);
      LruPushFront(slot);
      HashedFrame(list, order, chains, pairs[..], pairs[..], Home());
    }

    method AcquireEntry() returns (slot: int)
      requires Shape() && ChainsOk() && MembersOk()
      modifies `freeList, `free, `lost, hashNext
      ensures ChainsOk() && MembersOk()
      ensures slot == At(old(free), 0)
      ensures slot == NIL ==> free == old(free) == [] && lost == old(lost)
      ensures slot != NIL ==> free == RemoveAt(old(free), 0) && lost == old(lost) + {slot} && 0 <= slot < capacity && slot !in old(lost) && slot !in order
    {
      if freeList == NIL {
        return NIL;
      }
      slot := freeList;
      ghost var next, list := hashNext[..], free;
      assert next[list[0]] == At(list, 1) && list[0] in list;
      HashedApart(capacity, order, free, lost, chains, pairs[..], Home());
      LinkedUnlink(next, freeList, list, 0);
      LinkedDistinct(next, freeList, list);
      RemoveAtMembers(list, 0);
      freeList := hashNext[slot];
      hashNext[slot] := NIL;
      free := RemoveAt(list, 0);
      lost := lost + {slot};
      AllLinkedFrame(next, hashNext[..], buckets[..], chains);
    }

    method ReleaseEntry(slot: int)
      requires Shape() && RecencyOk() && ChainsOk() && MembersOk()
      requires slot in lost && 0 <= slot < capacity
      modifies `freeList, `free, `lost, hashNext, lruPrev, lruNext
      ensures RecencyOk() && ChainsOk() && MembersOk()
      ensures free == [slot] + old(free) && lost == old(lost) - {slot}
    {
      ghost var next, lnext, lprev := hashNext[..], lruNext[..], lruPrev[..];
      HashedLost(capacity, order, free, lost, chains, pairs[..], Home(), slot);
      lruPrev[slot] := NIL;
      lruNext[slot] := NIL;
      hashNext[slot] := freeList;
      LinkedInsert(next, freeList, free, 0, slot);
      freeList := slot;
      DoublyLinkedFrame(lnext, lprev, lruNext[..], lruPrev[..], lruHead, lruTail, order);
      free := [slot] + free;
      lost := lost - {slot};
      AllLinkedFrame(next, hashNext[..], buckets[..], chains);
    }

    // Take the i-th entry out of the recency list and out of its bucket.
    method Detach(slot: int, bucket: nat, prev: int, ghost i: nat, ghost p: nat)
      requires Valid() && i < |order| && order[i] == slot
      requires bucket < |chains| && p < |chains[bucket]|
      requires chains[bucket][p] == slot && prev == At(chains[bucket], p - 1)
      modifies this, hashNext, lruPrev, lruNext, buckets
      ensures Valid()
      ensures order == RemoveAt(old(order), i) && free == old(free) && lost == old(lost) + {slot}
    {
      ghost var list, oldChains := order, chains;
      LinkedDistinct(lruNext[..], lruHead, order);
      LinkedDistinct(hashNext[..], buckets[bucket], chains[bucket]);
      HashedApart(capacity, order, free, lost, chains, pairs[..], Home());
      HashedDetach(order, chains, pairs[..], Home(), i, bucket, p);
      RemoveAtMembers(list, i);
      LruUnlink(slot, i);
      HashUnlink(bucket, slot, prev, p);
      size := size - 1;
      lost := lost + {slot};
    }

    method HashPushFront(bucket: nat, slot: int)
      requires Shape() && ChainsOk() && bucket < |chains|
      requires 0 <= slot < capacity && slot !in free && forall b :: 0 <= b < |chains| ==> slot !in chains[b]
      modifies `chains, hashNext, buckets
      ensures ChainsOk() && chains == old(chains)[bucket := InsertAt(old(chains[bucket]), 0, slot)]
    {
      ghost var next, heads := hashNext[..], buckets[..];
      ChainPush(next, heads, chains, free, freeList, bucket, slot);
      hashNext[slot] := buckets[bucket];
      buckets[bucket] := slot;
      chains := chains[bucket := InsertAt(chains[bucket], 0, slot)];
      assert hashNext[..] == next[slot := heads[bucket]] && buckets[..] == heads[bucket := slot];
    }

    // Link a prepared entry into its bucket and to the front of the recency list.
    method Attach(slot: int, bucket: nat)
      requires Valid() && slot in lost && 0 <= slot < capacity
      requires bucket == Home()(pairs[slot].0) < |chains|
      requires forall t :: t in order ==> pairs[t].0 != pairs[slot].0
      modifies this, hashNext, lruPrev, lruNext, buckets
      ensures Valid()
      ensures order == [slot] + old(order) && free == old(free) && lost == old(lost) - {slot}
    {
      HashedLost(capacity, order, free, lost, chains, pairs[..], Home(), slot);
      HashedAttach(order, chains, pairs[..], Home(), slot);
      HashPushFront(bucket, slot);
      LruPushFront(slot);
      size := size + 1;
      lost := lost - {slot};
    }

    // Where a slot of the recency list sits in the abstract cache.
    lemma Position(slot: int) returns (i: nat)
      requires Valid() && slot in order
      ensures i < |order| && order[i] == slot && 0 <= slot < capacity
      ensures var es := Abstract().entries;
              && i < |es| && es[i] == pairs[slot]
              && LruSpec.Find(es, pairs[slot].0) == i
              && LruSpec.Has(es, pairs[slot].0)
    {
      i :| 0 <= i < |order| && order[i] == slot;
      Conservation();
      LruSpec.LookupAt(Abstract().entries, i);
    }

    lemma Absent(key: K)
      requires Valid() && forall s :: s in order ==> pairs[s].0 != key
      ensures !LruSpec.Has(Abstract().entries, key)
      ensures LruSpec.Find(Abstract().entries, key) == |Abstract().entries|
    {
      assert forall i :: 0 <= i < |order| ==> order[i] in order;
    }

    // The search, seen on the abstract cache.
    method Locate(key: K) returns (found: int, bucket: nat, prev: int, ghost i: nat, ghost p: nat)
      requires Valid()
      ensures var es := Abstract().entries;
              && i == LruSpec.Find(es, key)
              && (found == NIL <==> i == |es|)
              && (found == NIL <==> !LruSpec.Has(es, key))
      ensures found != NIL ==> i < |order| && order[i] == found && found in order && 0 <= found < capacity && pairs[found] == Abstract().entries[i]
      ensures found != NIL ==> bucket < |chains| && p < |chains[bucket]| && chains[bucket][p] == found && prev == At(chains[bucket], p - 1)
    {
      found, bucket, prev, p := FindEntry(key);
      if found == NIL {
        Absent(key);
        i := |order|;
      } else {
        i := Position(found);
      }
    }

    // Promotion, seen on the abstract cache.
    method Use(slot: int, ghost i: nat)
      requires Valid() && i < |order| && order[i] == slot && 0 <= slot < capacity
      modifies this, lruNext, lruPrev
      ensures Valid()
      ensures var c := old(Abstract());
              Abstract() == c.(entries := [c.entries[i]] + RemoveAt(c.entries, i))
    {
      ghost var list := order;
      EntriesPromote(list, pairs[..], i);
      Promote(slot, i);
      assert order == [slot] + RemoveAt(list, i);
    }

    // Removal, seen on the abstract cache.
    method Drop(slot: int, bucket: nat, prev: int, ghost i: nat, ghost p: nat)
      requires Valid() && i < |order| && order[i] == slot && 0 <= slot < capacity
      requires bucket < |chains| && p < |chains[bucket]|
      requires chains[bucket][p] == slot && prev == At(chains[bucket], p - 1)
      modifies this, hashNext, lruPrev, lruNext, buckets
      ensures Valid() && slot in lost && slot !in old(lost) && lost == old(lost) + {slot} && free == old(free)
      ensures var es := old(Abstract().entries);
              Abstract().entries == RemoveAt(es, i)
    {
      ghost var list, before := order, lost;
      assert slot in order;
      Detach(slot, bucket, prev, i, p);
      assert Abstract().entries == Gather(RemoveAt(list, i), pairs[..]);
      EntriesRemove(list, pairs[..], i);
    }

    // Return a dropped entry to the free list.
    method Recycle(slot: int)
      requires Valid() && slot in lost && 0 <= slot < capacity
      modifies this, hashNext, lruPrev, lruNext
      ensures Valid() && lost == old(lost) - {slot}
      ensures Abstract().entries == old(Abstract().entries)
    {
      ReleaseEntry(slot);
    }

    method Discard(slot: int, bucket: nat, prev: int, ghost i: nat, ghost p: nat)
      requires Valid() && i < |order| && order[i] == slot && 0 <= slot < capacity
      requires bucket < |chains| && p < |chains[bucket]|
      requires chains[bucket][p] == slot && prev == At(chains[bucket], p - 1)
      modifies this, hashNext, lruPrev, lruNext, buckets
      ensures Valid()
      ensures var c := old(Abstract());
              Abstract() == c.(entries := RemoveAt(c.entries, i))
    {
      Drop(slot, bucket, prev, i, p);
      Recycle(slot);
      assert lost == old(lost);
    }

    method Touch(key: K) returns (st: Status)
      requires Valid()
      modifies this, lruNext, lruPrev
      ensures Valid()
      ensures var c, i := old(Abstract()), LruSpec.Find(old(Abstract().entries), key);
              if i == |c.entries| then st == NotFound && Abstract() == c
              else st == Ok && Abstract() == c.(entries := [c.entries[i]] + RemoveAt(c.entries, i))
      ensures Abstract() == LruSpec.Apply(old(Abstract()), LruSpec.Touch(key))
    {
      var found, _, _, i, _ := Locate(key);
      if found == NIL {
        return NotFound;
      }
      Use(found, i);
      return Ok;
    }

    // `copied` tells whether the value policy's copy to the caller succeeds.
    method Get(key: K, copied: bool) returns (st: Status, value: Option<V>)
      requires Valid()
      modifies this, lruNext, lruPrev
      ensures Valid()
      ensures var c, i := old(Abstract()), LruSpec.Find(old(Abstract().entries), key);
              if i == |c.entries| then st == NotFound && value == None && Abstract() == c
              else if !copied then st == CopyFailed && value == None && Abstract() == c
              else
                && st == Ok && value == Some(c.entries[i].1)
                && Abstract() == c.(entries := [c.entries[i]] + RemoveAt(c.entries, i))
      ensures Abstract() == LruSpec.Apply(old(Abstract()), LruSpec.Get(key, copied))
    {
      var found, _, _, i, _ := Locate(key);
      if found == NIL {
        return NotFound, None;
      }
      if !copied {
        return CopyFailed, None;
      }
      value := Some(pairs[found].1);
      Use(found, i);
      return Ok, value;
    }

    method Peek(key: K, copied: bool) returns (st: Status, value: Option<V>)
      requires Valid()
      ensures var es, i := Abstract().entries, LruSpec.Find(Abstract().entries, key);
              && st == (if i == |es| then NotFound else if copied then Ok else CopyFailed)
              && value == if i < |es| && copied then Some(es[i].1) else None
    {
      var found, _, _, _, _ := Locate(key);
      if found == NIL {
        return NotFound, None;
      }
      if !copied {
        return CopyFailed, None;
      }
      return Ok, Some(pairs[found].1);
    }

    method Contains(key: K) returns (present: bool)
      requires Valid()
      ensures present == LruSpec.Has(Abstract().entries, key)
    {
      var found, _, _, _, _ := Locate(key);
      return found != NIL;
    }

    method Remove(key: K) returns (st: Status)
      requires Valid()
      modifies this, hashNext, lruPrev, lruNext, buckets
      ensures Valid()
      ensures var c, i := old(Abstract()), LruSpec.Find(old(Abstract().entries), key);
              if i == |c.entries| then st == NotFound && Abstract() == c
              else st == Ok && Abstract() == c.(entries := RemoveAt(c.entries, i))
      ensures Abstract() == LruSpec.Apply(old(Abstract()), LruSpec.Remove(key))
    {
      var found, bucket, prev, i, p := Locate(key);
      if found == NIL {
        return NotFound;
      }
      Discard(found, bucket, prev, i, p);
      return Ok;
    }

    method Assign(slot: int, value: V, ghost i: nat)
      requires Valid() && i < |order| && order[i] == slot && 0 <= slot < capacity
      modifies pairs
      ensures Valid()
      ensures var c := old(Abstract());
              Abstract() == c.(entries := c.entries[i := (c.entries[i].0, value)])
    {
      ghost var before, es := pairs[..], Abstract().entries;
      Conservation();
      pairs[slot] := (pairs[slot].0, value);
      HashedFrame(order, order, chains, before, pairs[..], Home());
      assert forall j :: 0 <= j < |order| && j != i ==> order[j] != slot;
      assert Abstract().entries == es[i := (es[i].0, value)];
    }

    // A put that finds its key: assign the value and promote the entry.
    method Store(slot: int, value: V, ghost i: nat)
      requires Valid() && i < |order| && order[i] == slot && 0 <= slot < capacity
      modifies this, pairs, lruNext, lruPrev
      ensures Valid()
      ensures var c := old(Abstract());
              Abstract() == c.(entries := [(c.entries[i].0, value)] + RemoveAt(c.entries, i))
    {
      ghost var es := Abstract().entries;
      Assign(slot, value, i);
      Use(slot, i);
      assert RemoveAt(es[i := (es[i].0, value)], i) == RemoveAt(es, i);
    }

    // Take a slot from the free list, or evict the least recently used entry.
    method ClaimSlot() returns (slot: int, fromFree: bool)
      requires Valid()
      modifies this, hashNext, lruPrev, lruNext, buckets
      ensures Valid()
      ensures slot == NIL ==> lost == old(lost)
      ensures slot != NIL ==> 0 <= slot < capacity && slot in lost && slot !in old(lost) && lost == old(lost) + {slot}
      ensures var c := old(Abstract());
              && fromFree == (|c.entries| + c.lost < c.capacity)
              && (slot == NIL <==> !fromFree && (|c.entries| < c.capacity || c.entries == []))
              && Abstract().entries == if slot == NIL || fromFree then c.entries else c.entries[..|c.entries| - 1]
    {
      slot := AcquireEntry();
      fromFree := slot != NIL;
      if !fromFree && !(size < capacity || lruTail == NIL) {
        slot := Evict();
      }
    }

    method Evict() returns (slot: int)
      requires Valid() && lruTail != NIL
      modifies this, hashNext, lruPrev, lruNext, buckets
      ensures Valid() && 0 <= slot < capacity && slot in lost && slot !in old(lost) && lost == old(lost) + {slot}
      ensures free == old(free)
      ensures var es := old(Abstract().entries);
              es != [] && Abstract().entries == es[..|es| - 1]
    {
      var bucket, prev;
      ghost var p;
      slot, bucket, prev, p := LocateTail();
      Drop(slot, bucket, prev, |order| - 1, p);
      var es := old(Abstract().entries);
      assert RemoveAt(es, |es| - 1) == es[..|es| - 1];
    }

    method LocateTail() returns (slot: int, bucket: nat, prev: int, ghost p: nat)
      requires Valid() && lruTail != NIL
      ensures order != [] && order[|order| - 1] == slot && 0 <= slot < capacity
      ensures bucket < |chains| && p < |chains[bucket]|
      ensures chains[bucket][p] == slot && prev == At(chains[bucket], p - 1)
    {
      slot := lruTail;
      TailIsLast();
      ghost var j := Position(slot);
      var found;
      found, bucket, prev, j, p := Locate(pairs[slot].0);
    }

    lemma TailIsLast()
      requires Valid()
      ensures lruTail == At(order, |order| - 1)
      ensures lruTail != NIL ==> lruTail in order && order != []
    {
      assert lruTail == At(Reversed(order), 0);
    }

    // keyCopy and valueCopy tell whether the policies' copies succeed. A failed
    // copy puts a slot from the free list back, but not an evicted one.
    method PrepareEntry(key: K, value: V, keyCopy: bool, valueCopy: bool) returns (st: Status, slot: int)
      requires Valid()
      modifies this, pairs, hashNext, lruPrev, lruNext, buckets
      ensures Valid()
      ensures var c := old(Abstract());
              var copied := keyCopy && valueCopy;
              var room := |c.entries| + c.lost < c.capacity;
              if !room && (|c.entries| < c.capacity || c.entries == []) then
                st == Full && Abstract() == c
              else
                && st == (if copied then Ok else CopyFailed)
                && (copied ==> 0 <= slot < capacity && slot in lost && pairs[slot] == (key, value))
                && Abstract().entries == (if room then c.entries else c.entries[..|c.entries| - 1])
                && |lost| == c.lost + (if copied || !room then 1 else 0)
    {
      var fromFree;
      slot, fromFree := ClaimSlot();
      if slot == NIL {
        return Full, NIL;
      }
      if !keyCopy || !valueCopy {
        if fromFree {
          Recycle(slot);
        }
        return CopyFailed, NIL;
      }
      Fill(slot, key, value);
      return Ok, slot;
    }

    method Fill(slot: int, key: K, value: V)
      requires Valid() && slot in lost && 0 <= slot < capacity
      modifies pairs
      ensures Valid() && pairs[slot] == (key, value)
      ensures Abstract() == old(Abstract())
    {
      ghost var before := pairs[..];
      pairs[slot] := (key, value);
      HashedFrame(order, order, chains, before, pairs[..], Home());
      assert Abstract().entries == old(Abstract().entries);
    }

    // The prepared entry becomes the most recently used one.
    method Publish(slot: int)
      requires Valid() && slot in lost && 0 <= slot < capacity
      requires !LruSpec.Has(Abstract().entries, pairs[slot].0)
      modifies this, hashNext, lruPrev, lruNext, buckets
      ensures Valid() && |lost| == |old(lost)| - 1
      ensures Abstract().entries == [pairs[slot]] + old(Abstract().entries)
    {
      forall t | t in order
        ensures pairs[t].0 != pairs[slot].0
      {
        var i := Position(t);
      }
      ghost var list := order;
      var bucket := BucketOf(pairs[slot].0);
      Attach(slot, bucket);
      assert Abstract().entries == Gather([slot] + list, pairs[..]);
    }

    method Put(key: K, value: V, keyCopy: bool, valueCopy: bool) returns (st: Status)
      requires Valid()
      modifies this, pairs, hashNext, lruPrev, lruNext, buckets
      ensures Valid()
      ensures (st, Abstract()) == LruSpec.Put(old(Abstract()), key, value, keyCopy, valueCopy)
    {
      var existing, _, _, i, _ := Locate(key);
      if existing != NIL {
        if !valueCopy {
          return CopyFailed;
        }
        Store(existing, value, i);
        return Ok;
      }
      var slot;
      st, slot := PrepareEntry(key, value, keyCopy, valueCopy);
      if st != Ok {
        return st;
      }
      Publish(slot);
    }

    // Return every slot of one bucket to the free list.
    method ReleaseChain(bucket: nat)
      requires Shape() && ChainsOk() && Apart(chains, free) && bucket < |chains|
      modifies `freeList, `free, `chains, hashNext, lruPrev, lruNext, buckets
      ensures ChainsOk() && Apart(chains, free)
      ensures chains == old(chains)[bucket := []]
      ensures forall s :: s in free <==> s in old(free) || s in old(chains[bucket])
    {
      var current := buckets[bucket];
      ghost var rest, heads := chains[bucket], buckets[..];
      assert heads[bucket := current] == heads && chains[bucket := rest] == chains;
      while current != NIL
        invariant buckets[..] == heads && chains == old(chains)
        invariant AllLinked(hashNext[..], heads[bucket := current], chains[bucket := rest])
        invariant current == At(rest, 0)
        invariant Linked(hashNext[..], freeList, free)
        invariant Apart(chains[bucket := rest], free)
        invariant forall s :: s in free || s in rest <==> s in old(free) || s in chains[bucket]
        decreases |rest|
      {
        DrainStep(hashNext[..], heads[bucket := current], chains[bucket := rest], free, freeList, bucket);
        ghost var next, freeHead := hashNext[..], freeList;
        var following := hashNext[current];
        lruPrev[current] := NIL;
        lruNext[current] := NIL;
        hashNext[current] := freeList;
        freeList := current;
        assert hashNext[..] == next[current := freeHead];
        assert heads[bucket := current][bucket := following] == heads[bucket := following];
        assert chains[bucket := rest][bucket := rest[1..]] == chains[bucket := rest[1..]];
        free := [current] + free;
        rest := rest[1..];
        current := following;
      }
      assert Linked(hashNext[..], current, chains[bucket := rest][bucket]);
      buckets[bucket] := NIL;
      chains := chains[bucket := []];
      assert buckets[..] == heads[bucket := NIL];
    }

    method ReleaseAll()
      requires Shape() && ChainsOk() && Apart(chains, free)
      requires Hashed(order, chains, pairs[..], Home())
      modifies `freeList, `free, `chains, hashNext, lruPrev, lruNext, buckets
      ensures ChainsOk() && |chains| == |old(chains)|
      ensures forall b :: 0 <= b < |chains| ==> chains[b] == []
      ensures forall s :: s in free <==> s in old(free) || s in order
    {
      ghost var chainsBefore := chains;
      var i := 0;
      while i < buckets.Length
        invariant i <= buckets.Length == |chains| == |chainsBefore|
        invariant ChainsOk() && Apart(chains, free)
        invariant forall b :: 0 <= b < |chains| ==> chains[b] == if b < i then [] else chainsBefore[b]
        invariant forall s :: s in old(free) ==> s in free
        invariant forall s :: s in free ==> s in old(free) || s in order
        invariant forall b, s :: 0 <= b < i && s in chainsBefore[b] ==> s in free
      {
        ReleaseChain(i);
        i := i + 1;
      }
    }

    method FreeEverything()
      requires Valid()
      modifies `freeList, `free, `chains, hashNext, lruPrev, lruNext, buckets
      ensures ChainsOk() && |chains| == |old(chains)|
      ensures forall b :: 0 <= b < |chains| ==> chains[b] == []
      ensures Partition(capacity, [], free, lost)
    {
      Conservation();
      HashedApart(capacity, order, free, lost, chains, pairs[..], Home());
      ghost var freeBefore := free;
      ReleaseAll();
      LinkedDistinct(hashNext[..], freeList, free);
      AllFreed(capacity, order, freeBefore, free, lost);
    }

    method Clear()
      requires Valid()
      modifies this, hashNext, lruPrev, lruNext, buckets
      ensures Valid()
      ensures Abstract() == old(Abstract()).(entries := [])
      ensures Abstract() == LruSpec.Apply(old(Abstract()), LruSpec.Clear)
    {
      if size == 0 {
        return;
      }
      FreeEverything();
      lruHead := NIL;
      lruTail := NIL;
      size := 0;
      order := [];
    }

    // Follow one direction of the recency list. The visitor sees the entries
    // in order, up to and including the first one it does not accept.
    method Walk(visit: ((K, V)) -> Status, links: array<int>, first: int, ghost slots: seq<int>) returns (st: Status, visited: seq<(K, V)>)
      requires Linked(links[..], first, slots) && links.Length == pairs.Length
      ensures forall i :: 0 <= i < |slots| ==> 0 <= slots[i] < pairs.Length
      ensures visited <= Gather(slots, pairs[..])
      ensures forall i :: 0 <= i < |visited| - 1 ==> visit(visited[i]) == Ok
      ensures if st == Ok then |visited| == |slots| && forall e :: e in visited ==> visit(e) == Ok
              else visited != [] && visit(visited[|visited| - 1]) == st
    {
      ghost var es := Gather(slots, pairs[..]);
      var current := first;
      visited := [];
      while current != NIL
        invariant |visited| <= |slots| && current == At(slots, |visited|)
        invariant visited == es[..|visited|]
        invariant forall i :: 0 <= i < |visited| ==> visit(visited[i]) == Ok
        decreases |slots| - |visited|
      {
        assert links[..][slots[|visited|]] == At(slots, |visited| + 1);
        assert pairs[current] == es[|visited|];
        visited := visited + [pairs[current]];
        st := visit(pairs[current]);
        if st != Ok {
          return;
        }
        current := links[current];
      }
      return Ok, visited;
    }

    // foreach_mru and foreach_lru: the second visits the reverse of the first.
    method ForeachList(visit: ((K, V)) -> Status, mruOrder: bool) returns (st: Status, visited: seq<(K, V)>)
      requires Valid()
      ensures visited <= if mruOrder then Abstract().entries else Reversed(Abstract().entries)
      ensures forall i :: 0 <= i < |visited| - 1 ==> visit(visited[i]) == Ok
      ensures if st == Ok then |visited| == size && forall e :: e in visited ==> visit(e) == Ok
              else visited != [] && visit(visited[|visited| - 1]) == st
    {
      if mruOrder {
        st, visited := Walk(visit, lruNext, lruHead, order);
      } else {
        assert Reversed(Abstract().entries) == Gather(Reversed(order), pairs[..]);
        st, visited := Walk(visit, lruPrev, lruTail, Reversed(order));
      }
    }

    constructor (hash: K -> nat, pairs: array<(K, V)>, hashNext: array<int>, lruPrev: array<int>, lruNext: array<int>, buckets: array<int>)
      requires 0 < pairs.Length == hashNext.Length == lruPrev.Length == lruNext.Length && 0 < buckets.Length
      requires hashNext != lruPrev && hashNext != lruNext && hashNext != buckets
      requires lruPrev != lruNext && lruPrev != buckets && lruNext != buckets
      modifies hashNext, lruPrev, lruNext, buckets
      ensures Valid() && Abstract() == LruSpec.Cache(pairs.Length, 0, []) == LruSpec.Run(pairs.Length, [])
      ensures this.pairs == pairs && this.hashNext == hashNext && this.lruPrev == lruPrev && this.lruNext == lruNext && this.buckets == buckets
    {
      this.hash, this.capacity, this.pairs := hash, pairs.Length, pairs;
      this.hashNext, this.lruPrev, this.lruNext, this.buckets := hashNext, lruPrev, lruNext, buckets;
      lruHead, lruTail, freeList, size := NIL, NIL, NIL, 0;
      order, free, lost, chains := [], [], {}, seq(buckets.Length, _ => []);
      new;
      ResetFreeList();
    }

    // The caller supplies the entry pool and the buckets, with any contents.
    static method Init(hash: K -> nat, pairs: array<(K, V)>, hashNext: array<int>, lruPrev: array<int>, lruNext: array<int>, buckets: array<int>) returns (st: Status, cache: LruCache?<K, V>)
      requires pairs.Length == hashNext.Length == lruPrev.Length == lruNext.Length
      requires hashNext != lruPrev && hashNext != lruNext && hashNext != buckets
      requires lruPrev != lruNext && lruPrev != buckets && lruNext != buckets
      modifies hashNext, lruPrev, lruNext, buckets
      ensures st == if pairs.Length == 0 || buckets.Length == 0 then Invalid else Ok
      ensures st == Ok ==> cache != null && cache.Valid() && cache.Abstract() == LruSpec.Cache(pairs.Length, 0, []) == LruSpec.Run(pairs.Length, [])
    {
      if pairs.Length == 0 || buckets.Length == 0 {
        return Invalid, null;
      }
      cache := new LruCache(hash, pairs, hashNext, lruPrev, lruNext, buckets);
      return Ok, cache;
    }

    // Whatever the pool held before, all its slots become free.
    method ResetFreeList()
      requires Shape()
      modifies this, hashNext, lruPrev, lruNext, buckets
      ensures Valid() && order == [] && lost == {}
    {
      for i := 0 to buckets.Length
        invariant forall b :: 0 <= b < i ==> buckets[b] == NIL
      {
        buckets[i] := NIL;
      }
      freeList, lruHead, lruTail, size := NIL, NIL, NIL, 0;
      order, free, lost, chains := [], [], {}, seq(buckets.Length, _ => []);
      for i := 0 to capacity
        invariant |free| == i && forall s :: s in free ==> 0 <= s < i
        invariant Linked(hashNext[..], freeList, free)
        invariant order == [] && lost == {} && chains == seq(buckets.Length, _ => [])
        invariant lruHead == lruTail == NIL && size == 0
        invariant forall b :: 0 <= b < buckets.Length ==> buckets[b] == NIL
      {
        ghost var next := hashNext[..];
        LinkedInsert(next, freeList, free, 0, i);
        lruPrev[i] := NIL;
        lruNext[i] := NIL;
        hashNext[i] := freeList;
        assert hashNext[..] == LinkIn(next, free, 0, i);
        freeList := i;
        free := InsertAt(free, 0, i);
      }
    }
  }
}
