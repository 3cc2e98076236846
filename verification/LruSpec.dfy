/** What an LRU cache is: a list of key/value pairs, most recently used first.

    The linked implementation in Lru.dfy refines these functions. Here are the
    laws of the abstract cache, over every sequence of operations. */
module LruSpec {
  import opened Common
  import opened Links

  // `lost` counts pool entries that no list can reach any more: one is lost
  // each time a copy fails after its entry was taken from the list's end.
  datatype Cache<K(==), V> = Cache(capacity: nat, lost: nat, entries: seq<(K, V)>)

  predicate Has<K(==), V>(es: seq<(K, V)>, key: K) {
    exists i :: 0 <= i < |es| && es[i].0 == key
  }

  ghost predicate DistinctKeys<K, V>(es: seq<(K, V)>) {
    forall i, j :: 0 <= i < j < |es| ==> es[i].0 != es[j].0
  }

  // The first position of a key, or the length when the key is absent.
  function Find<K(==), V>(es: seq<(K, V)>, key: K): (i: nat)
    ensures i <= |es|
    ensures i < |es| ==> es[i].0 == key
    ensures forall j :: 0 <= j < i ==> es[j].0 != key
  {
    if es == [] then 0 else if es[0].0 == key then 0 else 1 + Find(es[1..], key)
  }

  function Lookup<K(==), V>(es: seq<(K, V)>, key: K): Option<V> {
    var i := Find(es, key);
    if i < |es| then Some(es[i].1) else None
  }

  function Without<K(==), V>(es: seq<(K, V)>, key: K): seq<(K, V)> {
    var i := Find(es, key);
    if i < |es| then RemoveAt(es, i) else es
  }

  // Move the key to the front, with the given value.
  function Touched<K(==), V>(es: seq<(K, V)>, key: K): seq<(K, V)> {
    var i := Find(es, key);
    if i < |es| then [es[i]] + RemoveAt(es, i) else es
  }

  // keyCopy and valueCopy tell whether the policies' copies succeed.
  function Put<K(==), V>(c: Cache<K, V>, key: K, value: V, keyCopy: bool, valueCopy: bool): (Status, Cache<K, V>) {
    var es := c.entries;
    if Has(es, key) then
      if valueCopy then (Ok, c.(entries := [(key, value)] + Without(es, key))) else (CopyFailed, c)
    else if |es| + c.lost < c.capacity then
      if keyCopy && valueCopy then (Ok, c.(entries := [(key, value)] + es)) else (CopyFailed, c)
    else if |es| < c.capacity || es == [] then
      (Full, c)
    else if keyCopy && valueCopy then
      (Ok, c.(entries := [(key, value)] + es[..|es| - 1]))
    else
      (CopyFailed, c.(entries := es[..|es| - 1], lost := c.lost + 1))
  }

  ghost predicate WellFormed<K, V>(c: Cache<K, V>) {
    && 0 < c.capacity
    && DistinctKeys(c.entries)
    && |c.entries| + c.lost <= c.capacity
  }

  // The operations a client can issue; a store and a get tell whether their
  // copies succeed.
  datatype Op<K, V> =
    | Get(key: K, copied: bool)
    | Peek(key: K)
    | Store(key: K, value: V, keyCopy: bool, valueCopy: bool)
    | Touch(key: K)
    | Remove(key: K)
    | Clear

  predicate Copying<K, V>(ops: seq<Op<K, V>>) {
    forall i :: 0 <= i < |ops| && ops[i].Store? ==> ops[i].keyCopy && ops[i].valueCopy
  }

  function Apply<K(==), V>(c: Cache<K, V>, op: Op<K, V>): Cache<K, V> {
    match op
    case Get(k, copied) => if copied then c.(entries := Touched(c.entries, k)) else c
    case Peek(_) => c
    case Store(k, v, keyCopy, valueCopy) => Put(c, k, v, keyCopy, valueCopy).1
    case Touch(k) => c.(entries := Touched(c.entries, k))
    case Remove(k) => c.(entries := Without(c.entries, k))
    case Clear => c.(entries := [])
  }

  function Run<K(==), V>(capacity: nat, ops: seq<Op<K, V>>): Cache<K, V> {
    if ops == [] then Cache(capacity, 0, [])
    else Apply(Run(capacity, ops[..|ops| - 1]), ops[|ops| - 1])
  }

  lemma LookupAt<K, V>(es: seq<(K, V)>, i: nat)
    requires DistinctKeys(es) && i < |es|
    ensures Find(es, es[i].0) == i && Lookup(es, es[i].0) == Some(es[i].1)
  {
  }

  lemma PutWellFormed<K, V>(c: Cache<K, V>, key: K, value: V, keyCopy: bool, valueCopy: bool)
    requires WellFormed(c)
    ensures WellFormed(Put(c, key, value, keyCopy, valueCopy).1)
  {
    if Has(c.entries, key) {
      WithoutKeys(c.entries, key);
    }
  }

  lemma WithoutKeys<K, V>(es: seq<(K, V)>, key: K)
    requires DistinctKeys(es)
    ensures DistinctKeys(Without(es, key)) && !Has(Without(es, key), key)
    ensures forall k :: k != key ==> Lookup(Without(es, key), k) == Lookup(es, k)
  {
    var i, es' := Find(es, key), Without(es, key);
    assert forall j :: 0 <= j < |es'| ==> es'[j] == es[if j < i then j else j + 1];
    forall k | k != key
      ensures Lookup(es', k) == Lookup(es, k)
    {
      var j := Find(es, k);
      if j < |es| && i < |es| {
        assert es'[if j < i then j else j - 1] == es[j];
        LookupAt(es', if j < i then j else j - 1);
      }
    }
  }

  lemma LookupPush<K, V>(es: seq<(K, V)>, key: K, value: V, other: K)
    ensures Lookup([(key, value)] + es, other) == if other == key then Some(value) else Lookup(es, other)
  {
    var es' := [(key, value)] + es;
    assert es'[1..] == es;
  }

  lemma LookupDropLast<K, V>(es: seq<(K, V)>, other: K)
    requires es != [] && DistinctKeys(es)
    ensures Lookup(es[..|es| - 1], other) ==
            if Find(es, other) == |es| - 1 then None else Lookup(es, other)
  {
    var i, es' := Find(es, other), es[..|es| - 1];
    assert forall j :: 0 <= j < |es'| ==> es'[j] == es[j];
    if i < |es'| {
      LookupAt(es', i);
    }
  }

  // What a put leaves behind, when copies succeed: the value stored is the
  // value found, every other value found is the old one, and the only other
  // key that can disappear is the least recently used one of a full cache.
  lemma PutLookup<K, V>(c: Cache<K, V>, key: K, value: V, other: K)
    requires WellFormed(c)
    ensures var (st, c') := Put(c, key, value, true, true);
            var es, es' := c.entries, c'.entries;
            && (st == Ok <==> Has(es, key) || c.lost == 0 || |es| + c.lost < c.capacity)
            && (st == Full ==> c' == c)
            && (st == Ok ==>
                  Lookup(es', other) ==
                  if other == key then Some(value)
                  else if !Has(es, key) && |es| == c.capacity && other == es[|es| - 1].0 then None
                  else Lookup(es, other))
  {
    var es := c.entries;
    if Has(es, key) {
      WithoutKeys(es, key);
      LookupPush(Without(es, key), key, value, other);
    } else if |es| + c.lost < c.capacity {
      LookupPush(es, key, value, other);
    } else if |es| == c.capacity {
      LookupPush(es[..|es| - 1], key, value, other);
      LookupDropLast(es, other);
      LookupAt(es, |es| - 1);
    }
  }

  lemma TouchedKeys<K, V>(es: seq<(K, V)>, key: K)
    requires DistinctKeys(es)
    ensures DistinctKeys(Touched(es, key)) && |Touched(es, key)| == |es|
    ensures forall k :: Lookup(Touched(es, key), k) == Lookup(es, k)
    ensures Has(es, key) ==> Touched(es, key)[0].0 == key
  {
    var i := Find(es, key);
    if i < |es| {
      WithoutKeys(es, key);
      forall k
        ensures Lookup(Touched(es, key), k) == Lookup(es, k)
      {
        LookupPush(Without(es, key), key, es[i].1, k);
      }
    }
  }

  // A store that takes the tail of a full cache for a new key, and cannot fill it.
  predicate Loses<K(==), V>(c: Cache<K, V>, op: Op<K, V>) {
    op.Store? && !Has(c.entries, op.key) && |c.entries| == c.capacity && !(op.keyCopy && op.valueCopy)
  }

  function Losses<K(==), V>(capacity: nat, ops: seq<Op<K, V>>): nat {
    if ops == [] then 0
    else
      var before, op := ops[..|ops| - 1], ops[|ops| - 1];
      Losses(capacity, before) + if Loses(Run(capacity, before), op) then 1 else 0
  }

  // Every reachable cache has distinct keys and respects its capacity, and the
  // slots lost are the stores that lost them, at most one.
  lemma {:induction false} RunWellFormed<K, V>(capacity: nat, ops: seq<Op<K, V>>)
    requires 0 < capacity
    ensures var c := Run(capacity, ops);
            WellFormed(c) && c.capacity == capacity && c.lost == Losses(capacity, ops) <= 1
  {
    if ops != [] {
      var before, op := ops[..|ops| - 1], ops[|ops| - 1];
      RunWellFormed(capacity, before);
      ApplyWellFormed(Run(capacity, before), op);
    }
  }

  lemma ApplyWellFormed<K, V>(c: Cache<K, V>, op: Op<K, V>)
    requires WellFormed(c)
    ensures WellFormed(Apply(c, op)) && Apply(c, op).capacity == c.capacity
    ensures Apply(c, op).lost == c.lost + if Loses(c, op) then 1 else 0
  {
    match op
    case Get(k, _) => TouchedKeys(c.entries, k);
    case Touch(k) => TouchedKeys(c.entries, k);
    case Remove(k) => WithoutKeys(c.entries, k);
    case Store(k, v, keyCopy, valueCopy) => PutWellFormed(c, k, v, keyCopy, valueCopy);
    case _ =>
  }

  predicate LosesAt<K(==), V>(capacity: nat, ops: seq<Op<K, V>>, n: nat)
    requires n < |ops|
  {
    Loses(Run(capacity, ops[..n]), ops[n])
  }

  // A run loses no slot exactly when none of its stores fails to fill the slot
  // of an evicted tail.
  lemma {:induction false} NothingLostIff<K, V>(capacity: nat, ops: seq<Op<K, V>>)
    requires 0 < capacity
    ensures Run(capacity, ops).lost == 0 <==> forall n :: 0 <= n < |ops| ==> !LosesAt(capacity, ops, n)
  {
    if ops != [] {
      var m := |ops| - 1;
      NothingLostIff(capacity, ops[..m]);
      RunWellFormed(capacity, ops[..m]);
      ApplyWellFormed(Run(capacity, ops[..m]), ops[m]);
      assert Run(capacity, ops).lost == 0 <==> Run(capacity, ops[..m]).lost == 0 && !LosesAt(capacity, ops, m);
      forall n | 0 <= n < m
        ensures LosesAt(capacity, ops[..m], n) == LosesAt(capacity, ops, n)
      {
        assert ops[..m][..n] == ops[..n];
      }
    }
  }

  lemma CopyingLosesNothing<K, V>(capacity: nat, ops: seq<Op<K, V>>)
    requires 0 < capacity && Copying(ops)
    ensures Run(capacity, ops).lost == 0
  {
    NothingLostIff(capacity, ops);
    assert forall n :: 0 <= n < |ops| ==> !LosesAt(capacity, ops, n);
  }

  // A lost slot stays lost. From then on no put evicts anything, and with the
  // other slots taken a put of an absent key answers Full, with the cache
  // holding one entry less than its capacity.
  lemma {:induction false} AfterLoss<K, V>(capacity: nat, ops: seq<Op<K, V>>, more: seq<Op<K, V>>)
    requires 0 < capacity && Run(capacity, ops).lost > 0
    ensures var c := Run(capacity, ops + more);
            && c.lost == 1 && |c.entries| < capacity
            && forall k, v, keyCopy, valueCopy :: !Has(c.entries, k) ==>
                 var (st, c') := Put(c, k, v, keyCopy, valueCopy);
                 && (st == Full <==> |c.entries| == capacity - 1) && (st != Ok ==> c' == c)
                 && (st == Ok ==> c'.entries == [(k, v)] + c.entries)
    decreases |more|
  {
    RunWellFormed(capacity, ops + more);
    if more == [] {
      assert ops + more == ops;
    } else {
      var m := |more| - 1;
      AfterLoss(capacity, ops, more[..m]);
      assert (ops + more)[..|ops + more| - 1] == ops + more[..m];
    }
  }

  // One failed copy is enough to lose the only slot of a cache of one: it is
  // empty, and answers Full to every put.
  lemma OneLossExample(key: int, value: int, keyCopy: bool, valueCopy: bool)
    ensures var c := Run(1, [Store(1, 10, true, true), Store(2, 20, true, false)]);
            c == Cache(1, 1, []) && Put(c, key, value, keyCopy, valueCopy) == (Full, c)
  {
    var first: Op<int, int>, second: Op<int, int> := Store(1, 10, true, true), Store(2, 20, true, false);
    var none: seq<Op<int, int>> := [];
    assert [first, second][..1] == [first] && [first][..0] == none;
    assert Run(1, [first]) == Apply(Run(1, none), first) == Cache(1, 0, [(1, 10)]);
    assert Run(1, [first, second]) == Apply(Run(1, [first]), second);
  }

  // What a put answers, with every outcome of its copies: ok exactly when the
  // value stored is then found, and otherwise no key has a new value.
  lemma PutAnswers<K, V>(c: Cache<K, V>, key: K, value: V, keyCopy: bool, valueCopy: bool)
    requires WellFormed(c)
    ensures var (st, c') := Put(c, key, value, keyCopy, valueCopy);
            var es, present := c.entries, Has(c.entries, key);
            && (st == Full <==> !present && |es| + c.lost == c.capacity && c.lost > 0)
            && (st == CopyFailed <==> st != Full && !(valueCopy && (present || keyCopy)))
            && (st == Ok || st == Full || st == CopyFailed)
            && (st == Ok ==> (st, c') == Put(c, key, value, true, true) && Lookup(c'.entries, key) == Some(value))
            && (st != Ok ==> c'.entries == (if Loses(c, Store(key, value, keyCopy, valueCopy)) then es[..|es| - 1] else es))
  {
    PutLookup(c, key, value, key);
  }

  // ---- Last uses ----

  // A get and a touch use their key, and so does a store whose value is copied.
  predicate Uses<K(==), V>(op: Op<K, V>, key: K) {
    match op
    case Get(k, copied) => copied && k == key
    case Touch(k) => k == key
    case Store(k, _, _, valueCopy) => valueCopy && k == key
    case _ => false
  }

  // The number of the operation that used a key last, counted from 1, or 0.
  function LastUse<K(==), V>(ops: seq<Op<K, V>>, key: K): (n: nat)
    ensures n <= |ops|
  {
    if ops == [] then 0
    else if Uses(ops[|ops| - 1], key) then |ops|
    else LastUse(ops[..|ops| - 1], key)
  }

  // The value last copied in a store of the key.
  function LastStored<K(==), V>(ops: seq<Op<K, V>>, key: K): Option<V> {
    if ops == [] then None
    else
      var op := ops[|ops| - 1];
      if op.Store? && op.valueCopy && op.key == key then Some(op.value) else LastStored(ops[..|ops| - 1], key)
  }

  ghost predicate ByLastUse<K, V>(es: seq<(K, V)>, ops: seq<Op<K, V>>) {
    && (forall i :: 0 <= i < |es| ==> LastUse(ops, es[i].0) > 0 && LastStored(ops, es[i].0) == Some(es[i].1))
    && (forall i, j :: 0 <= i < j < |es| ==> LastUse(ops, es[i].0) > LastUse(ops, es[j].0))
  }

  // Entries that an operation does not use stay in order behind the one it does.
  lemma UnusedStay<K, V>(es: seq<(K, V)>, ops: seq<Op<K, V>>, op: Op<K, V>)
    requires ByLastUse(es, ops) && forall i :: 0 <= i < |es| ==> !Uses(op, es[i].0)
    ensures ByLastUse(es, ops + [op])
    ensures forall e: (K, V) :: Uses(op, e.0) && LastStored(ops + [op], e.0) == Some(e.1) ==> ByLastUse([e] + es, ops + [op])
  {
    assert (ops + [op])[..|ops|] == ops;
    assert forall i :: 0 <= i < |es| ==> LastUse(ops + [op], es[i].0) == LastUse(ops, es[i].0);
    forall e: (K, V) | Uses(op, e.0) && LastStored(ops + [op], e.0) == Some(e.1)
      ensures ByLastUse([e] + es, ops + [op])
    {
      var es' := [e] + es;
      assert forall i :: 0 < i < |es'| ==> es'[i] == es[i - 1];
    }
  }

  lemma WithoutByLastUse<K, V>(es: seq<(K, V)>, ops: seq<Op<K, V>>, key: K)
    requires ByLastUse(es, ops) && DistinctKeys(es)
    ensures ByLastUse(Without(es, key), ops) && forall i :: 0 <= i < |Without(es, key)| ==> Without(es, key)[i].0 != key
  {
    var k, es' := Find(es, key), Without(es, key);
    WithoutKeys(es, key);
    assert forall i :: 0 <= i < |es'| ==> es'[i] == es[if i < k then i else i + 1];
  }

  lemma ApplyByLastUse<K, V>(c: Cache<K, V>, ops: seq<Op<K, V>>, op: Op<K, V>)
    requires WellFormed(c) && ByLastUse(c.entries, ops)
    ensures ByLastUse(Apply(c, op).entries, ops + [op])
  {
    var es := c.entries;
    assert (ops + [op])[..|ops|] == ops;
    match op
    case Get(k, _) => TouchByLastUse(es, ops, op);
    case Touch(k) => TouchByLastUse(es, ops, op);
    case Store(k, v, _, _) => PutByLastUse(c, ops, op);
    case Remove(k) =>
      WithoutByLastUse(es, ops, k);
      UnusedStay(Without(es, k), ops, op);
    case _ =>
      UnusedStay(Apply(c, op).entries, ops, op);
  }

  lemma TouchByLastUse<K, V>(es: seq<(K, V)>, ops: seq<Op<K, V>>, op: Op<K, V>)
    requires DistinctKeys(es) && ByLastUse(es, ops) && (op.Touch? || op.Get?)
    ensures ByLastUse(if Uses(op, op.key) then Touched(es, op.key) else es, ops + [op])
  {
    assert (ops + [op])[..|ops|] == ops;
    var i := Find(es, op.key);
    WithoutByLastUse(es, ops, op.key);
    if Uses(op, op.key) {
      UnusedStay(Without(es, op.key), ops, op);
      assert i < |es| ==> Touched(es, op.key) == [es[i]] + Without(es, op.key);
    } else {
      UnusedStay(es, ops, op);
    }
  }

  lemma PutByLastUse<K, V>(c: Cache<K, V>, ops: seq<Op<K, V>>, op: Op<K, V>)
    requires WellFormed(c) && ByLastUse(c.entries, ops) && op.Store?
    ensures ByLastUse(Apply(c, op).entries, ops + [op])
  {
    var es := c.entries;
    WithoutByLastUse(es, ops, op.key);
    if Has(es, op.key) && op.valueCopy {
      StoredInFront(Without(es, op.key), ops, op);
    } else if Has(es, op.key) {
      UnusedStay(es, ops, op);
    } else {
      StoredInFront(es, ops, op);
      if es != [] {
        StoredInFront(es[..|es| - 1], ops, op);
      }
    }
  }

  lemma StoredInFront<K, V>(es: seq<(K, V)>, ops: seq<Op<K, V>>, op: Op<K, V>)
    requires ByLastUse(es, ops) && op.Store? && !Has(es, op.key)
    ensures ByLastUse(es, ops + [op])
    ensures op.valueCopy ==> ByLastUse([(op.key, op.value)] + es, ops + [op])
  {
    UnusedStay(es, ops, op);
    if op.valueCopy {
      var e := (op.key, op.value);
      assert (ops + [op])[|ops|] == op;
      assert Uses(op, e.0) && LastStored(ops + [op], e.0) == Some(e.1);
    }
  }

  // Over every run, failing copies included, the entries are in the order of
  // their last use, latest first, and hold the values last stored.
  lemma {:induction false} EntriesByLastUse<K, V>(capacity: nat, ops: seq<Op<K, V>>)
    requires 0 < capacity
    ensures ByLastUse(Run(capacity, ops).entries, ops)
  {
    if ops != [] {
      var before, op := ops[..|ops| - 1], ops[|ops| - 1];
      EntriesByLastUse(capacity, before);
      RunWellFormed(capacity, before);
      ApplyByLastUse(Run(capacity, before), before, op);
      assert ops == before + [op];
    }
  }

  // So a store of an absent key into a full cache drops the key whose last use
  // is oldest, and no other: a key survives exactly when some key has been used
  // before it and not since.
  lemma EvictsOldest<K, V>(capacity: nat, ops: seq<Op<K, V>>, key: K, value: V, other: K)
    requires 0 < capacity && |Run(capacity, ops).entries| == capacity
    requires !Has(Run(capacity, ops).entries, key) && Has(Run(capacity, ops).entries, other)
    ensures var es, es' := Run(capacity, ops).entries, Run(capacity, ops + [Store(key, value, true, true)]).entries;
            && Lookup(es', key) == Some(value) && |es'| == capacity
            && (Has(es', other) <==> exists i :: 0 <= i < |es| && LastUse(ops, es[i].0) < LastUse(ops, other))
            && (Has(es', other) ==> Lookup(es', other) == Lookup(es, other))
  {
    var c, op := Run(capacity, ops), Store(key, value, true, true);
    var es, es', last := c.entries, Put(c, key, value, true, true).1.entries, capacity - 1;
    assert (ops + [op])[..|ops|] == ops;
    RunWellFormed(capacity, ops);
    EntriesByLastUse(capacity, ops);
    PutLookup(c, key, value, key);
    PutLookup(c, key, value, other);
    var i := Find(es, other);
    if i < last {
      assert LastUse(ops, es[last].0) < LastUse(ops, other);
    }
    HasIffLookup(es', other);
  }

  lemma HasIffLookup<K, V>(es: seq<(K, V)>, key: K)
    ensures Has(es, key) <==> Lookup(es, key).Some?
  {
  }

  lemma RunNext<K, V>(capacity: nat, ops: seq<Op<K, V>>, op: Op<K, V>)
    ensures Run(capacity, ops + [op]) == Apply(Run(capacity, ops), op)
  {
    assert (ops + [op])[..|ops|] == ops;
  }

  const STORE_TWO: seq<Op<int, int>> := [Store(1, 10, true, true)] + [Store(2, 20, true, true)]

  lemma TwoStored()
    ensures Run(2, STORE_TWO) == Cache(2, 0, [(2, 20), (1, 10)])
  {
    var none: seq<Op<int, int>> := [];
    assert none + [Store(1, 10, true, true)] == [Store(1, 10, true, true)];
    RunNext(2, none, Store(1, 10, true, true));
    RunNext(2, [Store(1, 10, true, true)], Store(2, 20, true, true));
  }

  // A cache of two: 1 and 2 are stored, 1 is read, and a store of 3 drops 2.
  lemma GetPromotesExample()
    ensures Run(2, STORE_TWO + [Get(1, true)] + [Store(3, 30, true, true)]).entries == [(3, 30), (1, 10)]
  {
    TwoStored();
    RunNext(2, STORE_TWO, Get(1, true));
    var es := [(2, 20), (1, 10)];
    assert Find(es[1..], 1) == 0 && Find(es, 1) == 1;
    RunNext(2, STORE_TWO + [Get(1, true)], Store(3, 30, true, true));
  }

  // Inclusion. On a common trace, a cache with one entry more holds the
  // smaller cache's entries in the same order, plus at most one other.

  ghost predicate AtMostOneMore<T>(small: seq<T>, big: seq<T>) {
    small == big || exists j :: 0 <= j < |big| && small == RemoveAt(big, j)
  }

  // Removing positions i and j in either order leaves the same list.
  lemma RemoveTwo<T>(xs: seq<T>, i: nat, j: nat)
    requires i < |xs| && j < |xs| && i != j
    ensures var i', j' := if j < i then i - 1 else i, if i < j then j - 1 else j;
            RemoveAt(RemoveAt(xs, j), i') == RemoveAt(RemoveAt(xs, i), j')
  {
  }

  lemma RemoveUnderPush<T>(x: T, xs: seq<T>, j: nat)
    requires j < |xs|
    ensures [x] + RemoveAt(xs, j) == RemoveAt([x] + xs, j + 1)
  {
  }

  lemma RemoveKeepsKeys<K, V>(es: seq<(K, V)>, k: nat)
    requires DistinctKeys(es) && k < |es|
    ensures DistinctKeys(RemoveAt(es, k))
  {
    var ds := RemoveAt(es, k);
    forall a, b | 0 <= a < b < |ds|
      ensures ds[a].0 != ds[b].0
    {
      var a', b' := if a < k then a else a + 1, if b < k then b else b + 1;
      assert ds[a] == es[a'] && ds[b] == es[b'];
    }
  }

  // Where key k of the larger cache sits in the smaller one.
  lemma FindInSmaller<K, V>(big: seq<(K, V)>, j: nat, i: nat)
    requires DistinctKeys(big) && j < |big| && i < |big| && i != j
    ensures var small := RemoveAt(big, j);
            var i' := if j < i then i - 1 else i;
            && DistinctKeys(small) && small[i'] == big[i]
            && Find(small, big[i].0) == i' && Find(big, big[i].0) == i
  {
    RemoveKeepsKeys(big, j);
    LookupAt(big, i);
    LookupAt(RemoveAt(big, j), if j < i then i - 1 else i);
  }

  lemma MissingInSmaller<K, V>(big: seq<(K, V)>, j: nat, key: K)
    requires DistinctKeys(big) && j < |big|
    requires !Has(big, key) || big[j].0 == key
    ensures !Has(RemoveAt(big, j), key) && Without(RemoveAt(big, j), key) == RemoveAt(big, j)
  {
  }

  // Deleting or promoting a key keeps the caches one entry apart.
  lemma WithoutKeepsInclusion<K, V>(small: seq<(K, V)>, big: seq<(K, V)>, key: K)
    requires DistinctKeys(big) && AtMostOneMore(small, big)
    ensures AtMostOneMore(Without(small, key), Without(big, key))
    ensures Has(small, key) ==> Has(big, key)
    ensures forall v :: Has(small, key) ==> AtMostOneMore([(key, v)] + Without(small, key), [(key, v)] + Without(big, key))
    ensures Lookup(small, key).Some? ==> Lookup(big, key) == Lookup(small, key)
  {
    if small != big {
      var j: nat :| j < |big| && small == RemoveAt(big, j);
      var i: nat := Find(big, key);
      if i == |big| || i == j {
        MissingInSmaller(big, j, key);
      } else {
        FindInSmaller(big, j, i);
        RemoveTwo(big, i, j);
        var j' := if i < j then j - 1 else j;
        assert Without(small, key) == RemoveAt(Without(big, key), j');
        forall v
          ensures AtMostOneMore([(key, v)] + Without(small, key), [(key, v)] + Without(big, key))
        {
          RemoveUnderPush((key, v), Without(big, key), j');
        }
      }
    }
  }

  lemma KeptKey<K, V>(big: seq<(K, V)>, j: nat, key: K)
    requires DistinctKeys(big) && j < |big| && Has(big, key)
    ensures Find(big, key) != j ==> Has(RemoveAt(big, j), key)
  {
    if Find(big, key) != j {
      FindInSmaller(big, j, Find(big, key));
    }
  }

  lemma TouchedKeepsInclusion<K, V>(small: seq<(K, V)>, big: seq<(K, V)>, key: K)
    requires DistinctKeys(big) && AtMostOneMore(small, big)
    ensures AtMostOneMore(Touched(small, key), Touched(big, key))
  {
    WithoutKeepsInclusion(small, big, key);
    var i := Find(big, key);
    if Has(small, key) {
      assert Touched(big, key) == [(key, big[i].1)] + Without(big, key);
      assert Touched(small, key) == [(key, big[i].1)] + Without(small, key);
    } else if i < |big| {
      var j: nat :| j < |big| && small == RemoveAt(big, j);
      KeptKey(big, j, key);
      assert small == RemoveAt(Touched(big, key), 0);
    }
  }

  lemma InsertKeepsInclusion<K, V>(small: seq<(K, V)>, big: seq<(K, V)>, capacity: nat, e: (K, V))
    requires 0 < capacity && |small| <= capacity && |big| <= capacity + 1
    requires AtMostOneMore(small, big)
    ensures AtMostOneMore(
              [e] + (if |small| < capacity then small else small[..|small| - 1]),
              [e] + (if |big| < capacity + 1 then big else big[..|big| - 1]))
  {
    var small' := [e] + (if |small| < capacity then small else small[..|small| - 1]);
    var big' := [e] + (if |big| < capacity + 1 then big else big[..|big| - 1]);
    if small == big {
      if |small| == capacity {
        assert small' == RemoveAt(big', capacity);
      }
    } else {
      var j: nat :| j < |big| && small == RemoveAt(big, j);
      if |small| < capacity {
        RemoveUnderPush(e, big, j);
      } else if j < capacity {
        assert small' == RemoveAt(big', j + 1);
      } else {
        assert small' == RemoveAt(big', capacity);
      }
    }
  }

  // A key that only the larger cache holds is new to the smaller one.
  lemma NewToSmaller<K, V>(small: seq<(K, V)>, big: seq<(K, V)>, key: K, value: V)
    requires DistinctKeys(big) && AtMostOneMore(small, big) && Has(big, key) && !Has(small, key)
    ensures Without(big, key) == small
    ensures small != [] ==>
              AtMostOneMore([(key, value)] + small[..|small| - 1], [(key, value)] + Without(big, key))
  {
    var j: nat :| j < |big| && small == RemoveAt(big, j);
    KeptKey(big, j, key);
    if small != [] {
      var big' := [(key, value)] + small;
      assert [(key, value)] + small[..|small| - 1] == RemoveAt(big', |small|);
    }
  }

  lemma PutKeepsInclusion<K, V>(small: Cache<K, V>, big: Cache<K, V>, key: K, value: V)
    requires WellFormed(small) && WellFormed(big) && big.capacity == small.capacity + 1
    requires small.lost == big.lost == 0
    requires AtMostOneMore(small.entries, big.entries)
    ensures AtMostOneMore(Put(small, key, value, true, true).1.entries, Put(big, key, value, true, true).1.entries)
  {
    var ss, bs := small.entries, big.entries;
    if Has(ss, key) {
      WithoutKeepsInclusion(ss, bs, key);
    } else if Has(bs, key) {
      NewToSmaller(ss, bs, key, value);
    } else {
      InsertKeepsInclusion(ss, bs, small.capacity, (key, value));
    }
  }

  lemma {:induction false} InclusionByOne<K, V>(capacity: nat, ops: seq<Op<K, V>>)
    requires 0 < capacity && Copying(ops)
    ensures AtMostOneMore(Run(capacity, ops).entries, Run(capacity + 1, ops).entries)
  {
    if ops != [] {
      var before, op := ops[..|ops| - 1], ops[|ops| - 1];
      InclusionByOne(capacity, before);
      RunWellFormed(capacity, before);
      RunWellFormed(capacity + 1, before);
      CopyingLosesNothing(capacity, before);
      CopyingLosesNothing(capacity + 1, before);
      var small, big := Run(capacity, before), Run(capacity + 1, before);
      match op
      case Get(k, _) => TouchedKeepsInclusion(small.entries, big.entries, k);
      case Touch(k) => TouchedKeepsInclusion(small.entries, big.entries, k);
      case Remove(k) => WithoutKeepsInclusion(small.entries, big.entries, k);
      case Store(k, v, _, _) => PutKeepsInclusion(small, big, k, v);
      case _ =>
    }
  }

  // xs can be obtained from ys by deleting elements.
  ghost predicate Subsequence<T>(xs: seq<T>, ys: seq<T>)
    decreases |ys|
  {
    if xs == [] then true
    else if ys == [] then false
    else (xs[0] == ys[0] && Subsequence(xs[1..], ys[1..])) || Subsequence(xs, ys[1..])
  }

  lemma {:induction false} SubsequenceRefl<T>(xs: seq<T>)
    ensures Subsequence(xs, xs)
  {
    if xs != [] {
      SubsequenceRefl(xs[1..]);
    }
  }

  lemma {:induction false} SubsequenceRemove<T>(xs: seq<T>, ys: seq<T>, j: nat)
    requires j < |ys| && Subsequence(xs, RemoveAt(ys, j))
    ensures Subsequence(xs, ys)
    decreases |ys|
  {
    var zs := RemoveAt(ys, j);
    if j == 0 {
      assert zs == ys[1..];
    } else if xs != [] {
      assert zs[0] == ys[0] && zs[1..] == RemoveAt(ys[1..], j - 1);
      if xs[0] == zs[0] && Subsequence(xs[1..], zs[1..]) {
        SubsequenceRemove(xs[1..], ys[1..], j - 1);
      } else {
        SubsequenceRemove(xs, ys[1..], j - 1);
      }
    }
  }

  lemma SubsequenceOneMore<T>(xs: seq<T>, ys: seq<T>, zs: seq<T>)
    requires Subsequence(xs, ys) && AtMostOneMore(ys, zs)
    ensures Subsequence(xs, zs)
  {
    if ys != zs {
      var j: nat :| j < |zs| && ys == RemoveAt(zs, j);
      SubsequenceRemove(xs, zs, j);
    }
  }

  ghost predicate Included<K, V>(small: seq<(K, V)>, large: seq<(K, V)>, key: K) {
    && Subsequence(small, large)
    && (Lookup(small, key).Some? ==> Lookup(large, key) == Lookup(small, key))
  }

  lemma IncludedInOneMore<K, V>(small: seq<(K, V)>, middle: seq<(K, V)>, large: seq<(K, V)>, key: K)
    requires Included(small, middle, key) && AtMostOneMore(middle, large) && DistinctKeys(large)
    ensures Included(small, large, key)
  {
    WithoutKeepsInclusion(middle, large, key);
    SubsequenceOneMore(small, middle, large);
  }

  ghost predicate OneMoreAt<K, V>(runs: seq<seq<(K, V)>>, n: nat)
    requires 0 < n < |runs|
  {
    AtMostOneMore(runs[n - 1], runs[n]) && DistinctKeys(runs[n])
  }

  lemma {:induction false} IncludedInMore<K, V>(runs: seq<seq<(K, V)>>, key: K)
    requires runs != [] && forall n :: 0 < n < |runs| ==> OneMoreAt(runs, n)
    ensures Included(runs[0], runs[|runs| - 1], key)
    decreases |runs|
  {
    if |runs| == 1 {
      SubsequenceRefl(runs[0]);
    } else {
      var n := |runs| - 1;
      assert OneMoreAt(runs, n);
      assert forall m :: 0 < m < n ==> OneMoreAt(runs[..n], m) == OneMoreAt(runs, m);
      IncludedInMore(runs[..n], key);
      IncludedInOneMore(runs[0], runs[n - 1], runs[n], key);
    }
  }

  function Runs<K(==), V>(small: nat, large: nat, ops: seq<Op<K, V>>): (runs: seq<seq<(K, V)>>)
    requires small <= large
  {
    seq(large - small + 1, n requires 0 <= n => Run(small + n, ops).entries)
  }

  lemma RunsOneMore<K, V>(small: nat, large: nat, ops: seq<Op<K, V>>)
    requires 0 < small <= large && Copying(ops)
    ensures var runs := Runs(small, large, ops);
            forall n :: 0 < n < |runs| ==> OneMoreAt(runs, n)
  {
    var runs := Runs(small, large, ops);
    forall n | 0 < n < |runs|
      ensures OneMoreAt(runs, n)
    {
      InclusionByOne(small + n - 1, ops);
      RunWellFormed(small + n, ops);
    }
  }

  // The inclusion law: on any trace whose copies succeed, whatever a cache
  // holds, a larger one holds too, with the same values and in the same relative
  // order; so every hit of the smaller cache is a hit of the larger one, with
  // the same answer.
  lemma Inclusion<K, V>(small: nat, large: nat, ops: seq<Op<K, V>>, key: K)
    requires 0 < small <= large && Copying(ops)
    ensures Included(Run(small, ops).entries, Run(large, ops).entries, key)
  {
    RunsOneMore(small, large, ops);
    IncludedInMore(Runs(small, large, ops), key);
  }
}
