/** The doubly linked list core over a node pool. */
module Dlist {
  import opened Common
  import opened Links

  // The links of all nodes, with the nodes of the list in order and those of
  // the free list, which is threaded through `next`.
  datatype View = View(next: seq<int>, prev: seq<int>, head: int, tail: int, freeHead: int, order: seq<int>, free: seq<int>)

  ghost predicate Good(v: View) {
    && |v.next| == |v.prev|
    && DoublyLinked(v.next, v.prev, v.head, v.tail, v.order)
    && Linked(v.next, v.freeHead, v.free)
    && forall s :: s in v.free ==> s !in v.order
  }

  lemma OrderFrame(v: View, next': seq<int>, prev': seq<int>)
    requires Good(v) && |next'| == |v.next| && |prev'| == |v.prev|
    requires forall s :: s in v.order ==> next'[s] == v.next[s] && prev'[s] == v.prev[s]
    ensures DoublyLinked(next', prev', v.head, v.tail, v.order)
  {
    DoublyLinkedFrame(v.next, v.prev, next', prev', v.head, v.tail, v.order);
  }

  // The first free node is taken, its links cleared.
  function Taken(v: View): View
    requires v.free != [] && 0 <= v.free[0] < |v.next| == |v.prev|
  {
    var s := v.free[0];
    v.(next := v.next[s := NIL], prev := v.prev[s := NIL], freeHead := v.next[s], free := v.free[1..])
  }

  lemma Taking(v: View)
    requires Good(v) && v.free != []
    ensures v.freeHead == v.free[0] && 0 <= v.free[0] < |v.next|
    ensures Good(Taken(v)) && v.free[0] !in v.order && v.free[0] !in v.free[1..]
  {
    var s := v.free[0];
    assert s in v.free;
    LinkedDistinct(v.next, v.freeHead, v.free);
    LinkedUnlink(v.next, v.freeHead, v.free, 0);
    RemoveAtMembers(v.free, 0);
    assert RemoveAt(v.free, 0) == v.free[1..];
    OrderFrame(v, v.next[s := NIL], v.prev[s := NIL]);
  }

  function Returned(v: View, s: int): View
    requires 0 <= s < |v.next| == |v.prev|
  {
    v.(next := v.next[s := v.freeHead], prev := v.prev[s := NIL], freeHead := s, free := [s] + v.free)
  }

  lemma Returning(v: View, s: int)
    requires Good(v) && 0 <= s < |v.next| && s !in v.order && s !in v.free
    ensures Good(Returned(v, s))
  {
    LinkedInsert(v.next, v.freeHead, v.free, 0, s);
    assert InsertAt(v.free, 0, s) == [s] + v.free && LinkIn(v.next, v.free, 0, s) == v.next[s := v.freeHead];
    OrderFrame(v, v.next[s := v.freeHead], v.prev[s := NIL]);
  }

  // Node s is linked in at position i.
  function Inserted(v: View, i: nat, s: int): View
    requires i <= |v.order| && 0 <= s < |v.next| == |v.prev|
    requires -1 <= At(v.order, i - 1) < |v.next| && -1 <= At(v.order, i) < |v.prev|
  {
    var before, after := At(v.order, i - 1), At(v.order, i);
    v.(next := Skip(v.next[s := after], before, s), prev := Skip(v.prev[s := before], after, s),
       head := if before != NIL then v.head else s, tail := if after != NIL then v.tail else s,
       order := InsertAt(v.order, i, s))
  }

  lemma Inserting(v: View, i: nat, s: int)
    requires Good(v) && i <= |v.order| && 0 <= s < |v.next| && s !in v.order && s !in v.free
    ensures -1 <= At(v.order, i - 1) < |v.next| && -1 <= At(v.order, i) < |v.prev|
    ensures Good(Inserted(v, i, s))
  {
    LinkBefore(v.next, v.prev, v.head, v.tail, v.order, i, s);
    var v' := Inserted(v, i, s);
    assert 0 < i ==> v.order[i - 1] in v.order;
    LinkedFrame(v.next, v'.next, v.freeHead, v.free);
    InsertAtMembers(v.order, i, s);
  }

  // The node at position i is unlinked, its links cleared.
  function Removed(v: View, i: nat): View
    requires i < |v.order| && 0 <= v.order[i] < |v.next| == |v.prev|
    requires -1 <= v.prev[v.order[i]] < |v.next| && -1 <= v.next[v.order[i]] < |v.prev|
  {
    var s := v.order[i];
    v.(next := Skip(v.next, v.prev[s], v.next[s])[s := NIL], prev := Skip(v.prev, v.next[s], v.prev[s])[s := NIL],
       head := if v.prev[s] != NIL then v.head else v.next[s], tail := if v.next[s] != NIL then v.tail else v.prev[s],
       order := RemoveAt(v.order, i))
  }

  lemma Removing(v: View, i: nat)
    requires Good(v) && i < |v.order|
    ensures var s := v.order[i];
            && 0 <= s < |v.next| && -1 <= v.prev[s] < |v.next| && -1 <= v.next[s] < |v.prev|
            && Good(Removed(v, i)) && s !in RemoveAt(v.order, i) && s !in v.free
  {
    var s := v.order[i];
    Unlink(v.next, v.prev, v.head, v.tail, v.order, i);
    Neighbours(v.next, v.prev, v.head, v.tail, v.order, i);
    var v' := Removed(v, i);
    assert s in v.order && (0 < i ==> v.order[i - 1] in v.order);
    LinkedFrame(v.next, v'.next, v.freeHead, v.free);
    LinkedDistinct(v.next, v.head, v.order);
    RemoveAtMembers(v.order, i);
  }

  // ---- The list ----

  class List<T> {
    const capacity: nat
    const next: array<int>
    const prev: array<int>
    const data: array<T>
    var head: int
    var tail: int
    var freeList: int
    var size: nat

    ghost var order: seq<int>
    ghost var free: seq<int>

    ghost predicate Shape() {
      && next != prev && next as object != data && prev as object != data
      && next.Length == prev.Length == data.Length == capacity
    }

    ghost function Now(): View
      reads this, next, prev
    {
      View(next[..], prev[..], head, tail, freeList, order, free)
    }

    // Every node of the pool is in the list or in the free list.
    ghost predicate Valid()
      reads this, next, prev
    {
      Shape() && Good(Now()) && size == |order| && |order| + |free| == capacity
    }

    ghost function Elements(): (es: seq<T>)
      requires Valid()
      reads this, next, prev, data
      ensures |es| == size
    {
      Gather(order, data[..])
    }

    lemma EveryNodeOwned(s: nat)
      requires Valid() && s < capacity
      ensures s in order <==> s !in free
    {
      LinkedDistinct(next[..], head, order);
      LinkedDistinct(next[..], freeList, free);
      var both := order + free;
      assert forall i :: 0 <= i < |free| ==> free[i] in free;
      assert forall i :: 0 <= i < |order| ==> order[i] in order;
      Pigeonhole(both, capacity);
      assert s in both;
    }

    method AcquireNode() returns (slot: int)
      requires Shape() && Good(Now())
      modifies `freeList, `free, next, prev
      ensures Shape() && Good(Now()) && order == old(order)
      ensures if old(free) == [] then slot == NIL && Now() == old(Now())
              else slot == old(free)[0] && 0 <= slot < capacity && free == old(free)[1..] && slot !in order && slot !in free
    {
      if freeList == NIL {
        return NIL;
      }
      Taking(Now());
      slot := freeList;
      freeList := next[slot];
      prev[slot] := NIL;
      next[slot] := NIL;
      free := free[1..];
      assert Now() == Taken(old(Now()));
    }

    method ReleaseNode(slot: int)
      requires Shape() && Good(Now()) && 0 <= slot < capacity && slot !in order && slot !in free
      modifies `freeList, `free, next, prev
      ensures Shape() && Good(Now()) && order == old(order) && free == [slot] + old(free)
    {
      Returning(Now(), slot);
      prev[slot] := NIL;
      next[slot] := freeList;
      freeList := slot;
      free := [slot] + free;
      assert Now() == Returned(old(Now()), slot);
    }

    // copied is the outcome of the element's copy.
    method MakeNode(value: T, copied: bool) returns (st: Status, slot: int)
      requires Shape() && Good(Now())
      modifies `freeList, `free, next, prev, data
      ensures Shape() && Good(Now()) && order == old(order)
      ensures st == if old(free) == [] then Full else if copied then Ok else CopyFailed
      ensures if st == Ok then free == old(free)[1..] && 0 <= slot < capacity && slot !in order && slot !in free && data[..] == old(data[..])[slot := value]
              else |free| == |old(free)| && data[..] == old(data[..])
    {
      slot := AcquireNode();
      if slot == NIL {
        return Full, NIL;
      }
      if !copied {
        ReleaseNode(slot);
        return CopyFailed, NIL;
      }
      data[slot] := value;
      return Ok, slot;
    }

    method LinkFront(slot: int)
      requires Shape() && Good(Now()) && 0 <= slot < capacity && slot !in order && slot !in free
      modifies `head, `tail, `order, next, prev
      ensures Shape() && Good(Now()) && order == InsertAt(old(order), 0, slot)
    {
      Inserting(Now(), 0, slot);
      prev[slot] := NIL;
      next[slot] := head;
      if head != NIL {
        prev[head] := slot;
      } else {
        tail := slot;
      }
      head := slot;
      order := InsertAt(order, 0, slot);
      assert Now() == Inserted(old(Now()), 0, slot);
    }

    method LinkBack(slot: int)
      requires Shape() && Good(Now()) && 0 <= slot < capacity && slot !in order && slot !in free
      modifies `head, `tail, `order, next, prev
      ensures Shape() && Good(Now()) && order == InsertAt(old(order), |old(order)|, slot)
    {
      Inserting(Now(), |order|, slot);
      ReversedAt(order, 0);
      next[slot] := NIL;
      prev[slot] := tail;
      if tail != NIL {
        next[tail] := slot;
      } else {
        head := slot;
      }
      tail := slot;
      order := InsertAt(order, |order|, slot);
      assert Now() == Inserted(old(Now()), |old(order)|, slot);
    }

    method LinkBeforeNode(target: int, newNode: int, ghost i: nat)
      requires Shape() && Good(Now()) && 0 <= newNode < capacity && newNode !in order && newNode !in free
      requires i < |order| && target == order[i]
      modifies `head, `order, next, prev
      ensures Shape() && Good(Now()) && order == InsertAt(old(order), i, newNode)
    {
      Inserting(Now(), i, newNode);
      Neighbours(next[..], prev[..], head, tail, order, i);
      assert target in order;
      next[newNode] := target;
      prev[newNode] := prev[target];
      if prev[target] != NIL {
        next[prev[target]] := newNode;
      } else {
        head := newNode;
      }
      prev[target] := newNode;
      order := InsertAt(order, i, newNode);
      assert Now() == Inserted(old(Now()), i, newNode);
    }

    method UnlinkNode(slot: int, ghost i: nat)
      requires Shape() && Good(Now()) && i < |order| && slot == order[i]
      modifies `head, `tail, `order, next, prev
      ensures Shape() && Good(Now()) && order == RemoveAt(old(order), i)
      ensures 0 <= slot < capacity && slot !in order && slot !in free
    {
      Removing(Now(), i);
      if prev[slot] != NIL {
        next[prev[slot]] := next[slot];
      } else {
        head := next[slot];
      }
      if next[slot] != NIL {
        prev[next[slot]] := prev[slot];
      } else {
        tail := prev[slot];
      }
      prev[slot] := NIL;
      next[slot] := NIL;
      order := RemoveAt(order, i);
      assert Now() == Removed(old(Now()), i);
    }

    // ---- Operations by position ----

    // The walk starts from the nearer end.
    method NodeAt(index: nat) returns (node: int)
      requires Valid()
      ensures node == At(order, index)
    {
      if index >= size {
        return NIL;
      }
      if index <= size / 2 {
        node := head;
        for i := 0 to index
          invariant node == order[i]
        {
          assert next[..][order[i]] == At(order, i + 1);
          node := next[node];
        }
        return;
      }
      node := tail;
      ReversedAt(order, 0);
      var i := size - 1;
      while i > index
        invariant index <= i < size && node == order[i]
      {
        Neighbours(next[..], prev[..], head, tail, order, i);
        node := prev[node];
        i := i - 1;
      }
    }

    method InsertFront(value: T, copied: bool) returns (st: Status)
      requires Valid()
      modifies this, next, prev, data
      ensures Valid()
      ensures st == if old(size) == capacity then Full else if copied then Ok else CopyFailed
      ensures Elements() == if st == Ok then InsertAt(old(Elements()), 0, value) else old(Elements())
    {
      var slot;
      st, slot := MakeNode(value, copied);
      if st != Ok {
        return;
      }
      GatherInsert(order, old(data[..]), 0, slot, value);
      LinkFront(slot);
      size := size + 1;
    }

    method InsertBack(value: T, copied: bool) returns (st: Status)
      requires Valid()
      modifies this, next, prev, data
      ensures Valid()
      ensures st == if old(size) == capacity then Full else if copied then Ok else CopyFailed
      ensures Elements() == if st == Ok then InsertAt(old(Elements()), old(size), value) else old(Elements())
    {
      var slot;
      st, slot := MakeNode(value, copied);
      if st != Ok {
        return;
      }
      GatherInsert(order, old(data[..]), |order|, slot, value);
      LinkBack(slot);
      size := size + 1;
    }

    lemma GatherInsert(slots: seq<int>, pool: seq<T>, i: nat, slot: int, value: T)
      requires forall j :: 0 <= j < |slots| ==> 0 <= slots[j] < |pool|
      requires i <= |slots| && 0 <= slot < |pool| && slot !in slots
      ensures forall j :: 0 <= j <= |slots| ==> 0 <= InsertAt(slots, i, slot)[j] < |pool|
      ensures Gather(InsertAt(slots, i, slot), pool[slot := value]) == InsertAt(Gather(slots, pool), i, value)
    {
    }

    // Insertion is at the index, for every index up to the size.
    method InsertElement(index: nat, value: T, copied: bool) returns (st: Status)
      requires Valid()
      modifies this, next, prev, data
      ensures Valid()
      ensures st == if index > old(size) then Invalid else if old(size) == capacity then Full else if copied then Ok else CopyFailed
      ensures Elements() == if st == Ok && index <= old(size) then InsertAt(old(Elements()), index, value) else old(Elements())
    {
      if index > size {
        return Invalid;
      }
      if index == 0 {
        st := InsertFront(value, copied);
        return;
      }
      if index == size {
        st := InsertBack(value, copied);
        return;
      }
      var target := NodeAt(index);
      var newNode;
      st, newNode := MakeNode(value, copied);
      if st != Ok {
        return;
      }
      GatherInsert(order, old(data[..]), index, newNode, value);
      LinkBeforeNode(target, newNode, index);
      size := size + 1;
    }

    // A failed copy out leaves the node in place.
    method PopNode(slot: int, copied: bool, ghost i: nat) returns (st: Status, out: Option<T>)
      requires Valid() && i < size && slot == order[i]
      modifies this, next, prev
      ensures Valid()
      ensures if copied then st == Ok && out == Some(old(Elements())[i]) && Elements() == RemoveAt(old(Elements()), i)
              else st == CopyFailed && out == None && Elements() == old(Elements())
    {
      if !copied {
        return CopyFailed, None;
      }
      out := Some(data[slot]);
      GatherRemove(order, data[..], i);
      UnlinkNode(slot, i);
      ReleaseNode(slot);
      size := size - 1;
      st := Ok;
    }

    lemma GatherRemove(slots: seq<int>, pool: seq<T>, i: nat)
      requires forall j :: 0 <= j < |slots| ==> 0 <= slots[j] < |pool|
      requires i < |slots|
      ensures forall j :: 0 <= j < |slots| - 1 ==> 0 <= RemoveAt(slots, i)[j] < |pool|
      ensures Gather(RemoveAt(slots, i), pool) == RemoveAt(Gather(slots, pool), i)
    {
    }

    method PopFront(copied: bool) returns (st: Status, out: Option<T>)
      requires Valid()
      modifies this, next, prev
      ensures Valid()
      ensures if old(size) == 0 then st == Empty && out == None && Elements() == old(Elements())
              else if copied then st == Ok && out == Some(old(Elements())[0]) && Elements() == RemoveAt(old(Elements()), 0)
              else st == CopyFailed && out == None && Elements() == old(Elements())
    {
      if size == 0 {
        return Empty, None;
      }
      st, out := PopNode(head, copied, 0);
    }

    method PopBack(copied: bool) returns (st: Status, out: Option<T>)
      requires Valid()
      modifies this, next, prev
      ensures Valid()
      ensures if old(size) == 0 then st == Empty && out == None && Elements() == old(Elements())
              else if copied then st == Ok && out == Some(old(Elements())[old(size) - 1]) && Elements() == RemoveAt(old(Elements()), old(size) - 1)
              else st == CopyFailed && out == None && Elements() == old(Elements())
    {
      if size == 0 {
        return Empty, None;
      }
      ReversedAt(order, 0);
      st, out := PopNode(tail, copied, size - 1);
    }

    method RemoveElement(index: nat, copied: bool) returns (st: Status, out: Option<T>)
      requires Valid()
      modifies this, next, prev
      ensures Valid()
      ensures if index >= old(size) then st == Invalid && out == None && Elements() == old(Elements())
              else if copied then st == Ok && out == Some(old(Elements())[index]) && Elements() == RemoveAt(old(Elements()), index)
              else st == CopyFailed && out == None && Elements() == old(Elements())
    {
      if index >= size {
        return Invalid, None;
      }
      if index == 0 {
        st, out := PopFront(copied);
        return;
      }
      if index == size - 1 {
        st, out := PopBack(copied);
        return;
      }
      var target := NodeAt(index);
      st, out := PopNode(target, copied, index);
    }

    // The first element that satisfies the predicate goes.
    method RemoveFirst(pred: T -> bool, copied: bool) returns (st: Status, out: Option<T>)
      requires Valid()
      modifies this, next, prev
      ensures Valid()
      ensures var es := old(Elements());
              if forall i :: 0 <= i < |es| ==> !pred(es[i]) then st == NotFound && out == None && Elements() == es
              else if copied then exists k: nat :: FirstMatch(es, pred, k) && st == Ok && out == Some(es[k]) && Elements() == RemoveAt(es, k)
              else st == CopyFailed && out == None && Elements() == es
    {
      ghost var es := Elements();
      var current, index := head, 0;
      while current != NIL
        invariant index <= size && current == At(order, index) && Valid() && Elements() == es
        invariant forall i :: 0 <= i < index ==> !pred(es[i])
        decreases size - index
      {
        assert es[index] == data[current];
        if pred(data[current]) {
          st, out := RemoveElement(index, copied);
          assert FirstMatch(es, pred, index);
          return;
        }
        assert next[..][order[index]] == At(order, index + 1);
        current, index := next[current], index + 1;
      }
      return NotFound, None;
    }

    ghost predicate FirstMatch(es: seq<T>, pred: T -> bool, k: nat) {
      k < |es| && pred(es[k]) && forall i :: 0 <= i < k ==> !pred(es[i])
    }

    method Clear()
      requires Valid()
      modifies this, next, prev
      ensures Valid() && Elements() == [] && |free| == capacity
    {
      while head != NIL
        invariant Shape() && Good(Now()) && |order| + |free| == capacity
        decreases |order|
      {
        var current := head;
        UnlinkNode(current, 0);
        ReleaseNode(current);
      }
      tail := NIL;
      size := 0;
    }

    method InitFreeList()
      requires Shape()
      modifies `freeList, `free, next, prev
      ensures Linked(next[..], freeList, free) && |free| == capacity
    {
      freeList, free := NIL, [];
      for i := 0 to capacity
        invariant |free| == i && (forall s :: s in free ==> 0 <= s < i)
        invariant Linked(next[..], freeList, free)
      {
        ghost var n := next[..];
        LinkedInsert(n, freeList, free, 0, i);
        prev[i] := NIL;
        next[i] := freeList;
        assert next[..] == LinkIn(n, free, 0, i);
        freeList, free := i, InsertAt(free, 0, i);
      }
    }

    constructor (next: array<int>, prev: array<int>, data: array<T>)
      requires next != prev && next as object != data && prev as object != data
      requires next.Length == prev.Length == data.Length
      modifies next, prev
      ensures Valid() && Elements() == [] && capacity == data.Length
      ensures this.next == next && this.prev == prev && this.data == data
    {
      this.next, this.prev, this.data, capacity := next, prev, data, data.Length;
      head, tail, freeList, size := NIL, NIL, NIL, 0;
      order, free := [], [];
      new;
      InitFreeList();
    }
  }
}
