/** The ring buffer core: a deque over a cyclic array, with overwriting and
    growth, and the byte ring on top of it. */
module Ring {
  import opened Bits
  import opened Common
  import opened Modular

  // The n elements that start at index tail, cyclically.
  function Window<T>(storage: seq<T>, tail: nat, n: nat): (es: seq<T>)
    requires n <= |storage| && (tail < |storage| || n == 0)
    ensures |es| == n
    ensures forall i {:trigger es[i]} :: 0 <= i < n ==> es[i] == storage[Pos(tail, i, |storage|)]
  {
    seq(n, i requires 0 <= i < n => storage[Pos(tail, i, |storage|)])
  }

  function LastOf<T>(es: seq<T>, n: nat): seq<T> {
    if |es| <= n then es else es[|es| - n..]
  }

  function Min(a: nat, b: nat): nat {
    if a < b then a else b
  }

  // One step back from an index is n - 1 steps forward.
  function Back(i: nat, n: nat): int {
    if i == 0 then n - 1 else i - 1
  }

  lemma StepBack(i: nat, n: nat)
    requires i < n
    ensures (i + n - 1) % n == Back(i, n) && 0 <= Back(i, n) < n
  {
    Wrap(i, n - 1, n);
  }

  lemma StepOn(i: nat, d: nat, n: nat)
    requires i < n && d <= n
    ensures (i + d) % n == Pos(i, d, n) < n
  {
    if d < n {
      Wrap(i, d, n);
    } else {
      NextRound(i, n);
      DivModUnique(i, n, 0, i);
    }
  }

  // Writing the slot after the window, or the one before it, extends it.
  lemma WindowPush<T>(storage: seq<T>, tail: nat, n: nat, x: T)
    requires tail < |storage| && n < |storage|
    ensures var i := Pos(tail, n, |storage|);
            i < |storage| && Window(storage[i := x], tail, n + 1) == Window(storage, tail, n) + [x]
  {
  }

  lemma WindowPushFront<T>(storage: seq<T>, tail: nat, n: nat, x: T)
    requires tail < |storage| && n < |storage|
    ensures var i := Back(tail, |storage|);
            0 <= i < |storage| && Window(storage[i := x], i, n + 1) == [x] + Window(storage, tail, n)
  {
  }

  lemma WindowDrop<T>(storage: seq<T>, tail: nat, n: nat, d: nat)
    requires tail < |storage| && d <= n <= |storage|
    ensures Pos(tail, d, |storage|) < |storage| || d == |storage|
    ensures d < |storage| ==> Window(storage, Pos(tail, d, |storage|), n - d) == Window(storage, tail, n)[d..]
  {
  }

  lemma WindowDropBack<T>(storage: seq<T>, tail: nat, n: nat)
    requires tail < |storage| && 0 < n <= |storage|
    ensures Back(Pos(tail, n, |storage|), |storage|) == Pos(tail, n - 1, |storage|)
    ensures Window(storage, tail, n - 1) == Window(storage, tail, n)[..n - 1]
  {
  }

  // ---- Growth ----

  function Doubled(base: nat, k: nat): nat {
    if k == 0 then base else 2 * Doubled(base, k - 1)
  }

  // The first of current, 2 * current, 4 * current, ... that is enough, or just
  // what is required when doubling would overflow first.
  ghost predicate GrownTo(current: nat, required: nat, r: nat, k: nat) {
    var base := if current > 0 then current else 1;
    && (k > 0 ==> Doubled(base, k - 1) < required)
    && if Doubled(base, k) >= required then r == Doubled(base, k)
       else Doubled(base, k) > SIZE_MAX / 2 && r == required
  }

  method GrowCapacity(current: nat, required: nat) returns (newCapacity: nat)
    requires current <= SIZE_MAX && required <= SIZE_MAX
    ensures required <= newCapacity <= SIZE_MAX && current <= newCapacity && 0 < newCapacity
    ensures exists k :: GrownTo(current, required, newCapacity, k)
    ensures required == current + 1 && 0 < current <= SIZE_MAX / 2 ==> newCapacity == 2 * current
  {
    newCapacity := if current > 0 then current else 1;
    ghost var base, k := newCapacity, 0;
    while newCapacity < required
      invariant base <= newCapacity == Doubled(base, k) <= SIZE_MAX
      invariant k > 0 ==> Doubled(base, k - 1) < required
      invariant newCapacity == base || newCapacity >= 2 * base
      decreases required - newCapacity
    {
      if newCapacity > SIZE_MAX / 2 {
        assert GrownTo(current, required, required, k);
        return required;
      }
      newCapacity, k := newCapacity * 2, k + 1;
    }
    assert GrownTo(current, required, newCapacity, k);
  }

  // ---- The ring buffer ----

  type Word = n: nat | n <= SIZE_MAX

  class RingBuffer<T(0)> {
    var storage: array<T>
    var capacity: nat
    var head: nat
    var tail: nat
    var count: nat
    var growable: bool
    var overwrite: bool
    const elemSize: Word
    // The bytes that the storage was given.
    ghost var block: nat

    ghost predicate Valid()
      reads this
    {
      && capacity == storage.Length <= SIZE_MAX && count <= capacity
      && if capacity == 0 then head == tail == 0 && !growable && !overwrite
         else tail < capacity && head == Pos(tail, count, capacity)
    }

    ghost function Contents(): (es: seq<T>)
      requires Valid()
      reads this, storage
      ensures |es| == count
    {
      Window(storage[..], tail, count)
    }

    // Every slot lies inside the block.
    ghost predicate Backed()
      reads `capacity, `block
    {
      capacity * elemSize <= block
    }

    // The head is where the next element goes.
    lemma HeadIsTailPlusCount()
      requires Valid() && capacity > 0
      ensures head == (tail + count) % capacity
    {
      StepOn(tail, count, capacity);
    }

    constructor (storage: array<T>, elemSize: nat, growable: bool, overwrite: bool)
      requires 0 < storage.Length <= SIZE_MAX && 0 < elemSize <= SIZE_MAX
      ensures Valid() && Backed() && Contents() == [] && capacity == storage.Length
      ensures this.storage == storage && this.elemSize == elemSize && this.growable == growable && this.overwrite == overwrite
    {
      this.storage, capacity, this.elemSize, this.growable, this.overwrite := storage, storage.Length, elemSize, growable, overwrite;
      head, tail, count, block := 0, 0, 0, storage.Length * elemSize;
    }

    static method Init(storage: array<T>, elemSize: nat, growable: bool, overwrite: bool) returns (st: Status, ring: RingBuffer?<T>)
      requires storage.Length <= SIZE_MAX && elemSize <= SIZE_MAX
      ensures st == if storage.Length == 0 || elemSize == 0 then Invalid else Ok
      ensures st == Ok ==> ring != null && ring.Valid() && ring.Backed() && ring.Contents() == [] && fresh(ring)
    {
      if storage.Length == 0 || elemSize == 0 {
        return Invalid, null;
      }
      ring := new RingBuffer(storage, elemSize, growable, overwrite);
      return Ok, ring;
    }

    method ResetState()
      modifies this
      ensures Valid() && Backed() && Contents() == [] && capacity == 0
    {
      storage := new T[0];
      capacity, head, tail, count, growable, overwrite, block := 0, 0, 0, 0, false, false, 0;
    }

    method Clear()
      requires Valid()
      modifies this
      ensures Valid() && Contents() == [] && capacity == old(capacity) && storage == old(storage) && block == old(block)
      ensures growable == old(growable) && overwrite == old(overwrite)
    {
      if count == 0 {
        return;
      }
      head, tail, count := 0, 0, 0;
    }

    // The bytes that a larger array is asked for: a product of words.
    function Request(newCapacity: nat): nat {
      (newCapacity * elemSize) % WORD
    }

    // Move to a larger array, oldest element first; granted is the outcome of
    // allocating it. A product that overflows makes the block too small for the
    // new capacity, and overrun tells that the copy itself goes past its end.
    method Relinearize(newCapacity: Word, granted: Status) returns (st: Status, ghost bytes: nat, ghost overrun: bool)
      requires Valid() && (newCapacity < count || capacity < newCapacity) && 0 < capacity
      ensures bytes == if newCapacity < old(count) then 0 else Request(newCapacity)
      modifies this
      ensures Valid() && Contents() == old(Contents()) && growable == old(growable) && overwrite == old(overwrite)
      ensures st == if newCapacity < old(count) then Invalid else granted
      ensures if st == Ok then capacity == newCapacity && fresh(storage) && tail == 0 && block == bytes
              else capacity == old(capacity) && storage == old(storage) && tail == old(tail) && block == old(block)
      ensures st == Ok ==> (Backed() <==> !MulWouldOverflow(newCapacity, elemSize))
      ensures overrun <==> st == Ok && count * elemSize > bytes
      ensures overrun ==> MulWouldOverflow(newCapacity, elemSize)
    {
      bytes, overrun := 0, false;
      if newCapacity < count {
        return Invalid, bytes, overrun;
      }
      bytes := Request(newCapacity);
      if granted != Ok {
        return granted, bytes, overrun;
      }
      RequestExact(newCapacity);
      CopySize(count, newCapacity);
      overrun := count * elemSize > bytes;
      var newStorage := new T[newCapacity];
      CopyOut(newStorage);
      storage := newStorage;
      capacity := newCapacity;
      head := count;
      tail := 0;
      block := bytes;
      assert Contents() == newStorage[..count];
      return Ok, bytes, overrun;
    }

    lemma CopySize(n: nat, newCapacity: nat)
      requires n <= newCapacity
      ensures n * elemSize <= newCapacity * elemSize
      ensures Request(newCapacity) <= newCapacity * elemSize
    {
    }

    method CopyOut(newStorage: array<T>)
      requires Valid() && newStorage != storage && count <= newStorage.Length
      modifies newStorage
      ensures newStorage[..count] == Contents()
    {
      for i := 0 to count
        invariant forall j :: 0 <= j < i ==> newStorage[j] == Contents()[j]
      {
        StepOn(tail, i, capacity);
        newStorage[i] := storage[(tail + i) % capacity];
      }
    }

    method EnsureRoom(granted: Status) returns (st: Status)
      requires Valid()
      modifies this
      ensures Valid() && Contents() == old(Contents()) && growable == old(growable) && overwrite == old(overwrite)
      ensures st == if old(count < capacity) then Ok else if !growable || old(count) == SIZE_MAX then Full else granted
      ensures st == Ok ==> count < capacity
      ensures st != Ok || old(count < capacity) ==>
                capacity == old(capacity) && storage == old(storage) && tail == old(tail) && block == old(block)
      ensures storage == old(storage) || fresh(storage)
      ensures old(Backed()) && old(block) <= SIZE_MAX / 2 ==> Backed()
    {
      if count < capacity {
        return Ok;
      }
      if !growable {
        return Full;
      }
      // the count is a word, too
      var newCapacity := GrowCapacity(capacity, if count == SIZE_MAX then 0 else count + 1);
      if newCapacity <= capacity {
        return Full;
      }
      if Backed() && block <= SIZE_MAX / 2 {
        HalfBlock(newCapacity);
      }
      ghost var bytes, overrun;
      st, bytes, overrun := Relinearize(newCapacity, granted);
    }

    // A block of at most half the address space can be doubled.
    lemma HalfBlock(newCapacity: Word)
      requires Backed() && block <= SIZE_MAX / 2 && (capacity <= SIZE_MAX / 2 ==> newCapacity == 2 * capacity)
      ensures !MulWouldOverflow(newCapacity, elemSize)
    {
      if elemSize > 0 {
        assert capacity <= capacity * elemSize;
        DoubleProduct(capacity, elemSize);
        ProductFits(newCapacity, elemSize);
      }
    }

    static lemma DoubleProduct(a: nat, b: nat)
      ensures (2 * a) * b == 2 * (a * b)
    {
    }

    // On success the capacity reaches the request; the elements never change.
    method Reserve(minCapacity: Word, granted: Status) returns (st: Status, ghost bytes: nat, ghost overrun: bool)
      requires Valid()
      modifies this
      ensures Valid() && Contents() == old(Contents()) && growable == old(growable) && overwrite == old(overwrite)
      ensures st == if minCapacity <= old(capacity) then Ok else if !growable then Full else granted
      ensures st == Ok ==> capacity >= minCapacity
      ensures capacity == old(capacity) || (exists k :: GrownTo(old(capacity), minCapacity, capacity, k))
      ensures minCapacity > old(capacity) && growable ==>
                exists newCapacity: nat, k :: GrownTo(old(capacity), minCapacity, newCapacity, k) && bytes == Request(newCapacity)
      ensures if capacity == old(capacity) then block == old(block) && !overrun
              else
                && block == bytes && (Backed() <==> !MulWouldOverflow(capacity, elemSize))
                && (overrun <==> count * elemSize > bytes) && (overrun ==> !Backed())
    {
      bytes, overrun := 0, false;
      if minCapacity <= capacity {
        return Ok, bytes, overrun;
      }
      if !growable {
        return Full, bytes, overrun;
      }
      var newCapacity := GrowCapacity(capacity, minCapacity);
      st, bytes, overrun := Relinearize(newCapacity, granted);
    }

    // The allocator is asked for what the elements need exactly when the product
    // does not overflow.
    lemma RequestExact(newCapacity: nat)
      requires newCapacity < WORD && elemSize < WORD
      ensures Request(newCapacity) == newCapacity * elemSize <==> !MulWouldOverflow(newCapacity, elemSize)
    {
      ProductFits(newCapacity, elemSize);
      if newCapacity * elemSize < WORD {
        DivModUnique(newCapacity * elemSize, WORD, 0, newCapacity * elemSize);
      }
    }

    // Make room at the back by dropping the oldest element.
    method DropFront()
      requires Valid() && 0 < count
      modifies `tail, `count
      ensures Valid() && Contents() == old(Contents())[1..]
    {
      StepOn(tail, 1, capacity);
      WindowDrop(storage[..], tail, count, 1);
      tail := (tail + 1) % capacity;
      count := count - 1;
    }

    method DropBack()
      requires Valid() && 0 < count
      modifies `head, `count
      ensures Valid() && Contents() == old(Contents())[..old(count) - 1]
    {
      StepBack(head, capacity);
      WindowDropBack(storage[..], tail, count);
      head := (head + capacity - 1) % capacity;
      count := count - 1;
    }

    method WriteBack(elem: T)
      requires Valid() && count < capacity
      modifies `head, `count, storage
      ensures Valid() && Contents() == old(Contents()) + [elem]
    {
      StepOn(head, 1, capacity);
      WindowPush(storage[..], tail, count, elem);
      ghost var before := storage[..];
      storage[head] := elem;
      assert storage[..] == before[head := elem];
      head := (head + 1) % capacity;
      count := count + 1;
    }

    method WriteFront(elem: T)
      requires Valid() && count < capacity
      modifies `tail, `count, storage
      ensures Valid() && Contents() == [elem] + old(Contents())
    {
      StepBack(tail, capacity);
      WindowPushFront(storage[..], tail, count, elem);
      ghost var before := storage[..];
      tail := (tail + capacity - 1) % capacity;
      storage[tail] := elem;
      assert storage[..] == before[tail := elem];
      count := count + 1;
    }

    // A full ring grows or drops the element at the far end.
    method Vacate(granted: Status, front: bool) returns (st: Status)
      requires Valid() && 0 < capacity == count
      modifies this
      ensures Valid() && growable == old(growable) && overwrite == old(overwrite)
      ensures storage == old(storage) || fresh(storage)
      ensures st == (if !growable then Ok else if old(count) == SIZE_MAX then Full else granted) && (st == Ok ==> count < capacity)
      ensures var es := old(Contents());
              Contents() == if growable then es else if front then es[..|es| - 1] else es[1..]
      ensures !growable ==> capacity == old(capacity) && storage == old(storage) && block == old(block)
      ensures old(Backed()) && old(block) <= SIZE_MAX / 2 ==> Backed()
    {
      st := Ok;
      if growable {
        st := EnsureRoom(granted);
      } else if front {
        DropBack();
      } else {
        DropFront();
      }
    }

    // granted is the outcome of an allocation and copied that of the element's
    // copy. A failed copy does not bring an overwritten element back.
    method PushBack(elem: T, allowOverwrite: bool, granted: Status, copied: bool) returns (st: Status)
      requires Valid()
      modifies this, storage
      ensures Valid() && growable == old(growable) && overwrite == old(overwrite)
      ensures storage == old(storage) || fresh(storage)
      ensures var es, full := old(Contents()), old(count) == old(capacity);
              if old(capacity) == 0 then st == Invalid && Contents() == es
              else if full && !growable && !allowOverwrite && !overwrite then st == Full && Contents() == es
              else if full && growable && (|es| == SIZE_MAX || granted != Ok) then
                st == (if |es| == SIZE_MAX then Full else granted) && Contents() == es
              else
                && st == (if copied then Ok else CopyFailed)
                && Contents() == (if full && !growable then es[1..] else es) + (if copied then [elem] else [])
      ensures !growable || old(count) < old(capacity) ==> capacity == old(capacity) && storage == old(storage) && block == old(block)
      ensures old(Backed()) && old(block) <= SIZE_MAX / 2 ==> Backed()
    {
      if capacity == 0 {
        return Invalid;
      }
      if count == capacity && !growable && !allowOverwrite && !overwrite {
        return Full;
      }
      if count >= capacity {
        st := Vacate(granted, false);
        if st != Ok {
          return;
        }
      }
      if !copied {
        return CopyFailed;
      }
      WriteBack(elem);
      return Ok;
    }

    method PushFront(elem: T, granted: Status, copied: bool) returns (st: Status)
      requires Valid()
      modifies this, storage
      ensures Valid() && growable == old(growable) && overwrite == old(overwrite)
      ensures storage == old(storage) || fresh(storage)
      ensures var es, full := old(Contents()), old(count) == old(capacity);
              if old(capacity) == 0 then st == Full && Contents() == es
              else if full && !growable && !overwrite then st == Full && Contents() == es
              else if full && growable && (|es| == SIZE_MAX || granted != Ok) then
                st == (if |es| == SIZE_MAX then Full else granted) && Contents() == es
              else
                && st == (if copied then Ok else CopyFailed)
                && Contents() == (if copied then [elem] else []) + (if full && !growable then es[..|es| - 1] else es)
      ensures !growable || old(count) < old(capacity) ==> capacity == old(capacity) && storage == old(storage) && block == old(block)
      ensures old(Backed()) && old(block) <= SIZE_MAX / 2 ==> Backed()
    {
      if count >= capacity {
        if !growable && !overwrite {
          return Full;
        }
        st := Vacate(granted, true);
        if st != Ok {
          return;
        }
      }
      if !copied {
        return CopyFailed;
      }
      WriteFront(elem);
      return Ok;
    }

    // copied is the outcome of copying the element out.
    method PopFront(copied: bool) returns (st: Status, out: Option<T>)
      requires Valid()
      modifies `tail, `count
      ensures Valid()
      ensures var es := old(Contents());
              && st == (if es == [] then Empty else if copied then Ok else CopyFailed)
              && (if st == Ok then out.Some? && es == [out.value] + Contents() else out == None && Contents() == es)
    {
      if count == 0 {
        return Empty, None;
      }
      var item := storage[tail];
      if !copied {
        return CopyFailed, None;
      }
      DropFront();
      return Ok, Some(item);
    }

    method PopBack(copied: bool) returns (st: Status, out: Option<T>)
      requires Valid()
      modifies `head, `count
      ensures Valid()
      ensures var es := old(Contents());
              && st == (if es == [] then Empty else if copied then Ok else CopyFailed)
              && (if st == Ok then out.Some? && es == Contents() + [out.value] else out == None && Contents() == es)
    {
      if count == 0 {
        return Empty, None;
      }
      StepBack(head, capacity);
      WindowDropBack(storage[..], tail, count);
      var item := storage[(head + capacity - 1) % capacity];
      if !copied {
        return CopyFailed, None;
      }
      DropBack();
      return Ok, Some(item);
    }

    method PeekAt(index: nat) returns (st: Status, out: Option<T>)
      requires Valid()
      ensures if index < count then st == Ok && out == Some(Contents()[index]) else st == Invalid && out == None
    {
      if index >= count {
        return Invalid, None;
      }
      StepOn(tail, index, capacity);
      return Ok, Some(storage[(tail + index) % capacity]);
    }

    method PeekFront() returns (st: Status, out: Option<T>)
      requires Valid()
      ensures if count == 0 then st == Empty && out == None else st == Ok && out == Some(Contents()[0])
    {
      if count == 0 {
        return Empty, None;
      }
      return Ok, Some(storage[tail]);
    }

    method PeekBack() returns (st: Status, out: Option<T>)
      requires Valid()
      ensures if count == 0 then st == Empty && out == None else st == Ok && out == Some(Contents()[count - 1])
    {
      if count == 0 {
        return Empty, None;
      }
      StepBack(head, capacity);
      WindowDropBack(storage[..], tail, count);
      return Ok, Some(storage[(head + capacity - 1) % capacity]);
    }

    // copied is the outcome of the copy; one that fails leaves the element.
    method SetAt(index: nat, elem: T, copied: bool) returns (st: Status)
      requires Valid()
      modifies storage
      ensures Valid() && st == if index >= count then Invalid else if copied then Ok else CopyFailed
      ensures Contents() == if st == Ok then old(Contents())[index := elem] else old(Contents())
    {
      if index >= count {
        return Invalid;
      }
      if !copied {
        return CopyFailed;
      }
      ghost var before := storage[..];
      StepOn(tail, index, capacity);
      storage[(tail + index) % capacity] := elem;
      assert storage[..] == before[Pos(tail, index, capacity) := elem];
      assert Contents() == Window(before, tail, count)[index := elem];
      return Ok;
    }

    // The elements that lie behind the tail without a gap are as many as
    // reported exactly when the contents do not run past the end.
    method ReadableContiguous() returns (n: nat)
      requires Valid()
      ensures n == Min(count, capacity - tail) <==> tail + count <= capacity
      ensures tail + count > capacity ==> n == count
    {
      if count == 0 {
        return 0;
      }
      if tail < head {
        return head - tail;
      }
      return count;
    }

    // The free slots at the head without a gap, once there is room, are as many
    // as reported exactly when the contents begin at the first slot, or when a
    // difference of words that is to be negative comes out as its opposite.
    method WritableContiguous(granted: Status) returns (n: nat)
      requires Valid()
      modifies this
      ensures Valid() && Contents() == old(Contents()) && growable == old(growable) && overwrite == old(overwrite)
      ensures old(Backed()) && old(block) <= SIZE_MAX / 2 ==> Backed()
      ensures if old(count) == old(capacity) && (!growable || old(count) == SIZE_MAX || granted != Ok) then n == 0
              else
                && count < capacity
                && (n == (if head < tail then tail - head else capacity - head) <==> tail == 0 || 2 * (tail - head) == WORD)
                && n == (if head < tail then WORD - (tail - head) else capacity - count)
    {
      if count >= capacity {
        if !growable {
          return 0;
        }
        var st := EnsureRoom(granted);
        if st != Ok {
          return 0;
        }
      }
      if head >= tail {
        return capacity - count;
      }
      return WORD + head - tail;
    }

    // Drop elements read straight from the storage.
    method CommitRead(elemCount: nat)
      requires Valid()
      modifies `tail, `count
      ensures Valid() && Contents() == old(Contents())[Min(elemCount, old(count))..]
    {
      if elemCount == 0 || count == 0 {
        return;
      }
      var n := if elemCount > count then count else elemCount;
      StepOn(tail, n, capacity);
      WindowDrop(storage[..], tail, count, n);
      tail := (tail + n) % capacity;
      count := count - n;
    }

    // Take in elements written straight into the storage behind the head. On a
    // ring that has been reset this divides by its capacity, which is zero.
    method CommitWrite(elemCount: nat) returns (divides: bool)
      requires Valid()
      modifies `head, `count
      ensures Valid()
      ensures divides <==> elemCount > 0 ==> capacity > 0
      ensures var n := Min(elemCount, capacity - old(count));
              count == old(count) + n && Contents() == old(Contents()) + Window(storage[..], old(head), n)
    {
      divides := true;
      if elemCount == 0 {
        return;
      }
      var freeSlots := capacity - count;
      var n := if elemCount > freeSlots then freeSlots else elemCount;
      if capacity == 0 {
        return false;
      }
      StepOn(head, n, capacity);
      head := (head + n) % capacity;
      count := count + n;
    }
  }

  lemma {:induction false} Doubles(k: nat)
    ensures Doubled(1, k) == Pow2(k)
  {
    if k > 0 {
      Doubles(k - 1);
    }
  }

  // With elements of 8 bytes, reserving 2^61 + 1 of them in a ring of one doubles
  // to a capacity of 2^62 and asks for no bytes at all.
  lemma RequestExample()
    ensures var r := 0x4000_0000_0000_0000;
            GrownTo(1, 0x2000_0000_0000_0001, r, 62) && (r * 8) % WORD == 0 && MulWouldOverflow(r, 8)
  {
    Doubles(61);
    Doubles(62);
    WordBits();
    assert Pow2(64) == 2 * Pow2(63) && Pow2(63) == 2 * Pow2(62) && Pow2(62) == 2 * Pow2(61);
    DivModUnique(0x4000_0000_0000_0000 * 8, WORD, 2, 0);
  }

  // ---- The byte ring ----

  type Byte = b: nat | b < 0x100

  class ByteRing {
    const core: RingBuffer<Byte>

    ghost predicate Valid()
      reads core
    {
      core.Valid() && !core.growable && 0 < core.capacity
    }

    constructor (storage: array<Byte>, overwrite: bool)
      requires 0 < storage.Length <= SIZE_MAX
      ensures Valid() && core.Contents() == [] && core.storage == storage && core.overwrite == overwrite && fresh(core)
    {
      core := new RingBuffer(storage, 1, false, overwrite);
    }

    method PushByte(byte: Byte) returns (st: Status)
      requires Valid()
      modifies core, core.storage
      ensures Valid() && core.storage == old(core.storage) && core.overwrite == old(core.overwrite) && core.capacity == old(core.capacity)
      ensures var es := old(core.Contents());
              if |es| == core.capacity && !core.overwrite then st == Full && core.Contents() == es
              else st == Ok && core.Contents() == LastOf(es + [byte], core.capacity)
    {
      st := core.PushBack(byte, core.overwrite, Ok, true);
    }

    method PopByte() returns (st: Status, out: Option<Byte>)
      requires Valid()
      modifies core
      ensures Valid() && core.storage == old(core.storage) && core.overwrite == old(core.overwrite) && core.capacity == old(core.capacity)
      ensures var es := old(core.Contents());
              if es == [] then st == Empty && core.Contents() == es
              else st == Ok && out == Some(es[0]) && core.Contents() == es[1..]
    {
      st, out := core.PopFront(true);
      assert st == Ok ==> old(core.Contents())[1..] == core.Contents();
    }

    // Without overwriting, as many bytes as fit are taken; with it, all are,
    // and the ring keeps the last of everything it has been given.
    method PushBytes(data: seq<Byte>) returns (st: Status, written: nat)
      requires Valid()
      modifies core, core.storage
      ensures Valid() && core.storage == old(core.storage) && core.overwrite == old(core.overwrite) && core.capacity == old(core.capacity)
      ensures written == if core.overwrite then |data| else Min(|data|, core.capacity - old(core.count))
      ensures st == if written == |data| then Ok else Full
      ensures core.Contents() == LastOf(old(core.Contents()) + data[..written], core.capacity)
    {
      written := 0;
      ghost var es := core.Contents();
      assert es + data[..0] == es;
      while written < |data|
        invariant written <= |data|
        invariant Valid() && core.storage == old(core.storage) && core.overwrite == old(core.overwrite) && core.capacity == old(core.capacity)
        invariant core.Contents() == LastOf(es + data[..written], core.capacity)
        invariant core.overwrite || |es| + written <= core.capacity
      {
        st := PushByte(data[written]);
        if st == Full {
          break;
        }
        LastOfNext(es, data, written, core.capacity);
        written := written + 1;
      }
      st := if written == |data| then Ok else Full;
    }

    method PopBytes(wanted: nat) returns (st: Status, out: seq<Byte>)
      requires Valid()
      modifies core
      ensures Valid() && core.storage == old(core.storage) && core.overwrite == old(core.overwrite) && core.capacity == old(core.capacity)
      ensures var es, n := old(core.Contents()), Min(wanted, old(core.count));
              out == es[..n] && core.Contents() == es[n..] && st == if n == wanted then Ok else Empty
    {
      out := [];
      ghost var es := core.Contents();
      while |out| < wanted && core.count > 0
        invariant |out| <= wanted && |out| <= |es|
        invariant Valid() && core.storage == old(core.storage) && core.overwrite == old(core.overwrite) && core.capacity == old(core.capacity)
        invariant out == es[..|out|] && core.Contents() == es[|out|..]
        decreases wanted - |out|
      {
        var byte;
        st, byte := PopByte();
        assert es[..|out| + 1] == es[..|out|] + [es[|out|]];
        out := out + [byte.value];
      }
      st := if |out| == wanted then Ok else Empty;
    }
  }

  // Keeping the last n of what was kept and one more is keeping the last n.
  lemma LastOfNext<T>(es: seq<T>, data: seq<T>, i: nat, n: nat)
    requires 0 < n && i < |data|
    ensures LastOf(LastOf(es + data[..i], n) + [data[i]], n) == LastOf(es + data[..i + 1], n)
  {
    assert es + data[..i + 1] == (es + data[..i]) + [data[i]];
  }
}
