/** The open-addressing hash map, updating its slot array in place. */
module OpenMap {
  import opened Common
  import opened Growth
  import opened Modular
  import opened OpenSpec

  class OpenHashMap<K(==), V> {
    const hash: K -> nat
    const growable: bool
    var slots: array<Slot<K, V>>
    var size: nat

    ghost predicate Valid()
      reads this, slots
    {
      Inv(slots[..], hash)
    }

    // There may be no table.
    ghost predicate Usable()
      reads this, slots
    {
      slots.Length == 0 || Valid()
    }

    ghost function Now(): Table<K, V>
      reads this, slots
    {
      Table(slots[..], size)
    }

    constructor (bucketCount: nat, hash: K -> nat, growable: bool)
      requires 0 < bucketCount
      ensures Valid() && fresh(slots)
      ensures Now() == Table(Fresh(bucketCount), 0)
      ensures this.hash == hash && this.growable == growable
    {
      this.hash, this.growable, size := hash, growable, 0;
      slots := new Slot<K, V>[bucketCount](_ => Vacant);
      new;
      assert slots[..] == Fresh<K, V>(bucketCount);
    }

    method OpenProbe(key: K, forInsert: bool) returns (occupied: bool, index: nat)
      requires slots.Length > 0
      ensures (occupied, index) == Probe(slots[..], Home(hash, key, slots.Length), key, forInsert)
      ensures index < slots.Length
    {
      var n := slots.Length;
      index := Home(hash, key, n);
      ghost var t, h, f := slots[..], index, 0;
      var firstDeleted := -1;
      var probes := 0;
      while probes < n
        invariant probes <= n && index == Pos(h, probes, n)
        invariant forall e :: 0 <= e < probes ==> !Stops(SlotAt(t, h, e), key)
        invariant f <= probes && (forall e :: 0 <= e < f ==> !SlotAt(t, h, e).Deleted?)
        invariant f < probes ==> SlotAt(t, h, f).Deleted?
        invariant firstDeleted == if f < probes then Pos(h, f, n) else -1
      {
        var slot := slots[index];
        assert slot == SlotAt(t, h, probes);
        if slot.Vacant? {
          occupied := false;
          index := if forInsert && firstDeleted != -1 then firstDeleted else index;
          assert Reach(t, h, key, 0) == probes && FirstDeleted(t, h, probes, 0) == f;
          return;
        }
        if slot.Deleted? {
          if firstDeleted == -1 {
            firstDeleted := index;
          }
        } else {
          if slot.key == key {
            assert Reach(t, h, key, 0) == probes;
            return true, index;
          }
          f := if f == probes then probes + 1 else f;
        }
        NextPos(h, probes, n);
        index := (index + 1) % n;
        probes := probes + 1;
      }
      assert Reach(t, h, key, 0) == n && FirstDeleted(t, h, n, 0) == f;
      return true, if forInsert && firstDeleted != -1 then firstDeleted else index;
    }

    method OpenPut(key: K, value: V, keyCopy: bool, valueCopy: bool) returns (st: Status)
      requires slots.Length > 0
      modifies this`size, slots
      ensures (st, Now()) == TryPut(old(Now()), hash, key, value, keyCopy, valueCopy)
    {
      var occupied, index := OpenProbe(key, true);
      var slot := slots[index];
      if occupied {
        if !slot.Vacant? && slot.key == key {
          if valueCopy {
            slots[index] := slot.(value := value);
          }
          return Ok;
        }
        return Full;
      }
      if !keyCopy {
        return CopyFailed;
      }
      if !valueCopy {
        slots[index] := Vacant;
        return CopyFailed;
      }
      slots[index] := Occupied(key, value);
      size := size + 1;
      return Ok;
    }

    // Nothing reports that the value found could not be copied to the caller.
    method OpenGet(key: K, copied: bool) returns (st: Status, value: Option<V>)
      requires slots.Length > 0
      ensures var found := Get(Now(), hash, key);
              st == (if found.Some? then Ok else NotFound) && value == if copied then found else None
    {
      var occupied, index := OpenProbe(key, false);
      var slot := slots[index];
      if !occupied || slot.Vacant? {
        return NotFound, None;
      }
      return Ok, if copied then Some(slot.value) else None;
    }

    method OpenContains(key: K) returns (present: bool)
      requires slots.Length > 0
      ensures present == Contains(Now(), hash, key)
    {
      var index;
      present, index := OpenProbe(key, false);
    }

    method OpenRemove(key: K) returns (st: Status)
      requires slots.Length > 0
      modifies this`size, slots
      ensures (st, Now()) == Remove(old(Now()), hash, key)
    {
      var occupied, index := OpenProbe(key, false);
      var slot := slots[index];
      if !occupied || slot.Vacant? {
        return NotFound;
      }
      slots[index] := Deleted(slot.key, slot.value);
      size := Less1(size);
      return Ok;
    }

    // Move the entries into a larger table; on a failed put, roll back.
    method OpenRehash(newBucketCount: nat, granted: bool, moved: Option<nat>) returns (st: Status)
      requires slots.Length > 0 && newBucketCount > 0
      modifies this
      ensures (st, Now()) == Rehash(old(Now()), hash, newBucketCount, granted, moved)
      ensures slots == old(slots) || fresh(slots)
      ensures unchanged(old(slots)) && slots.Length > 0
    {
      if !granted {
        return Oom;
      }
      var oldSlots, oldSize := slots, size;
      ghost var source := slots[..];
      slots := new Slot<K, V>[newBucketCount](_ => Vacant);
      size := 0;
      assert slots[..] == Fresh<K, V>(newBucketCount);
      var i, left := 0, moved;
      while i < oldSlots.Length
        invariant i <= oldSlots.Length
        invariant fresh(slots) && slots.Length == newBucketCount
        invariant oldSlots[..] == source
        invariant Reinsert(source, i, Now(), hash, left) == Reinsert(source, 0, Table(Fresh(newBucketCount), 0), hash, moved)
      {
        if oldSlots[i].Occupied? {
          st := OpenPut(oldSlots[i].key, oldSlots[i].value, left != Some(0), left != Some(0));
          if st != Ok {
            slots, size := oldSlots, oldSize;
            return;
          }
          left := OneMoved(left);
        }
        i := i + 1;
      }
      return Ok;
    }

    // put: grow first when the load demands it. The only way to spoil the table
    // is a value that cannot be copied.
    method PutEntry(key: K, value: V, o: Outcomes) returns (st: Status)
      requires Usable()
      modifies this, slots
      ensures slots == old(slots) || fresh(slots)
      ensures old(slots.Length) == 0 ==> st == NullPtr && Now() == old(Now())
      ensures old(slots.Length) > 0 ==>
                && (st, Now()) == GrowingPut(old(Now()), hash, growable, o, key, value)
                && GrowingOutcome(old(Now()), hash, growable, o, key, value, st, Now())
                && (Valid() <==> !old(Spoils(Now(), hash, growable, o, key)))
    {
      if slots.Length == 0 {
        return NullPtr;
      }
      var n := slots.Length;
      GrowingPutSound(Now(), hash, growable, o, key, value);
      GrowingPutExact(Now(), hash, growable, o, key, value);
      if ShouldGrow(growable, size, n) {
        var newCount := Grow(n);
        if newCount == n {
          return Full;
        }
        st := OpenRehash(newCount, o.granted, o.moved);
        if st != Ok {
          return;
        }
      }
      st := OpenPut(key, value, o.keyCopy, o.valueCopy);
    }

    // get, contains and remove do not ask whether there is a table: without one
    // they divide by its size, which is zero.
    method GetEntry(key: K, copied: bool) returns (divides: bool, st: Status, value: Option<V>)
      requires Usable()
      ensures divides <==> slots.Length > 0
      ensures divides ==> var found := Get(Now(), hash, key);
                st == (if found.Some? then Ok else NotFound) && value == if copied then found else None
    {
      if slots.Length == 0 {
        return false, NullPtr, None;
      }
      divides := true;
      st, value := OpenGet(key, copied);
    }

    method ContainsEntry(key: K) returns (divides: bool, present: bool)
      requires Usable()
      ensures divides <==> slots.Length > 0
      ensures divides ==> present == Contains(Now(), hash, key)
    {
      if slots.Length == 0 {
        return false, false;
      }
      divides := true;
      present := OpenContains(key);
    }

    method RemoveEntry(key: K) returns (divides: bool, st: Status)
      requires Usable()
      modifies this`size, slots
      ensures divides <==> slots.Length > 0
      ensures if divides then (st, Now()) == Remove(old(Now()), hash, key) else Now() == old(Now())
    {
      if slots.Length == 0 {
        return false, NullPtr;
      }
      divides := true;
      st := OpenRemove(key);
    }

    // Afterwards there is no table, though the size is as it was.
    method ReleaseStorage()
      modifies this
      ensures Usable() && slots.Length == 0 && size == old(size)
    {
      slots := new Slot<K, V>[0](_ => Vacant);
    }

    method OpenClear()
      requires Valid()
      modifies this`size, slots
      ensures Valid() && Now() == Table(Fresh(slots.Length), 0)
    {
      for i := 0 to slots.Length
        invariant forall j :: 0 <= j < i ==> slots[j] == Vacant
      {
        slots[i] := Vacant;
      }
      size := 0;
      assert slots[..] == Fresh<K, V>(slots.Length);
    }

    // The visitor sees every entry once, in slot order, until it objects.
    method Foreach(visit: (K, V) -> Status) returns (st: Status, visited: seq<(K, V)>)
      requires Valid()
      ensures forall e :: e in visited ==> e.0 in Abs(slots[..]) && Abs(slots[..])[e.0] == e.1
      ensures forall i, j :: 0 <= i < j < |visited| ==> visited[i].0 != visited[j].0
      ensures st == Ok ==> forall k :: k in Abs(slots[..]) ==> (k, Abs(slots[..])[k]) in visited
      ensures st != Ok ==> visited != [] && visit(visited[|visited| - 1].0, visited[|visited| - 1].1) == st
      ensures forall i :: 0 <= i < |visited| - (if st == Ok then 0 else 1) ==> visit(visited[i].0, visited[i].1) == Ok
    {
      visited := [];
      ghost var t := slots[..];
      for i := 0 to slots.Length
        invariant forall e :: e in visited <==> exists j :: 0 <= j < i && t[j] == Occupied(e.0, e.1)
        invariant forall a, b :: 0 <= a < b < |visited| ==> visited[a].0 != visited[b].0
        invariant forall e :: e in visited ==> e.0 in Abs(t) && Abs(t)[e.0] == e.1
        invariant forall a :: 0 <= a < |visited| ==> visit(visited[a].0, visited[a].1) == Ok
      {
        if slots[i].Occupied? {
          AbsAt(t, i);
          visited := visited + [(slots[i].key, slots[i].value)];
          st := visit(slots[i].key, slots[i].value);
          if st != Ok {
            return;
          }
        }
      }
      st := Ok;
      forall k | k in Abs(t)
        ensures (k, Abs(t)[k]) in visited
      {
        var i := IndexOf(t, k);
        AbsAt(t, i);
      }
    }
  }
}
