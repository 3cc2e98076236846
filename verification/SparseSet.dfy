/** The sparse set: two arrays that need no initialisation. */
module SparseSet {
  import opened Common
  import opened Links

  // The dense prefix, and for each of its ids its position; everything else in
  // the arrays is arbitrary.
  ghost predicate Mirrors(dense: seq<nat>, sparse: seq<nat>, size: nat) {
    && size <= |dense| == |sparse|
    && forall i :: 0 <= i < size ==> dense[i] < |sparse| && sparse[dense[i]] == i
  }

  ghost function IdsOf(dense: seq<nat>, size: nat): set<nat>
    requires size <= |dense|
  {
    set i | 0 <= i < size :: dense[i]
  }

  // An id passes the test exactly when it is in the dense prefix, whatever the
  // sparse array holds for ids that were never inserted.
  lemma TestExact(dense: seq<nat>, sparse: seq<nat>, size: nat, id: nat)
    requires Mirrors(dense, sparse, size) && id < |sparse|
    ensures sparse[id] < size && dense[sparse[id]] == id <==> id in IdsOf(dense, size)
  {
  }

  // The ids of a full prefix are all ids.
  lemma RoomForMissing(dense: seq<nat>, sparse: seq<nat>, size: nat, id: nat)
    requires Mirrors(dense, sparse, size) && id < |sparse| && id !in IdsOf(dense, size)
    ensures size < |dense|
  {
    var prefix := dense[..size];
    assert forall i :: 0 <= i < size ==> prefix[i] == dense[i] && sparse[prefix[i]] == i;
    Pigeonhole(prefix, |sparse|);
    assert id !in prefix;
  }

  lemma {:induction false} CardinalityIsSize(dense: seq<nat>, sparse: seq<nat>, size: nat)
    requires Mirrors(dense, sparse, size)
    ensures |IdsOf(dense, size)| == size
    decreases size
  {
    if size > 0 {
      CardinalityIsSize(dense, sparse, size - 1);
      assert IdsOf(dense, size) == IdsOf(dense, size - 1) + {dense[size - 1]};
    }
  }

  class IdSet {
    const dense: array<nat>
    const sparse: array<nat>
    const maxId: nat
    var size: nat

    ghost predicate Valid()
      reads this, dense, sparse
    {
      dense != sparse && dense.Length == sparse.Length == maxId && Mirrors(dense[..], sparse[..], size)
    }

    ghost function Ids(): set<nat>
      requires Valid()
      reads this, dense, sparse
    {
      IdsOf(dense[..], size)
    }

    // No position holds the same id as another, and there are size of them.
    lemma Listing()
      requires Valid()
      ensures |Ids()| == size <= maxId
      ensures forall i, j :: 0 <= i < j < size ==> dense[i] != dense[j]
      ensures forall id :: id in Ids() ==> id < maxId
    {
      CardinalityIsSize(dense[..], sparse[..], size);
    }

    // The arrays are taken as they are.
    constructor (dense: array<nat>, sparse: array<nat>)
      requires dense != sparse && 0 < dense.Length == sparse.Length
      ensures Valid() && Ids() == {} && this.dense == dense && this.sparse == sparse && maxId == dense.Length
    {
      this.dense, this.sparse, maxId, size := dense, sparse, dense.Length, 0;
    }

    static method Init(dense: array<nat>, sparse: array<nat>) returns (st: Status, ids: IdSet?)
      requires dense != sparse && dense.Length == sparse.Length
      ensures st == if dense.Length == 0 then Invalid else Ok
      ensures st == Ok ==> ids != null && ids.Valid() && ids.Ids() == {} && ids.maxId == dense.Length
    {
      if dense.Length == 0 {
        return Invalid, null;
      }
      ids := new IdSet(dense, sparse);
      return Ok, ids;
    }

    method Contains(id: nat) returns (present: bool)
      requires Valid()
      ensures present == (id in Ids())
    {
      if id >= maxId {
        return false;
      }
      TestExact(dense[..], sparse[..], size, id);
      var pos := sparse[id];
      return pos < size && dense[pos] == id;
    }

    method Insert(id: nat) returns (st: Status)
      requires Valid()
      modifies `size, dense, sparse
      ensures Valid()
      ensures if id < maxId then st == Ok && Ids() == old(Ids()) + {id} else st == Invalid && Ids() == old(Ids())
    {
      if id >= maxId {
        return Invalid;
      }
      var present := Contains(id);
      if present {
        assert old(Ids()) == old(Ids()) + {id};
        return Ok;
      }
      RoomForMissing(dense[..], sparse[..], size, id);
      ghost var d := dense[..];
      dense[size] := id;
      sparse[id] := size;
      size := size + 1;
      assert dense[..] == d[size - 1 := id];
      Extended(d, size - 1, id);
      return Ok;
    }

    lemma Extended(d: seq<nat>, n: nat, id: nat)
      requires n < |d|
      ensures IdsOf(d[n := id], n + 1) == IdsOf(d, n) + {id}
    {
      var d' := d[n := id];
      assert d'[n] == id;
      assert forall i :: 0 <= i < n ==> d'[i] == d[i];
    }

    // The last id takes the place of the removed one.
    method Remove(id: nat) returns (st: Status)
      requires Valid()
      modifies `size, dense, sparse
      ensures Valid()
      ensures st == (if id in old(Ids()) then Ok else NotFound) && Ids() == old(Ids()) - {id}
    {
      var present := Contains(id);
      if !present {
        return NotFound;
      }
      ghost var d, n := dense[..], size;
      var pos := sparse[id];
      var lastId := dense[size - 1];
      dense[pos] := lastId;
      sparse[lastId] := pos;
      sparse[id] := 0;
      size := size - 1;
      assert dense[..] == d[pos := lastId];
      Replaced(d, n, pos);
      return Ok;
    }

    lemma Replaced(d: seq<nat>, n: nat, pos: nat)
      requires pos < n <= |d| && forall i, j :: 0 <= i < j < n ==> d[i] != d[j]
      ensures IdsOf(d[pos := d[n - 1]], n - 1) == IdsOf(d, n) - {d[pos]}
    {
      var d' := d[pos := d[n - 1]];
      forall x | x in IdsOf(d, n) && x != d[pos]
        ensures x in IdsOf(d', n - 1)
      {
        var i :| 0 <= i < n && d[i] == x;
        assert d'[if i == n - 1 then pos else i] == x;
      }
    }

    method Clear()
      requires Valid()
      modifies `size
      ensures Valid() && Ids() == {}
    {
      size := 0;
    }
  }
}
