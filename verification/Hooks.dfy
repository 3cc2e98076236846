/** Intrusive circular lists: hooks that are linked into lists by address.

    Hooks 0 .. nodes - 1 belong to elements and the hooks after them are list
    sentinels, one for each list. Erasing a hook does not name its list. */
module Hooks {
  import opened Links

  // Position i of the cycle that starts behind the sentinel z.
  function Ring(z: int, xs: seq<int>, i: int): int {
    if 0 <= i < |xs| then xs[i] else z
  }

  // The cycle through z visits exactly xs, in both directions.
  ghost predicate Circular(next: seq<int>, prev: seq<int>, z: int, xs: seq<int>) {
    && |next| == |prev| && 0 <= z < |next|
    && (forall i :: 0 <= i < |xs| ==> 0 <= xs[i] < |next|)
    && Distinct(xs) && z !in xs
    && (forall i {:trigger next[Ring(z, xs, i)]} :: -1 <= i < |xs| ==> next[Ring(z, xs, i)] == Ring(z, xs, i + 1))
    && (forall i {:trigger prev[Ring(z, xs, i)]} :: 0 <= i <= |xs| ==> prev[Ring(z, xs, i)] == Ring(z, xs, i - 1))
  }

  lemma CircularFrame(next: seq<int>, prev: seq<int>, next': seq<int>, prev': seq<int>, z: int, xs: seq<int>)
    requires Circular(next, prev, z, xs)
    requires |next'| == |next| && |prev'| == |prev|
    requires next'[z] == next[z] && prev'[z] == prev[z]
    requires forall x :: x in xs ==> next'[x] == next[x] && prev'[x] == prev[x]
    ensures Circular(next', prev', z, xs)
  {
    forall i | -1 <= i < |xs|
      ensures next'[Ring(z, xs, i)] == Ring(z, xs, i + 1)
    {
      assert next[Ring(z, xs, i)] == Ring(z, xs, i + 1);
      assert i >= 0 ==> xs[i] in xs;
    }
    forall i | 0 <= i <= |xs|
      ensures prev'[Ring(z, xs, i)] == Ring(z, xs, i - 1)
    {
      assert prev[Ring(z, xs, i)] == Ring(z, xs, i - 1);
      assert i < |xs| ==> xs[i] in xs;
    }
  }

  // What a hook's two links hold.
  lemma AroundHook(next: seq<int>, prev: seq<int>, z: int, xs: seq<int>, k: nat)
    requires Circular(next, prev, z, xs) && k < |xs|
    ensures next[xs[k]] == Ring(z, xs, k + 1) && prev[xs[k]] == Ring(z, xs, k - 1)
    ensures next[xs[k]] != xs[k] && prev[xs[k]] != xs[k]
    ensures next[z] == xs[0] && prev[z] == xs[|xs| - 1]
  {
    assert next[Ring(z, xs, k)] == Ring(z, xs, k + 1) && prev[Ring(z, xs, k)] == Ring(z, xs, k - 1);
    assert next[Ring(z, xs, -1)] == Ring(z, xs, 0) && prev[Ring(z, xs, |xs|)] == Ring(z, xs, |xs| - 1);
    assert xs[k] in xs;
  }

  lemma AroundSentinel(next: seq<int>, prev: seq<int>, z: int, xs: seq<int>)
    requires Circular(next, prev, z, xs)
    ensures next[z] == Ring(z, xs, 0) && prev[z] == Ring(z, xs, |xs| - 1)
  {
    assert next[Ring(z, xs, -1)] == Ring(z, xs, 0) && prev[Ring(z, xs, |xs|)] == Ring(z, xs, |xs| - 1);
  }

  lemma AroundEmpty(next: seq<int>, prev: seq<int>, z: int)
    requires Circular(next, prev, z, [])
    ensures next[z] == z && prev[z] == z
  {
    assert next[Ring(z, [], -1)] == Ring(z, [], 0) && prev[Ring(z, [], 0)] == Ring(z, [], -1);
  }

  // The links after erasing hook x.
  function ErasedNext(next: seq<int>, prev: seq<int>, x: int): seq<int>
    requires 0 <= x < |next| == |prev| && 0 <= prev[x] < |next|
  {
    next[prev[x] := next[x]][x := x]
  }

  function ErasedPrev(next: seq<int>, prev: seq<int>, x: int): seq<int>
    requires 0 <= x < |next| == |prev| && 0 <= next[x] < |prev|
  {
    prev[next[x] := prev[x]][x := x]
  }

  lemma CircularErase(next: seq<int>, prev: seq<int>, z: int, xs: seq<int>, k: nat)
    requires Circular(next, prev, z, xs) && k < |xs|
    ensures 0 <= next[xs[k]] < |prev| && 0 <= prev[xs[k]] < |next|
    ensures Circular(ErasedNext(next, prev, xs[k]), ErasedPrev(next, prev, xs[k]), z, RemoveAt(xs, k))
  {
    AroundHook(next, prev, z, xs, k);
    RemoveAtMembers(xs, k);
    var x, ys := xs[k], RemoveAt(xs, k);
    var next', prev' := ErasedNext(next, prev, x), ErasedPrev(next, prev, x);
    assert x in xs;
    forall i | -1 <= i < |ys|
      ensures next'[Ring(z, ys, i)] == Ring(z, ys, i + 1)
    {
      var j := if i < k then i else i + 1;
      assert Ring(z, ys, i) == Ring(z, xs, j);
      assert next[Ring(z, xs, j)] == Ring(z, xs, j + 1);
      RingApart(z, xs, j, k - 1);
      RingApart(z, xs, j, k);
    }
    forall i | 0 <= i <= |ys|
      ensures prev'[Ring(z, ys, i)] == Ring(z, ys, i - 1)
    {
      var j := if i < k then i else i + 1;
      assert Ring(z, ys, i) == Ring(z, xs, j);
      assert prev[Ring(z, xs, j)] == Ring(z, xs, j - 1);
      RingApart(z, xs, j, k + 1);
      RingApart(z, xs, j, k);
    }
  }

  lemma RingApart(z: int, xs: seq<int>, i: int, j: int)
    requires Distinct(xs) && z !in xs && -1 <= i <= |xs| && -1 <= j <= |xs|
    ensures Ring(z, xs, i) == Ring(z, xs, j) <==> i == j || {i, j} == {-1, |xs|}
  {
    assert forall m :: 0 <= m < |xs| ==> xs[m] in xs;
    if i != j && !(0 <= i < |xs|) && !(0 <= j < |xs|) {
      assert {i, j} == {-1, |xs|};
    } else if i != j {
      var m := if 0 <= i < |xs| then i else j;
      assert m in {i, j} && m !in {-1, |xs|};
    }
  }

  // The links after hook x has been put behind pos.
  function InsertedNext(next: seq<int>, pos: int, x: int): seq<int>
    requires 0 <= x < |next| && 0 <= pos < |next|
  {
    next[x := next[pos]][pos := x]
  }

  function InsertedPrev(next: seq<int>, prev: seq<int>, pos: int, x: int): seq<int>
    requires 0 <= x < |prev| && 0 <= pos < |next| && 0 <= next[pos] < |prev|
  {
    prev[x := pos][next[pos] := x]
  }

  lemma InsertedRing(z: int, xs: seq<int>, k: nat, x: int, i: int)
    requires k <= |xs| && -1 <= i <= |xs| + 1
    ensures Ring(z, InsertAt(xs, k, x), i) == if i == k then x else Ring(z, xs, if i < k then i else i - 1)
  {
  }

  lemma RingHolds(z: int, xs: seq<int>, i: int)
    ensures Ring(z, xs, i) in xs || Ring(z, xs, i) == z
  {
  }

  lemma NextAt(next: seq<int>, prev: seq<int>, z: int, xs: seq<int>, i: int)
    requires Circular(next, prev, z, xs) && -1 <= i < |xs|
    ensures 0 <= Ring(z, xs, i) < |next| && next[Ring(z, xs, i)] == Ring(z, xs, i + 1)
    ensures 0 <= Ring(z, xs, i + 1) < |prev| && prev[Ring(z, xs, i + 1)] == Ring(z, xs, i)
  {
  }

  lemma InsertedForward(next: seq<int>, prev: seq<int>, z: int, xs: seq<int>, k: nat, x: int, i: int)
    requires Circular(next, prev, z, xs) && k <= |xs| && 0 <= x < |next| && x !in xs && x != z && -1 <= i <= |xs|
    ensures var pos, ys := Ring(z, xs, k - 1), InsertAt(xs, k, x);
            0 <= pos < |next| && 0 <= Ring(z, ys, i) < |next| && InsertedNext(next, pos, x)[Ring(z, ys, i)] == Ring(z, ys, i + 1)
  {
    InsertedRing(z, xs, k, x, i);
    InsertedRing(z, xs, k, x, i + 1);
    NextAt(next, prev, z, xs, k - 1);
    RingHolds(z, xs, k - 1);
    if i != k {
      var j := if i < k then i else i - 1;
      NextAt(next, prev, z, xs, j);
      RingHolds(z, xs, j);
      RingApart(z, xs, j, k - 1);
    }
  }

  lemma InsertedBackward(next: seq<int>, prev: seq<int>, z: int, xs: seq<int>, k: nat, x: int, i: int)
    requires Circular(next, prev, z, xs) && k <= |xs| && 0 <= x < |next| && x !in xs && x != z && 0 <= i <= |xs| + 1
    ensures var pos, ys := Ring(z, xs, k - 1), InsertAt(xs, k, x);
            && 0 <= pos < |next| && 0 <= next[pos] < |prev| && 0 <= Ring(z, ys, i) < |prev|
            && InsertedPrev(next, prev, pos, x)[Ring(z, ys, i)] == Ring(z, ys, i - 1)
  {
    InsertedRing(z, xs, k, x, i);
    InsertedRing(z, xs, k, x, i - 1);
    NextAt(next, prev, z, xs, k - 1);
    RingHolds(z, xs, k);
    if i != k {
      var j := if i < k then i else i - 1;
      NextAt(next, prev, z, xs, j - 1);
      RingHolds(z, xs, j);
      RingApart(z, xs, j, k);
    }
  }

  lemma CircularInsert(next: seq<int>, prev: seq<int>, z: int, xs: seq<int>, k: nat, x: int)
    requires Circular(next, prev, z, xs) && k <= |xs| && 0 <= x < |next| && x !in xs && x != z
    ensures var pos := Ring(z, xs, k - 1);
            && 0 <= pos < |next| && 0 <= next[pos] < |prev| && next[pos] == Ring(z, xs, k)
            && Circular(InsertedNext(next, pos, x), InsertedPrev(next, prev, pos, x), z, InsertAt(xs, k, x))
  {
    var pos, ys := Ring(z, xs, k - 1), InsertAt(xs, k, x);
    assert next[Ring(z, xs, k - 1)] == Ring(z, xs, k);
    InsertAtMembers(xs, k, x);
    assert forall i :: 0 <= i < |ys| ==> ys[i] in ys;
    assert forall i :: 0 <= i < |xs| ==> xs[i] in xs;
    var next', prev' := InsertedNext(next, pos, x), InsertedPrev(next, prev, pos, x);
    forall i | -1 <= i < |ys|
      ensures next'[Ring(z, ys, i)] == Ring(z, ys, i + 1)
    {
      InsertedForward(next, prev, z, xs, k, x, i);
    }
    forall i | 0 <= i <= |ys|
      ensures prev'[Ring(z, ys, i)] == Ring(z, ys, i - 1)
    {
      InsertedBackward(next, prev, z, xs, k, x, i);
    }
  }

  // ---- All lists together ----

  // No hook is in two lists.
  ghost predicate Apart(lists: seq<seq<int>>, nodes: nat) {
    && (forall b, x :: 0 <= b < |lists| && x in lists[b] ==> 0 <= x < nodes)
    && (forall b, c, x :: 0 <= b < |lists| && 0 <= c < |lists| && x in lists[b] && x in lists[c] ==> b == c)
  }

  // Every list is a cycle of its own, and a hook in no list is linked to itself.
  ghost predicate Hooked(next: seq<int>, prev: seq<int>, nodes: nat, lists: seq<seq<int>>) {
    && |next| == |prev| == nodes + |lists|
    && (forall b :: 0 <= b < |lists| ==> Circular(next, prev, nodes + b, lists[b]))
    && Apart(lists, nodes)
    && (forall x :: 0 <= x < nodes && !InSome(lists, x) ==> next[x] == x && prev[x] == x)
  }

  lemma LinkedIff(next: seq<int>, prev: seq<int>, nodes: nat, lists: seq<seq<int>>, x: int)
    requires Hooked(next, prev, nodes, lists) && 0 <= x < nodes
    ensures next[x] != x <==> InSome(lists, x)
  {
    if InSome(lists, x) {
      var b :| 0 <= b < |lists| && x in lists[b];
      var k :| 0 <= k < |lists[b]| && lists[b][k] == x;
      AroundHook(next, prev, nodes + b, lists[b], k);
    }
  }

  lemma EraseRings(next: seq<int>, prev: seq<int>, nodes: nat, lists: seq<seq<int>>, b: nat, k: nat)
    requires Hooked(next, prev, nodes, lists) && b < |lists| && k < |lists[b]|
    ensures var x, before, after := lists[b][k], Ring(nodes + b, lists[b], k - 1), Ring(nodes + b, lists[b], k + 1);
            && next[x] == after && prev[x] == before
            && 0 <= after < |prev| && 0 <= before < |next|
            && (before in lists[b] || before == nodes + b) && (after in lists[b] || after == nodes + b)
    ensures var x := lists[b][k];
            var next', prev', lists' := ErasedNext(next, prev, x), ErasedPrev(next, prev, x), lists[b := RemoveAt(lists[b], k)];
            forall c :: 0 <= c < |lists| ==> Circular(next', prev', nodes + c, lists'[c])
  {
    var x, xs := lists[b][k], lists[b];
    CircularErase(next, prev, nodes + b, xs, k);
    AroundHook(next, prev, nodes + b, xs, k);
    var next', prev', lists' := ErasedNext(next, prev, x), ErasedPrev(next, prev, x), lists[b := RemoveAt(xs, k)];
    assert forall m :: 0 <= m < |xs| ==> xs[m] in xs;
    forall c | 0 <= c < |lists| && c != b
      ensures Circular(next', prev', nodes + c, lists'[c])
    {
      OtherRing(next, prev, nodes, lists, b, c, x);
    }
  }

  lemma OtherRing(next: seq<int>, prev: seq<int>, nodes: nat, lists: seq<seq<int>>, b: nat, c: nat, x: int)
    requires Hooked(next, prev, nodes, lists) && b < |lists| && c < |lists| && b != c && x in lists[b]
    requires next[x] in lists[b] || next[x] == nodes + b
    requires prev[x] in lists[b] || prev[x] == nodes + b
    ensures Circular(ErasedNext(next, prev, x), ErasedPrev(next, prev, x), nodes + c, lists[c])
  {
    assert forall y :: y in lists[c] ==> y !in lists[b] && y < nodes;
    CircularFrame(next, prev, ErasedNext(next, prev, x), ErasedPrev(next, prev, x), nodes + c, lists[c]);
  }

  lemma HookedErase(next: seq<int>, prev: seq<int>, nodes: nat, lists: seq<seq<int>>, b: nat, k: nat)
    requires Hooked(next, prev, nodes, lists) && b < |lists| && k < |lists[b]|
    ensures var x := lists[b][k];
            && 0 <= next[x] < |prev| && 0 <= prev[x] < |next|
            && Hooked(ErasedNext(next, prev, x), ErasedPrev(next, prev, x), nodes, lists[b := RemoveAt(lists[b], k)])
  {
    var x, xs := lists[b][k], lists[b];
    EraseRings(next, prev, nodes, lists, b, k);
    RemoveAtMembers(xs, k);
    var next', prev', lists' := ErasedNext(next, prev, x), ErasedPrev(next, prev, x), lists[b := RemoveAt(xs, k)];
    assert forall c, y :: 0 <= c < |lists| && y in lists'[c] ==> y in lists[c];
    forall y | 0 <= y < nodes && !InSome(lists', y)
      ensures next'[y] == y && prev'[y] == y
    {
      if y != x {
        assert forall c :: 0 <= c < |lists| && y in lists[c] ==> y in lists'[c];
        assert !InSome(lists, y);
        assert y !in xs;
      }
    }
  }

  lemma InsertRings(next: seq<int>, prev: seq<int>, nodes: nat, lists: seq<seq<int>>, b: nat, pos: int, x: int)
    requires Hooked(next, prev, nodes, lists) && b < |lists| && 0 <= x < nodes && !InSome(lists, x)
    requires 0 <= pos < |next| && 0 <= next[pos] < |prev|
    requires (pos in lists[b] || pos == nodes + b) && (next[pos] in lists[b] || next[pos] == nodes + b)
    ensures forall c :: 0 <= c < |lists| && c != b ==>
              Circular(InsertedNext(next, pos, x), InsertedPrev(next, prev, pos, x), nodes + c, lists[c])
  {
    var next', prev' := InsertedNext(next, pos, x), InsertedPrev(next, prev, pos, x);
    forall c | 0 <= c < |lists| && c != b
      ensures Circular(next', prev', nodes + c, lists[c])
    {
      assert forall y :: y in lists[c] ==> y !in lists[b] && y != x && y < nodes;
      CircularFrame(next, prev, next', prev', nodes + c, lists[c]);
    }
  }

  lemma InsertedSome(lists: seq<seq<int>>, b: nat, k: nat, x: int, y: int)
    requires b < |lists| && k <= |lists[b]|
    ensures InSome(lists[b := InsertAt(lists[b], k, x)], y) <==> InSome(lists, y) || y == x
  {
    var lists' := lists[b := InsertAt(lists[b], k, x)];
    InsertAtMembers(lists[b], k, x);
    assert x in lists'[b];
    assert forall c :: 0 <= c < |lists| && y in lists[c] ==> y in lists'[c];
    assert forall c :: 0 <= c < |lists| && y in lists'[c] && y != x ==> y in lists[c];
  }

  lemma InsertedRange(next: seq<int>, prev: seq<int>, nodes: nat, lists: seq<seq<int>>, b: nat, k: nat)
    requires Hooked(next, prev, nodes, lists) && b < |lists| && k <= |lists[b]|
    ensures var z, xs := nodes + b, lists[b];
            var pos := Ring(z, xs, k - 1);
            && 0 <= pos < |next| && next[pos] == Ring(z, xs, k) && 0 <= next[pos] < |prev|
            && (pos in xs || pos == z) && (next[pos] in xs || next[pos] == z)
  {
    var z, xs := nodes + b, lists[b];
    assert forall m :: 0 <= m < |xs| ==> xs[m] in xs;
    assert next[Ring(z, xs, k - 1)] == Ring(z, xs, k);
  }

  lemma InsertedApart(lists: seq<seq<int>>, nodes: nat, b: nat, k: nat, x: int)
    requires b < |lists| && k <= |lists[b]| && 0 <= x < nodes && !InSome(lists, x) && Apart(lists, nodes)
    ensures Apart(lists[b := InsertAt(lists[b], k, x)], nodes)
  {
    InsertAtMembers(lists[b], k, x);
  }

  lemma InsertedOthers(next: seq<int>, prev: seq<int>, nodes: nat, lists: seq<seq<int>>, b: nat, k: nat, x: int, y: int)
    requires Hooked(next, prev, nodes, lists) && b < |lists| && k <= |lists[b]| && 0 <= x < nodes
    requires 0 <= y < nodes && !InSome(lists[b := InsertAt(lists[b], k, x)], y)
    ensures var pos := Ring(nodes + b, lists[b], k - 1);
            && 0 <= pos < |next| && 0 <= next[pos] < |prev|
            && InsertedNext(next, pos, x)[y] == y && InsertedPrev(next, prev, pos, x)[y] == y
  {
    InsertedRange(next, prev, nodes, lists, b, k);
    InsertedSome(lists, b, k, x, y);
    assert y !in lists[b];
  }

  // The hook joins one list behind any of its places, and no other list.
  lemma HookedInsert(next: seq<int>, prev: seq<int>, nodes: nat, lists: seq<seq<int>>, b: nat, k: nat, x: int)
    requires Hooked(next, prev, nodes, lists) && b < |lists| && k <= |lists[b]| && 0 <= x < nodes && !InSome(lists, x)
    ensures var pos := Ring(nodes + b, lists[b], k - 1);
            && 0 <= pos < |next| && 0 <= next[pos] < |prev| && pos != x
            && Hooked(InsertedNext(next, pos, x), InsertedPrev(next, prev, pos, x), nodes, lists[b := InsertAt(lists[b], k, x)])
  {
    var pos, lists' := Ring(nodes + b, lists[b], k - 1), lists[b := InsertAt(lists[b], k, x)];
    InsertedRange(next, prev, nodes, lists, b, k);
    CircularInsert(next, prev, nodes + b, lists[b], k, x);
    InsertRings(next, prev, nodes, lists, b, pos, x);
    InsertedApart(lists, nodes, b, k, x);
    forall y | 0 <= y < nodes && !InSome(lists', y)
      ensures InsertedNext(next, pos, x)[y] == y && InsertedPrev(next, prev, pos, x)[y] == y
    {
      InsertedOthers(next, prev, nodes, lists, b, k, x, y);
    }
  }

  // Clearing a list only relinks its sentinel, so it leaves the lists in order
  // exactly when the list was empty: otherwise its former members still count
  // as linked.
  lemma ClearExact(next: seq<int>, prev: seq<int>, nodes: nat, lists: seq<seq<int>>, b: nat)
    requires Hooked(next, prev, nodes, lists) && b < |lists|
    ensures var z := nodes + b;
            Hooked(next[z := z], prev[z := z], nodes, lists[b := []]) <==> lists[b] == []
  {
    var z := nodes + b;
    if lists[b] == [] {
      AroundEmpty(next, prev, z);
      assert next[z := z] == next && prev[z := z] == prev && lists[b := []] == lists;
    } else {
      var x := lists[b][0];
      assert x in lists[b];
      AroundHook(next, prev, z, lists[b], 0);
      assert !InSome(lists[b := []], x);
    }
  }

  // So resetting all lists at once leaves them in order exactly when all were
  // empty.
  lemma ClearAllExact(next: seq<int>, prev: seq<int>, nodes: nat, lists: seq<seq<int>>, next': seq<int>, prev': seq<int>)
    requires Hooked(next, prev, nodes, lists) && |next'| == |next| && |prev'| == |prev|
    requires forall x :: 0 <= x < |next| ==> next'[x] == if x < nodes then next[x] else x
    requires forall x :: 0 <= x < |next| ==> prev'[x] == if x < nodes then prev[x] else x
    ensures Hooked(next', prev', nodes, seq(|lists|, _ => [])) <==> forall b :: 0 <= b < |lists| ==> lists[b] == []
  {
    var cleared := seq(|lists|, _ => []);
    if forall b :: 0 <= b < |lists| ==> lists[b] == [] {
      forall x | nodes <= x < |next|
        ensures next'[x] == next[x] && prev'[x] == prev[x]
      {
        AroundSentinel(next, prev, x, lists[x - nodes]);
      }
      assert next' == next && prev' == prev && cleared == lists;
    } else {
      var b: nat :| b < |lists| && lists[b] != [];
      var x := lists[b][0];
      assert x in lists[b];
      AroundHook(next, prev, nodes + b, lists[b], 0);
      assert !InSome(cleared, x);
    }
  }

  // A list without hook x, in the same order.
  function Without(xs: seq<int>, x: int): seq<int> {
    if xs == [] then []
    else Without(xs[..|xs| - 1], x) + if xs[|xs| - 1] == x then [] else [xs[|xs| - 1]]
  }

  lemma {:induction false} WithoutAbsent(xs: seq<int>, x: int)
    requires x !in xs
    ensures Without(xs, x) == xs
  {
    if xs != [] {
      assert xs == xs[..|xs| - 1] + [xs[|xs| - 1]];
      WithoutAbsent(xs[..|xs| - 1], x);
    }
  }

  lemma {:induction false} WithoutAt(xs: seq<int>, k: nat)
    requires Distinct(xs) && k < |xs|
    ensures Without(xs, xs[k]) == RemoveAt(xs, k)
  {
    var n, front := |xs| - 1, xs[..|xs| - 1];
    if k == n {
      assert xs[n] !in front;
      WithoutAbsent(front, xs[n]);
      assert RemoveAt(xs, n) == front;
    } else {
      WithoutAt(front, k);
      assert RemoveAt(xs, k) == RemoveAt(front, k) + [xs[n]];
    }
  }

  function AllWithout(lists: seq<seq<int>>, x: int): (r: seq<seq<int>>)
    ensures |r| == |lists|
    ensures forall b {:trigger r[b]} :: 0 <= b < |lists| ==> r[b] == Without(lists[b], x)
  {
    seq(|lists|, b requires 0 <= b < |lists| => Without(lists[b], x))
  }

  lemma AllWithoutAt(lists: seq<seq<int>>, b: nat, k: nat)
    requires b < |lists| && k < |lists[b]| && Distinct(lists[b])
    requires forall c :: 0 <= c < |lists| && c != b ==> lists[b][k] !in lists[c]
    ensures AllWithout(lists, lists[b][k]) == lists[b := RemoveAt(lists[b], k)]
  {
    var x := lists[b][k];
    WithoutAt(lists[b], k);
    forall c | 0 <= c < |lists| && c != b
      ensures Without(lists[c], x) == lists[c]
    {
      WithoutAbsent(lists[c], x);
    }
  }

  lemma AllWithoutAbsent(lists: seq<seq<int>>, x: int)
    requires !InSome(lists, x)
    ensures AllWithout(lists, x) == lists
  {
    forall c | 0 <= c < |lists|
      ensures Without(lists[c], x) == lists[c]
    {
      WithoutAbsent(lists[c], x);
    }
  }

  class HookPool {
    const nodes: nat
    const next: array<int>
    const prev: array<int>
    ghost var lists: seq<seq<int>>

    ghost predicate Valid()
      reads this, next, prev
    {
      next != prev && Hooked(next[..], prev[..], nodes, lists)
    }

    // Every hook starts linked to itself.
    constructor (nodes: nat, count: nat)
      ensures Valid() && this.nodes == nodes && lists == seq(count, _ => [])
      ensures fresh(next) && fresh(prev)
    {
      this.nodes := nodes;
      next, prev := new int[nodes + count](i => i), new int[nodes + count](i => i);
      lists := seq(count, _ => []);
    }

    method IsLinked(x: nat) returns (linked: bool)
      requires Valid() && x < nodes
      ensures linked == InSome(lists, x)
    {
      LinkedIff(next[..], prev[..], nodes, lists, x);
      return next[x] != x;
    }

    method IsEmpty(b: nat) returns (empty: bool)
      requires Valid() && b < |lists|
      ensures empty == (lists[b] == [])
    {
      if lists[b] == [] {
        AroundEmpty(next[..], prev[..], nodes + b);
      } else {
        AroundHook(next[..], prev[..], nodes + b, lists[b], 0);
        assert lists[b][0] in lists[b];
      }
      return next[nodes + b] == nodes + b;
    }

    method Front(b: nat) returns (x: int)
      requires Valid() && b < |lists|
      ensures lists[b] != [] ==> x == lists[b][0] && 0 <= x < nodes
    {
      if lists[b] != [] {
        AroundHook(next[..], prev[..], nodes + b, lists[b], 0);
        assert lists[b][0] in lists[b];
      }
      return next[nodes + b];
    }

    method Erase(x: nat)
      requires Valid() && x < nodes
      modifies `lists, next, prev
      ensures Valid() && lists == AllWithout(old(lists), x)
    {
      LinkedIff(next[..], prev[..], nodes, lists, x);
      if next[x] == x {
        AllWithoutAbsent(lists, x);
        return;
      }
      ghost var n, p := next[..], prev[..];
      ghost var b :| 0 <= b < |lists| && x in lists[b];
      ghost var k :| 0 <= k < |lists[b]| && lists[b][k] == x;
      AroundHook(n, p, nodes + b, lists[b], k);
      HookedErase(n, p, nodes, lists, b, k);
      AllWithoutAt(lists, b, k);
      next[prev[x]] := next[x];
      prev[next[x]] := prev[x];
      next[x], prev[x] := x, x;
      lists := lists[b := RemoveAt(lists[b], k)];
      assert next[..] == ErasedNext(n, p, x) && prev[..] == ErasedPrev(n, p, x);
    }

    // Whatever list and place the hook pos belongs to, x comes next to it there.
    method InsertAfter(pos: int, x: nat, ghost b: nat, ghost k: nat)
      requires Valid() && b < |lists| && k <= |lists[b]| && x < nodes && !InSome(lists, x)
      requires pos == Ring(nodes + b, lists[b], k - 1)
      modifies `lists, next, prev
      ensures Valid() && lists == old(lists)[b := InsertAt(old(lists)[b], k, x)]
    {
      ghost var n, p := next[..], prev[..];
      HookedInsert(n, p, nodes, lists, b, k, x);
      next[x] := next[pos];
      prev[x] := pos;
      prev[next[pos]] := x;
      next[pos] := x;
      lists := lists[b := InsertAt(lists[b], k, x)];
      assert next[..] == InsertedNext(n, pos, x) && prev[..] == InsertedPrev(n, p, pos, x);
    }

    method PushFront(b: nat, x: nat)
      requires Valid() && b < |lists| && x < nodes && !InSome(lists, x)
      modifies `lists, next, prev
      ensures Valid() && lists == old(lists)[b := [x] + old(lists)[b]]
    {
      assert InsertAt(lists[b], 0, x) == [x] + lists[b];
      InsertAfter(nodes + b, x, b, 0);
    }

    method PushBack(b: nat, x: nat)
      requires Valid() && b < |lists| && x < nodes && !InSome(lists, x)
      modifies `lists, next, prev
      ensures Valid() && lists == old(lists)[b := old(lists)[b] + [x]]
    {
      ghost var n := |lists[b]|;
      assert InsertAt(lists[b], n, x) == lists[b] + [x];
      AroundSentinel(next[..], prev[..], nodes + b, lists[b]);
      InsertAfter(prev[nodes + b], x, b, n);
    }
  }
}
