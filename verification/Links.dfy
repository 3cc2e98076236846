/** Linked lists laid over a pool of slots.

    A pointer into a pool is a slot index, the null pointer is NIL, and a link
    field of all slots together is a sequence of slot indices. A list is
    described by the sequence of slots it visits; a list that is also linked
    backwards visits the reversed sequence from its tail. */
module Links {

  const NIL := -1

  // The slot at position i, or NIL beyond either end of the list.
  function At(xs: seq<int>, i: int): int {
    if 0 <= i < |xs| then xs[i] else NIL
  }

  function RemoveAt<T>(xs: seq<T>, k: nat): (r: seq<T>)
    requires k < |xs|
    ensures |r| == |xs| - 1
    ensures forall i {:trigger r[i]} :: 0 <= i < |r| ==> r[i] == if i < k then xs[i] else xs[i + 1]
  {
    xs[..k] + xs[k + 1..]
  }

  function InsertAt<T>(xs: seq<T>, k: nat, x: T): (r: seq<T>)
    requires k <= |xs|
    ensures |r| == |xs| + 1
    ensures forall i {:trigger r[i]} :: 0 <= i < |r| ==> r[i] == if i < k then xs[i] else if i == k then x else xs[i - 1]
  {
    xs[..k] + [x] + xs[k..]
  }

  function Reversed<T>(xs: seq<T>): (r: seq<T>)
    ensures |r| == |xs|
    ensures forall i {:trigger r[i]} :: 0 <= i < |xs| ==> r[i] == xs[|xs| - 1 - i]
  {
    seq(|xs|, i requires 0 <= i < |xs| => xs[|xs| - 1 - i])
  }

  // The contents of the given slots of a pool.
  function Gather<T>(slots: seq<int>, pool: seq<T>): (es: seq<T>)
    requires forall i :: 0 <= i < |slots| ==> 0 <= slots[i] < |pool|
    ensures |es| == |slots|
    ensures forall i {:trigger es[i]} :: 0 <= i < |es| ==> es[i] == pool[slots[i]]
  {
    seq(|slots|, i requires 0 <= i < |slots| => pool[slots[i]])
  }

  ghost predicate Distinct<T>(xs: seq<T>) {
    forall i, j :: 0 <= i < j < |xs| ==> xs[i] != xs[j]
  }

  // Following `next` from `head` visits exactly xs and then stops.
  ghost predicate Linked(next: seq<int>, head: int, xs: seq<int>) {
    && (forall i :: 0 <= i < |xs| ==> 0 <= xs[i] < |next|)
    && head == At(xs, 0)
    && (forall i {:trigger next[xs[i]]} :: 0 <= i < |xs| ==> next[xs[i]] == At(xs, i + 1))
  }

  // A list that ends visits no slot twice.
  lemma LinkedDistinct(next: seq<int>, head: int, xs: seq<int>)
    requires Linked(next, head, xs)
    ensures Distinct(xs)
  {
    forall i, j | 0 <= i < j < |xs|
      ensures xs[i] != xs[j]
    {
      LinkedApart(next, head, xs, i, j);
    }
  }

  lemma {:induction false} LinkedApart(next: seq<int>, head: int, xs: seq<int>, i: nat, j: nat)
    requires Linked(next, head, xs)
    requires i < j < |xs|
    ensures xs[i] != xs[j]
    decreases |xs| - j
  {
    if xs[i] == xs[j] {
      assert next[xs[i]] == At(xs, i + 1) && next[xs[j]] == At(xs, j + 1);
      if j + 1 < |xs| {
        LinkedApart(next, head, xs, i + 1, j + 1);
      }
    }
  }

  // The list does not depend on the links of slots outside it.
  lemma LinkedFrame(next: seq<int>, next': seq<int>, head: int, xs: seq<int>)
    requires Linked(next, head, xs)
    requires |next'| == |next|
    requires forall s :: s in xs ==> next'[s] == next[s]
    ensures Linked(next', head, xs)
  {
    forall i | 0 <= i < |xs|
      ensures next'[xs[i]] == At(xs, i + 1)
    {
      assert xs[i] in xs;
      assert next[xs[i]] == At(xs, i + 1);
    }
  }

  // Links after slot s has been linked in at position k.
  function LinkIn(next: seq<int>, xs: seq<int>, k: nat, s: int): seq<int>
    requires k <= |xs| && 0 <= s < |next|
    requires forall i :: 0 <= i < |xs| ==> 0 <= xs[i] < |next|
  {
    if k == 0 then next[s := At(xs, 0)] else next[s := At(xs, k)][xs[k - 1] := s]
  }

  lemma LinkedInsert(next: seq<int>, head: int, xs: seq<int>, k: nat, s: int)
    requires Linked(next, head, xs) && k <= |xs|
    requires 0 <= s < |next| && s !in xs
    ensures Linked(LinkIn(next, xs, k, s), if k == 0 then s else head, InsertAt(xs, k, s))
  {
    LinkedDistinct(next, head, xs);
    var ys, next' := InsertAt(xs, k, s), LinkIn(next, xs, k, s);
    forall i | 0 <= i < |ys|
      ensures next'[ys[i]] == At(ys, i + 1)
    {
      LinkedInsertStep(next, head, xs, k, s, i);
    }
  }

  lemma LinkedInsertStep(next: seq<int>, head: int, xs: seq<int>, k: nat, s: int, i: nat)
    requires Linked(next, head, xs) && Distinct(xs) && k <= |xs|
    requires 0 <= s < |next| && s !in xs && i <= |xs|
    ensures var ys := InsertAt(xs, k, s);
            LinkIn(next, xs, k, s)[ys[i]] == At(ys, i + 1)
  {
    if i != k {
      var j := if i < k then i else i - 1;
      assert xs[j] in xs && next[xs[j]] == At(xs, j + 1);
      assert 0 < k && j != k - 1 ==> xs[j] != xs[k - 1];
    }
  }

  // Links after the predecessor of slot xs[k] has been made to skip it.
  function LinkOut(next: seq<int>, xs: seq<int>, k: nat): seq<int>
    requires k < |xs|
    requires forall i :: 0 <= i < |xs| ==> 0 <= xs[i] < |next|
  {
    if k == 0 then next else next[xs[k - 1] := next[xs[k]]]
  }

  lemma LinkedRemove(next: seq<int>, head: int, xs: seq<int>, k: nat)
    requires Linked(next, head, xs) && k < |xs|
    ensures Linked(LinkOut(next, xs, k), if k == 0 then next[xs[0]] else head, RemoveAt(xs, k))
  {
    LinkedDistinct(next, head, xs);
    var ys, next' := RemoveAt(xs, k), LinkOut(next, xs, k);
    forall i | 0 <= i < |ys|
      ensures next'[ys[i]] == At(ys, i + 1)
    {
      LinkedRemoveStep(next, head, xs, k, i);
    }
    assert next[xs[k]] == At(xs, k + 1);
  }

  lemma LinkedRemoveStep(next: seq<int>, head: int, xs: seq<int>, k: nat, i: nat)
    requires Linked(next, head, xs) && Distinct(xs) && k < |xs| && i < |xs| - 1
    ensures var ys := RemoveAt(xs, k);
            LinkOut(next, xs, k)[ys[i]] == At(ys, i + 1)
  {
    var j := if i < k then i else i + 1;
    assert next[xs[j]] == At(xs, j + 1) && next[xs[k]] == At(xs, k + 1);
    assert 0 < k && j != k - 1 ==> xs[j] != xs[k - 1];
  }

  // The removed slot's own link can be cleared.
  lemma LinkedUnlink(next: seq<int>, head: int, xs: seq<int>, k: nat)
    requires Linked(next, head, xs) && k < |xs|
    ensures Linked(LinkOut(next, xs, k)[xs[k] := NIL], if k == 0 then next[xs[0]] else head, RemoveAt(xs, k))
  {
    LinkedDistinct(next, head, xs);
    RemoveAtMembers(xs, k);
    LinkedRemove(next, head, xs, k);
    var next' := LinkOut(next, xs, k);
    LinkedFrame(next', next'[xs[k] := NIL], if k == 0 then next[xs[0]] else head, RemoveAt(xs, k));
  }

  lemma RemoveAtMembers<T>(xs: seq<T>, k: nat)
    requires k < |xs| && Distinct(xs)
    ensures Distinct(RemoveAt(xs, k))
    ensures forall x :: x in RemoveAt(xs, k) <==> x in xs && x != xs[k]
  {
    var ys := RemoveAt(xs, k);
    forall x | x in xs && x != xs[k]
      ensures x in ys
    {
      var i :| 0 <= i < |xs| && xs[i] == x;
      assert ys[if i < k then i else i - 1] == x;
    }
    forall x | x in ys
      ensures x in xs && x != xs[k]
    {
      var i :| 0 <= i < |ys| && ys[i] == x;
      assert x == xs[if i < k then i else i + 1];
    }
  }

  lemma InsertAtMembers<T>(xs: seq<T>, k: nat, x: T)
    requires k <= |xs|
    ensures forall y :: y in InsertAt(xs, k, x) <==> y in xs || y == x
    ensures Distinct(xs) && x !in xs ==> Distinct(InsertAt(xs, k, x))
  {
    var ys := InsertAt(xs, k, x);
    assert ys[k] == x;
    forall y | y in xs
      ensures y in ys
    {
      var i :| 0 <= i < |xs| && xs[i] == y;
      assert ys[if i < k then i else i + 1] == y;
    }
  }

  // Reversal turns insertion and removal at one end into the other end's.

  lemma ReversedMembers<T>(xs: seq<T>)
    ensures forall x :: x in Reversed(xs) <==> x in xs
  {
    forall x | x in xs
      ensures x in Reversed(xs)
    {
      var i :| 0 <= i < |xs| && xs[i] == x;
      assert Reversed(xs)[|xs| - 1 - i] == x;
    }
  }

  lemma ReversedInsert<T>(xs: seq<T>, k: nat, x: T)
    requires k <= |xs|
    ensures Reversed(InsertAt(xs, k, x)) == InsertAt(Reversed(xs), |xs| - k, x)
  {
    var ys, rs := InsertAt(xs, k, x), Reversed(xs);
    var a, b := Reversed(ys), InsertAt(rs, |xs| - k, x);
    forall i | 0 <= i < |a|
      ensures a[i] == b[i]
    {
      assert a[i] == ys[|xs| - i];
    }
  }

  lemma ReversedRemove<T>(xs: seq<T>, k: nat)
    requires k < |xs|
    ensures Reversed(RemoveAt(xs, k)) == RemoveAt(Reversed(xs), |xs| - 1 - k)
  {
    var ys, rs := RemoveAt(xs, k), Reversed(xs);
    var a, b := Reversed(ys), RemoveAt(rs, |xs| - 1 - k);
    forall i | 0 <= i < |a|
      ensures a[i] == b[i]
    {
      assert a[i] == ys[|ys| - 1 - i];
    }
  }

  // ---- Many lists over one pool ----

  ghost predicate InSome(lists: seq<seq<int>>, x: int) {
    exists b :: 0 <= b < |lists| && x in lists[b]
  }

  ghost predicate AllLinked(next: seq<int>, heads: seq<int>, chains: seq<seq<int>>) {
    && |chains| == |heads|
    && forall b :: 0 <= b < |chains| ==> Linked(next, heads[b], chains[b])
  }

  lemma AllLinkedFrame(next: seq<int>, next': seq<int>, heads: seq<int>, chains: seq<seq<int>>)
    requires AllLinked(next, heads, chains) && |next'| == |next|
    requires forall b, s :: 0 <= b < |chains| && s in chains[b] ==> next'[s] == next[s]
    ensures AllLinked(next', heads, chains)
  {
    forall b | 0 <= b < |chains|
      ensures Linked(next', heads[b], chains[b])
    {
      LinkedFrame(next, next', heads[b], chains[b]);
    }
  }

  // ---- Doubly linked lists ----

  ghost predicate DoublyLinked(next: seq<int>, prev: seq<int>, head: int, tail: int, xs: seq<int>) {
    Linked(next, head, xs) && Linked(prev, tail, Reversed(xs))
  }

  // Only the links of the list's own slots matter.
  lemma DoublyLinkedFrame(next: seq<int>, prev: seq<int>, next': seq<int>, prev': seq<int>, head: int, tail: int, xs: seq<int>)
    requires DoublyLinked(next, prev, head, tail, xs) && |next| == |prev| == |next'| == |prev'|
    requires forall s :: s in xs ==> next'[s] == next[s] && prev'[s] == prev[s]
    ensures DoublyLinked(next', prev', head, tail, xs)
  {
    ReversedMembers(xs);
    LinkedFrame(next, next', head, xs);
    LinkedFrame(prev, prev', tail, Reversed(xs));
  }

  // What the two links of a slot in the list hold.
  lemma Neighbours(next: seq<int>, prev: seq<int>, head: int, tail: int, xs: seq<int>, i: nat)
    requires DoublyLinked(next, prev, head, tail, xs) && i < |xs|
    ensures 0 <= xs[i] < |next| && 0 <= xs[i] < |prev|
    ensures next[xs[i]] == At(xs, i + 1) && prev[xs[i]] == At(xs, i - 1)
    ensures head == xs[0] && tail == xs[|xs| - 1]
  {
    var rs, j := Reversed(xs), |xs| - 1 - i;
    assert next[xs[i]] == At(xs, i + 1);
    assert rs[j] == xs[i] && prev[rs[j]] == At(rs, j + 1);
  }

  function Skip(links: seq<int>, from: int, to: int): seq<int>
    requires -1 <= from < |links|
  {
    if from != NIL then links[from := to] else links
  }

  // Unlinking a slot: its neighbours are joined and its own links cleared.
  lemma Unlink(next: seq<int>, prev: seq<int>, head: int, tail: int, xs: seq<int>, i: nat)
    requires DoublyLinked(next, prev, head, tail, xs) && i < |xs|
    ensures 0 <= xs[i] < |next| && 0 <= xs[i] < |prev|
    ensures var s := xs[i];
            && -1 <= prev[s] < |next| && -1 <= next[s] < |prev|
            && DoublyLinked(
                 Skip(next, prev[s], next[s])[s := NIL],
                 Skip(prev, next[s], prev[s])[s := NIL],
                 if prev[s] != NIL then head else next[s],
                 if next[s] != NIL then tail else prev[s],
                 RemoveAt(xs, i))
  {
    Neighbours(next, prev, head, tail, xs, i);
    UnlinkForward(next, head, xs, i, prev[xs[i]]);
    var rs, j := Reversed(xs), |xs| - 1 - i;
    ReversedAt(xs, j - 1);
    UnlinkForward(prev, tail, rs, j, next[xs[i]]);
    ReversedRemove(xs, i);
  }

  lemma UnlinkForward(next: seq<int>, head: int, xs: seq<int>, i: nat, before: int)
    requires Linked(next, head, xs) && i < |xs| && before == At(xs, i - 1)
    ensures -1 <= before < |next|
    ensures Linked(Skip(next, before, next[xs[i]])[xs[i] := NIL], if before != NIL then head else next[xs[i]], RemoveAt(xs, i))
  {
    LinkedUnlink(next, head, xs, i);
    assert LinkOut(next, xs, i) == Skip(next, before, next[xs[i]]);
  }

  // Linking a slot in at position i, before the slot that is there now.
  lemma LinkBefore(next: seq<int>, prev: seq<int>, head: int, tail: int, xs: seq<int>, i: nat, s: int)
    requires DoublyLinked(next, prev, head, tail, xs) && i <= |xs|
    requires 0 <= s < |next| && 0 <= s < |prev| && s !in xs
    ensures var before, after := At(xs, i - 1), At(xs, i);
            && -1 <= before < |next| && -1 <= after < |prev|
            && DoublyLinked(
                 Skip(next[s := after], before, s),
                 Skip(prev[s := before], after, s),
                 if before != NIL then head else s,
                 if after != NIL then tail else s,
                 InsertAt(xs, i, s))
  {
    var n, rs := |xs|, Reversed(xs);
    ReversedMembers(xs);
    ReversedAt(xs, n - i);
    ReversedAt(xs, n - i - 1);
    LinkForward(next, head, xs, i, s);
    LinkForward(prev, tail, rs, n - i, s);
    ReversedInsert(xs, i, s);
  }

  lemma ReversedAt(xs: seq<int>, j: int)
    ensures At(Reversed(xs), j) == At(xs, |xs| - 1 - j)
  {
  }

  lemma LinkForward(next: seq<int>, head: int, xs: seq<int>, i: nat, s: int)
    requires Linked(next, head, xs) && i <= |xs|
    requires 0 <= s < |next| && s !in xs
    ensures var before, after := At(xs, i - 1), At(xs, i);
            && -1 <= before < |next|
            && Linked(Skip(next[s := after], before, s), if before != NIL then head else s, InsertAt(xs, i, s))
  {
    LinkedInsert(next, head, xs, i, s);
    assert LinkIn(next, xs, i, s) == Skip(next[s := At(xs, i)], At(xs, i - 1), s);
  }

  function Members<T>(xs: seq<T>): (r: set<T>) {
    set x | x in xs
  }

  // A list without repetition is as long as the set of its members.
  lemma DistinctJoin(a: seq<int>, b: seq<int>)
    requires Distinct(a) && Distinct(b) && forall x :: x in a ==> x !in b
    ensures Distinct(a + b)
  {
    forall i, j | 0 <= i < j < |a + b|
      ensures (a + b)[i] != (a + b)[j]
    {
      assert i < |a| ==> (a + b)[i] in a;
      assert j >= |a| ==> (a + b)[j] in b;
    }
  }

  lemma {:induction false} DistinctCardinality<T>(xs: seq<T>)
    requires Distinct(xs)
    ensures |Members(xs)| == |xs|
  {
    if xs != [] {
      DistinctCardinality(xs[1..]);
      assert xs == [xs[0]] + xs[1..];
      assert Members(xs) == {xs[0]} + Members(xs[1..]);
    }
  }

  // The slots of a pool of n.
  function PoolSlots(n: nat): set<int> {
    Members(seq(n, i => i))
  }

  lemma SlotsOfPool(n: nat)
    ensures forall s :: s in PoolSlots(n) <==> 0 <= s < n
    ensures |PoolSlots(n)| == n
  {
    var all := seq(n, i => i);
    DistinctCardinality(all);
    forall s | 0 <= s < n
      ensures s in PoolSlots(n)
    {
      assert all[s] == s;
    }
  }

  // Distinct numbers below n are at most n, and if they are n, they are all.
  lemma Pigeonhole(xs: seq<int>, n: nat)
    requires Distinct(xs) && forall i :: 0 <= i < |xs| ==> 0 <= xs[i] < n
    ensures |xs| <= n
    ensures |xs| == n ==> forall x :: 0 <= x < n ==> x in xs
  {
    var members, all := Members(xs), PoolSlots(n);
    DistinctCardinality(xs);
    SlotsOfPool(n);
    assert forall x :: x in members ==> x in all;
    assert all == members + (all - members) && |all| == |members| + |all - members|;
    if |xs| == n {
      assert all - members == {};
      forall x | 0 <= x < n
        ensures x in xs
      {
        assert x in all && x !in all - members;
      }
    }
  }
}
