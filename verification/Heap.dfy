/** The priority queue core: a binary heap in an array. */
module Heap {
  import opened Common

  // ---- Order ----

  // The comparator's contract: a strict weak order.
  ghost predicate StrictWeak<T(!new)>(less: (T, T) -> bool) {
    forall a, b, c :: Ordered(less, a, b, c)
  }

  predicate Ordered<T>(less: (T, T) -> bool, a: T, b: T, c: T) {
    && !less(a, a)
    && (less(a, b) && less(b, c) ==> less(a, c))
    && (!less(a, b) && !less(b, c) ==> !less(a, c))
  }

  function Parent(i: nat): nat
    requires i > 0
  {
    (i - 1) / 2
  }

  ghost predicate Heaped<T>(s: seq<T>, less: (T, T) -> bool) {
    forall i {:trigger Parent(i)} :: 0 < i < |s| ==> !less(s[i], s[Parent(i)])
  }

  ghost predicate Least<T>(x: T, m: multiset<T>, less: (T, T) -> bool) {
    x in m && forall y :: y in m ==> !less(y, x)
  }

  lemma {:induction false} RootLeast<T(!new)>(s: seq<T>, less: (T, T) -> bool, i: nat)
    requires StrictWeak(less) && Heaped(s, less) && i < |s|
    ensures !less(s[i], s[0])
  {
    if i == 0 {
      assert Ordered(less, s[0], s[0], s[0]);
    } else {
      RootLeast(s, less, Parent(i));
      assert Ordered(less, s[i], s[Parent(i)], s[0]);
    }
  }

  lemma TopIsLeast<T(!new)>(s: seq<T>, less: (T, T) -> bool)
    requires StrictWeak(less) && Heaped(s, less) && s != []
    ensures Least(s[0], multiset(s), less)
  {
    forall y | y in multiset(s)
      ensures !less(y, s[0])
    {
      var i :| 0 <= i < |s| && s[i] == y;
      RootLeast(s, less, i);
    }
    assert s[0] in s;
  }

  function Swapped<T>(s: seq<T>, i: nat, j: nat): seq<T>
    requires i < |s| && j < |s|
  {
    s[i := s[j]][j := s[i]]
  }

  lemma SwapKeepsElements<T>(s: seq<T>, i: nat, j: nat)
    requires i < |s| && j < |s|
    ensures multiset(Swapped(s, i, j)) == multiset(s)
  {
  }

  // ---- Sifting up ----

  // In order but for element k, which may be too far down.
  ghost predicate HeapedButUp<T>(s: seq<T>, k: nat, less: (T, T) -> bool) {
    && (forall i {:trigger Parent(i)} :: 0 < i < |s| && i != k ==> !less(s[i], s[Parent(i)]))
    && (forall i {:trigger Parent(i)} :: 0 < i < |s| && Parent(i) == k && 0 < k ==> !less(s[i], s[Parent(k)]))
  }

  lemma SiftUpStep<T(!new)>(s: seq<T>, k: nat, less: (T, T) -> bool)
    requires StrictWeak(less) && 0 < k < |s| && HeapedButUp(s, k, less) && less(s[k], s[Parent(k)])
    ensures HeapedButUp(Swapped(s, k, Parent(k)), Parent(k), less)
  {
    var p := Parent(k);
    var s' := Swapped(s, k, p);
    forall i | 0 < i < |s|
      ensures i != p ==> !less(s'[i], s'[Parent(i)])
      ensures Parent(i) == p && 0 < p ==> !less(s'[i], s'[Parent(p)])
    {
      assert Ordered(less, s[p], s[k], s[p]);
      assert Ordered(less, s[i], s[k], s[p]);
      if 0 < p {
        assert Ordered(less, s[i], s[p], s[Parent(p)]);
      }
    }
  }

  lemma SiftedUp<T>(s: seq<T>, k: nat, less: (T, T) -> bool)
    requires k < |s| && HeapedButUp(s, k, less)
    ensures Heaped(s, less) <==> k == 0 || !less(s[k], s[Parent(k)])
  {
  }

  // The swaps that take element k up to its place.
  function Climb<T>(s: seq<T>, k: nat, less: (T, T) -> bool): nat
    requires k < |s|
    decreases k
  {
    if k == 0 || !less(s[k], s[Parent(k)]) then 0
    else 1 + Climb(Swapped(s, k, Parent(k)), Parent(k), less)
  }

  lemma {:induction false} ClimbBounded<T>(s: seq<T>, k: nat, less: (T, T) -> bool)
    requires k < |s|
    ensures Climb(s, k, less) <= k
    decreases k
  {
    if k > 0 {
      ClimbBounded(Swapped(s, k, Parent(k)), Parent(k), less);
    }
  }

  // When the last copy of a swap fails, the element that climbs is gone and
  // the one above it is there twice, in order.
  lemma ClimberLost<T(!new)>(s: seq<T>, k: nat, less: (T, T) -> bool)
    requires StrictWeak(less) && 0 < k < |s| && HeapedButUp(s, k, less) && less(s[k], s[Parent(k)])
    ensures Heaped(s[k := s[Parent(k)]], less)
  {
    var p := Parent(k);
    assert Ordered(less, s[p], s[p], s[p]);
  }

  lemma ElementReplaced<T>(s: seq<T>, k: nat, x: T)
    requires k < |s|
    ensures multiset(s[k := x]) == multiset(s) - multiset{s[k]} + multiset{x}
  {
  }

  // ---- Sifting down ----

  // In order but for element k, which may be too far up.
  ghost predicate HeapedButDown<T>(s: seq<T>, k: nat, less: (T, T) -> bool) {
    && (forall i {:trigger Parent(i)} :: 0 < i < |s| && Parent(i) != k ==> !less(s[i], s[Parent(i)]))
    && (forall i {:trigger Parent(i)} :: 0 < i < |s| && Parent(i) == k && 0 < k ==> !less(s[i], s[Parent(k)]))
  }

  // The least of element k and its children.
  ghost predicate SmallestOfFamily<T>(s: seq<T>, k: nat, c: nat, less: (T, T) -> bool) {
    && k < |s| && c < |s| && (c == k || c == 2 * k + 1 || c == 2 * k + 2)
    && !less(s[k], s[c])
    && (2 * k + 1 < |s| ==> !less(s[2 * k + 1], s[c]))
    && (2 * k + 2 < |s| ==> !less(s[2 * k + 2], s[c]))
  }

  lemma SiftDownStep<T(!new)>(s: seq<T>, k: nat, c: nat, less: (T, T) -> bool)
    requires StrictWeak(less) && HeapedButDown(s, k, less) && SmallestOfFamily(s, k, c, less) && c != k
    ensures HeapedButDown(Swapped(s, k, c), c, less)
  {
    var s' := Swapped(s, k, c);
    forall i | 0 < i < |s|
      ensures Parent(i) != c ==> !less(s'[i], s'[Parent(i)])
      ensures Parent(i) == c ==> !less(s'[i], s'[Parent(c)])
    {
      if Parent(i) == k {
        assert i == 2 * k + 1 || i == 2 * k + 2;
      }
      assert Parent(c) == k;
    }
  }

  lemma SiftedDown<T>(s: seq<T>, k: nat, less: (T, T) -> bool)
    requires k < |s| && HeapedButDown(s, k, less) && SmallestOfFamily(s, k, k, less)
    ensures Heaped(s, less)
  {
    forall i | 0 < i < |s|
      ensures !less(s[i], s[Parent(i)])
    {
      if Parent(i) == k {
        assert i == 2 * k + 1 || i == 2 * k + 2;
      }
    }
  }

  lemma Unsettled<T>(s: seq<T>, k: nat, c: nat, less: (T, T) -> bool)
    requires SmallestOfFamily(s, k, c, less) && c != k && less(s[c], s[k])
    ensures !Heaped(s, less)
  {
    assert Parent(c) == k;
  }

  // The child that element k is swapped with, or k itself.
  function SmallerChild<T>(s: seq<T>, k: nat, less: (T, T) -> bool): (c: nat)
    requires k < |s|
    ensures k <= c < |s|
  {
    var l, r := 2 * k + 1, 2 * k + 2;
    var c := if l < |s| && less(s[l], s[k]) then l else k;
    if r < |s| && less(s[r], s[c]) then r else c
  }

  lemma SmallerChildIsSmallest<T(!new)>(s: seq<T>, k: nat, less: (T, T) -> bool)
    requires StrictWeak(less) && k < |s|
    ensures var c := SmallerChild(s, k, less);
            SmallestOfFamily(s, k, c, less) && (c != k ==> less(s[c], s[k]))
  {
    var l, r := 2 * k + 1, 2 * k + 2;
    var c := if l < |s| && less(s[l], s[k]) then l else k;
    assert Ordered(less, s[k], s[k], s[k]);
    if c == l {
      assert Ordered(less, s[k], s[l], s[k]) && Ordered(less, s[l], s[l], s[l]);
    }
    if r < |s| && less(s[r], s[c]) {
      assert Ordered(less, s[r], s[c], s[r]) && Ordered(less, s[r], s[c], s[k]) && Ordered(less, s[k], s[c], s[r]);
      assert Ordered(less, s[r], s[r], s[r]) && Ordered(less, s[l], s[r], s[k]) && Ordered(less, s[k], s[l], s[r]);
    }
  }

  // The swaps that take element k down to its place.
  function Sink<T>(s: seq<T>, k: nat, less: (T, T) -> bool): nat
    requires k < |s|
    decreases |s| - k
  {
    var c := SmallerChild(s, k, less);
    if c == k then 0 else 1 + Sink(Swapped(s, k, c), c, less)
  }

  lemma {:induction false} SinkBounded<T>(s: seq<T>, k: nat, less: (T, T) -> bool)
    requires k < |s|
    ensures Sink(s, k, less) < |s| - k
    decreases |s| - k
  {
    var c := SmallerChild(s, k, less);
    if c != k {
      SinkBounded(Swapped(s, k, c), c, less);
    }
  }

  lemma SinkerLost<T(!new)>(s: seq<T>, k: nat, c: nat, less: (T, T) -> bool)
    requires StrictWeak(less) && HeapedButDown(s, k, less) && SmallestOfFamily(s, k, c, less) && c != k
    ensures Heaped(s[k := s[c]], less)
  {
    var s' := s[k := s[c]];
    forall i | 0 < i < |s|
      ensures !less(s'[i], s'[Parent(i)])
    {
      if Parent(i) == k {
        assert i == 2 * k + 1 || i == 2 * k + 2;
      }
      assert Parent(c) == k;
    }
  }

  // ---- Swaps that fail ----

  // Elements under a run-time policy are swapped through a buffer of this size.
  const SWAP_BUFFER := 256

  // A run-time policy's copies can fail: a budget tells how many of them succeed
  // before the next one fails. Other copies never fail.
  datatype Policy = Policy(runtime: bool, elemSize: nat)

  predicate CanSwap(policy: Policy) {
    policy.runtime ==> policy.elemSize <= SWAP_BUFFER
  }

  function SwapStatus(policy: Policy, budget: nat): Status {
    if !CanSwap(policy) then Invalid else if policy.runtime && budget < 3 then CopyFailed else Ok
  }

  // A failed copy leaves its destination as it was.
  function AfterSwap<T>(policy: Policy, s: seq<T>, i: nat, j: nat, budget: nat): (s': seq<T>)
    requires i < |s| && j < |s|
    ensures |s'| == |s|
  {
    match SwapStatus(policy, budget)
    case Ok => Swapped(s, i, j)
    case CopyFailed => if budget == 2 then s[i := s[j]] else s
    case _ => s
  }

  function LeftOver(policy: Policy, budget: nat): nat {
    if policy.runtime && budget >= 3 then budget - 3 else budget
  }

  // What sifting an element over a number of swaps answers.
  function SiftStatus(policy: Policy, swaps: nat, budget: nat): Status {
    if swaps == 0 then Ok
    else if !CanSwap(policy) then Invalid
    else if policy.runtime && budget < 3 * swaps then CopyFailed
    else Ok
  }

  // The copy that fails is the last of a swap: the element that was sifted is
  // gone, and another is there twice.
  predicate Loses(policy: Policy, swaps: nat, budget: nat) {
    SiftStatus(policy, swaps, budget) == CopyFailed && budget % 3 == 2
  }

  // The elements are those of s with a copy of element i over element k.
  predicate CopiedOver<T(==)>(s: seq<T>, k: nat, i: nat, s': seq<T>) {
    k < |s| && i < |s| && multiset(s') == multiset(s[k := s[i]])
  }

  ghost predicate Replaced<T>(s: seq<T>, k: nat, s': seq<T>) {
    exists i: nat :: CopiedOver(s, k, i, s')
  }

  // Sifting element k of s keeps all elements or, if it loses, all but that one.
  ghost predicate Kept<T>(policy: Policy, swaps: nat, budget: nat, s: seq<T>, k: nat, s': seq<T>)
    requires k < |s|
  {
    if Loses(policy, swaps, budget) then Replaced(s, k, s')
    else multiset(s') == multiset(s)
  }

  // Sifting ends in order.
  predicate Settles(policy: Policy, swaps: nat, budget: nat) {
    SiftStatus(policy, swaps, budget) == Ok || Loses(policy, swaps, budget)
  }

  lemma OneSwapLess(policy: Policy, swaps: nat, budget: nat)
    requires SwapStatus(policy, budget) == Ok
    ensures SiftStatus(policy, swaps + 1, budget) == SiftStatus(policy, swaps, LeftOver(policy, budget))
    ensures Loses(policy, swaps + 1, budget) == Loses(policy, swaps, LeftOver(policy, budget))
  {
  }

  // Keeping after one swap is keeping.
  lemma KeptBySwap<T>(policy: Policy, swaps: nat, budget: nat, s: seq<T>, i: nat, j: nat, s': seq<T>)
    requires i < |s| && j < |s| && SwapStatus(policy, budget) == Ok
    requires Kept(policy, swaps, LeftOver(policy, budget), Swapped(s, i, j), j, s')
    ensures Kept(policy, swaps + 1, budget, s, i, s')
  {
    OneSwapLess(policy, swaps, budget);
    if Loses(policy, swaps + 1, budget) {
      CopiedOverBySwap(s, i, j, s');
    } else {
      SwapKeepsElements(s, i, j);
    }
  }

  lemma CopiedOverBySwap<T>(s: seq<T>, i: nat, j: nat, s': seq<T>)
    requires i < |s| && j < |s| && Replaced(Swapped(s, i, j), j, s')
    ensures Replaced(s, i, s')
  {
    var m: nat :| CopiedOver(Swapped(s, i, j), j, m, s');
    var m' := if m == i then j else if m == j then i else m;
    SwapKeepsElements(s, i, j);
    ElementReplaced(Swapped(s, i, j), j, s[m']);
    ElementReplaced(s, i, s[m']);
    assert CopiedOver(s, i, m', s');
  }

  lemma KeptByFailure<T>(policy: Policy, swaps: nat, budget: nat, s: seq<T>, i: nat, j: nat)
    requires i < |s| && j < |s| && SwapStatus(policy, budget) != Ok && swaps > 0
    ensures Kept(policy, swaps, budget, s, i, AfterSwap(policy, s, i, j, budget))
  {
    if Loses(policy, swaps, budget) {
      assert CopiedOver(s, i, j, s[i := s[j]]);
    }
  }

  // ---- Sifting as a whole ----

  function Up<T>(policy: Policy, s: seq<T>, k: nat, less: (T, T) -> bool, budget: nat): (Status, seq<T>)
    requires k < |s|
    decreases k
  {
    if k == 0 || !less(s[k], s[Parent(k)]) then (Ok, s)
    else
      var s' := AfterSwap(policy, s, k, Parent(k), budget);
      if SwapStatus(policy, budget) != Ok then (SwapStatus(policy, budget), s')
      else Up(policy, s', Parent(k), less, LeftOver(policy, budget))
  }

  lemma {:induction false} UpStatus<T>(policy: Policy, s: seq<T>, k: nat, less: (T, T) -> bool, budget: nat)
    requires k < |s|
    ensures Up(policy, s, k, less, budget).0 == SiftStatus(policy, Climb(s, k, less), budget)
    ensures |Up(policy, s, k, less, budget).1| == |s|
    decreases k
  {
    if k > 0 && less(s[k], s[Parent(k)]) && SwapStatus(policy, budget) == Ok {
      UpStatus(policy, Swapped(s, k, Parent(k)), Parent(k), less, LeftOver(policy, budget));
    }
  }

  lemma {:induction false} UpElements<T>(policy: Policy, s: seq<T>, k: nat, less: (T, T) -> bool, budget: nat)
    requires k < |s|
    ensures Kept(policy, Climb(s, k, less), budget, s, k, Up(policy, s, k, less, budget).1)
    decreases k
  {
    if k > 0 && less(s[k], s[Parent(k)]) {
      if SwapStatus(policy, budget) == Ok {
        var s' := Swapped(s, k, Parent(k));
        UpElements(policy, s', Parent(k), less, LeftOver(policy, budget));
        KeptBySwap(policy, Climb(s', Parent(k), less), budget, s, k, Parent(k), Up(policy, s, k, less, budget).1);
      } else {
        KeptByFailure(policy, Climb(s, k, less), budget, s, k, Parent(k));
      }
    }
  }

  lemma {:induction false} UpOrder<T(!new)>(policy: Policy, s: seq<T>, k: nat, less: (T, T) -> bool, budget: nat)
    requires k < |s| && StrictWeak(less) && HeapedButUp(s, k, less)
    ensures Heaped(Up(policy, s, k, less, budget).1, less) <==> Settles(policy, Climb(s, k, less), budget)
    decreases k
  {
    SiftedUp(s, k, less);
    if k > 0 && less(s[k], s[Parent(k)]) {
      if SwapStatus(policy, budget) != Ok {
        ClimberLost(s, k, less);
      } else {
        SiftUpStep(s, k, less);
        OneSwapLess(policy, Climb(Swapped(s, k, Parent(k)), Parent(k), less), budget);
        UpOrder(policy, Swapped(s, k, Parent(k)), Parent(k), less, LeftOver(policy, budget));
      }
    }
  }

  function Down<T>(policy: Policy, s: seq<T>, k: nat, less: (T, T) -> bool, budget: nat): (Status, seq<T>)
    requires k < |s|
    decreases |s| - k
  {
    var c := SmallerChild(s, k, less);
    if c == k then (Ok, s)
    else
      var s' := AfterSwap(policy, s, k, c, budget);
      if SwapStatus(policy, budget) != Ok then (SwapStatus(policy, budget), s')
      else Down(policy, s', c, less, LeftOver(policy, budget))
  }

  lemma {:induction false} DownStatus<T>(policy: Policy, s: seq<T>, k: nat, less: (T, T) -> bool, budget: nat)
    requires k < |s|
    ensures Down(policy, s, k, less, budget).0 == SiftStatus(policy, Sink(s, k, less), budget)
    ensures |Down(policy, s, k, less, budget).1| == |s|
    decreases |s| - k
  {
    var c := SmallerChild(s, k, less);
    if c != k && SwapStatus(policy, budget) == Ok {
      DownStatus(policy, Swapped(s, k, c), c, less, LeftOver(policy, budget));
    }
  }

  lemma {:induction false} DownElements<T>(policy: Policy, s: seq<T>, k: nat, less: (T, T) -> bool, budget: nat)
    requires k < |s|
    ensures Kept(policy, Sink(s, k, less), budget, s, k, Down(policy, s, k, less, budget).1)
    decreases |s| - k
  {
    var c := SmallerChild(s, k, less);
    if c != k {
      if SwapStatus(policy, budget) == Ok {
        var s' := Swapped(s, k, c);
        DownElements(policy, s', c, less, LeftOver(policy, budget));
        KeptBySwap(policy, Sink(s', c, less), budget, s, k, c, Down(policy, s, k, less, budget).1);
      } else {
        KeptByFailure(policy, Sink(s, k, less), budget, s, k, c);
      }
    }
  }

  lemma {:induction false} DownOrder<T(!new)>(policy: Policy, s: seq<T>, k: nat, less: (T, T) -> bool, budget: nat)
    requires k < |s| && StrictWeak(less) && HeapedButDown(s, k, less)
    ensures Heaped(Down(policy, s, k, less, budget).1, less) <==> Settles(policy, Sink(s, k, less), budget)
    decreases |s| - k
  {
    var c := SmallerChild(s, k, less);
    SmallerChildIsSmallest(s, k, less);
    if c == k {
      SiftedDown(s, k, less);
    } else {
      if SwapStatus(policy, budget) != Ok {
        Unsettled(s, k, c, less);
        SinkerLost(s, k, c, less);
      } else {
        SiftDownStep(s, k, c, less);
        OneSwapLess(policy, Sink(Swapped(s, k, c), c, less), budget);
        DownOrder(policy, Swapped(s, k, c), c, less, LeftOver(policy, budget));
      }
    }
  }

  // ---- What push and pop do before they sift ----

  lemma Appended<T>(s: seq<T>, x: T, less: (T, T) -> bool)
    requires Heaped(s, less)
    ensures HeapedButUp(s + [x], |s|, less)
  {
    var s' := s + [x];
    forall i | 0 < i < |s'| && i != |s|
      ensures !less(s'[i], s'[Parent(i)]) && Parent(i) != |s|
    {
      assert s'[i] == s[i] && s'[Parent(i)] == s[Parent(i)];
    }
  }

  function WithLastAsRoot<T>(s: seq<T>): (s': seq<T>)
    requires |s| > 1
    ensures |s'| == |s| - 1
  {
    s[..|s| - 1][0 := s[|s| - 1]]
  }

  lemma RootReplaced<T>(s: seq<T>, less: (T, T) -> bool)
    requires |s| > 1
    ensures multiset(WithLastAsRoot(s)) == multiset(s) - multiset{s[0]}
    ensures Heaped(s, less) ==> HeapedButDown(WithLastAsRoot(s), 0, less)
  {
    var n := |s| - 1;
    assert s == [s[0]] + s[1..n] + [s[n]];
    assert WithLastAsRoot(s) == [s[n]] + s[1..n];
  }

  // What a push leaves of s, and answers, once the new element is in the array.
  ghost predicate PushSifts<T>(policy: Policy, s: seq<T>, x: T, less: (T, T) -> bool, budget: nat, st: Status, s': seq<T>) {
    var swaps := Climb(s + [x], |s|, less);
    && st == SiftStatus(policy, swaps, budget)
    && (if Loses(policy, swaps, budget) then Replaced(s + [x], |s|, s')
        else multiset(s') == multiset(s) + multiset{x})
    && (Heaped(s, less) ==> (Heaped(s', less) <==> Settles(policy, swaps, budget)))
  }

  // What a pop leaves of s, and answers, once the last element is at the root.
  ghost predicate PopSifts<T>(policy: Policy, s: seq<T>, less: (T, T) -> bool, budget: nat, st: Status, s': seq<T>)
    requires |s| > 1
  {
    var r := WithLastAsRoot(s);
    var swaps := Sink(r, 0, less);
    && st == SiftStatus(policy, swaps, budget)
    && (if Loses(policy, swaps, budget) then Replaced(r, 0, s')
        else multiset(s') == multiset(s) - multiset{s[0]})
    && (Heaped(s, less) ==> (Heaped(s', less) <==> Settles(policy, swaps, budget)))
  }

  // When elements are too large to swap, a push leaves the queue in order
  // exactly when the new element is not less than the parent of its place ...
  lemma PushInOrderIff<T>(policy: Policy, s: seq<T>, x: T, less: (T, T) -> bool, budget: nat, st: Status, s': seq<T>)
    requires PushSifts(policy, s, x, less, budget, st, s') && Heaped(s, less)
    requires policy.runtime ==> budget >= 3 * (|s| + 1)
    ensures Heaped(s', less) <==> st == Ok
    ensures Heaped(s', less) <==> CanSwap(policy) || s == [] || !less(x, s[Parent(|s|)])
    ensures multiset(s') == multiset(s) + multiset{x}
  {
    ClimbBounded(s + [x], |s|, less);
    if s != [] {
      assert (s + [x])[Parent(|s|)] == s[Parent(|s|)];
    }
  }

  // ... and a pop exactly when the last element is not greater than a child of
  // the root that remains.
  lemma PopInOrderIff<T>(policy: Policy, s: seq<T>, less: (T, T) -> bool, budget: nat, st: Status, s': seq<T>)
    requires |s| > 1 && PopSifts(policy, s, less, budget, st, s') && Heaped(s, less)
    requires policy.runtime ==> budget >= 3 * |s|
    ensures Heaped(s', less) <==> st == Ok
    ensures Heaped(s', less) <==> CanSwap(policy) || forall c :: 1 <= c <= 2 && c < |s| - 1 ==> !less(s[c], s[|s| - 1])
    ensures multiset(s') == multiset(s) - multiset{s[0]}
  {
    var r := WithLastAsRoot(s);
    SinkBounded(r, 0, less);
    assert forall c :: 1 <= c < |r| ==> r[c] == s[c];
    if SmallerChild(r, 0, less) == 0 {
      assert forall c :: 1 <= c <= 2 && c < |s| - 1 ==> !less(s[c], s[|s| - 1]);
    } else {
      RootSmaller(r, less);
    }
  }

  lemma RootSmaller<T>(r: seq<T>, less: (T, T) -> bool)
    requires r != [] && SmallerChild(r, 0, less) != 0
    ensures exists c :: 1 <= c <= 2 && c < |r| && less(r[c], r[0])
  {
    if |r| > 1 && less(r[1], r[0]) {
    } else {
      assert |r| > 2 && less(r[2], r[0]);
    }
  }

  // Elements of 257 bytes under a run-time policy, least first: the second push
  // answers Invalid and leaves 1 below 2; so does the pop that brings 3 to the
  // root above 2.
  lemma OversizedExamples()
    ensures var policy, less := Policy(true, 257), (a: int, b: int) => a < b;
            && Heaped([2], less) && !Heaped([2, 1], less) && SiftStatus(policy, Climb([2, 1], 1, less), 1000) == Invalid
            && Heaped([1, 2, 2, 3], less) && !Heaped(WithLastAsRoot([1, 2, 2, 3]), less)
            && SiftStatus(policy, Sink(WithLastAsRoot([1, 2, 2, 3]), 0, less), 1000) == Invalid
  {
    var less := (a: int, b: int) => a < b;
    assert Parent(1) == 0 && Parent(2) == 0 && Parent(3) == 1;
    var s := [2, 1];
    assert less(s[1], s[Parent(1)]);
    var r := WithLastAsRoot([1, 2, 2, 3]);
    assert r == [3, 2, 2];
    assert less(r[1], r[Parent(1)]);
  }

  // Three copies succeed, the fourth fails: 1 is pushed onto [2] and lost.
  lemma LosingExample()
    ensures var policy, less := Policy(true, 8), (a: int, b: int) => a < b;
            Up(policy, [2, 1], 1, less, 2) == (CopyFailed, [2, 2]) && Loses(policy, Climb([2, 1], 1, less), 2)
  {
    var policy, less := Policy(true, 8), (a: int, b: int) => a < b;
    var s := [2, 1];
    assert Parent(1) == 0 && less(s[1], s[Parent(1)]);
    assert s[1 := s[0]] == [2, 2];
  }

  // ---- Popping everything ----

  // One successful pop takes a least element away.
  ghost predicate Popped<T>(m: multiset<T>, x: T, m': multiset<T>, less: (T, T) -> bool) {
    Least(x, m, less) && m' == m - multiset{x}
  }

  ghost predicate Pops<T>(heaps: seq<multiset<T>>, outs: seq<T>, less: (T, T) -> bool) {
    && |heaps| == |outs| + 1
    && forall k :: 0 <= k < |outs| ==> Popped(heaps[k], outs[k], heaps[k + 1], less)
  }

  lemma PopsMore<T>(heaps: seq<multiset<T>>, outs: seq<T>, x: T, m: multiset<T>, less: (T, T) -> bool)
    requires Pops(heaps, outs, less) && Popped(heaps[|outs|], x, m, less)
    ensures Pops(heaps + [m], outs + [x], less)
  {
  }

  // Popping until the queue is empty.
  ghost predicate PopRun<T>(heaps: seq<multiset<T>>, outs: seq<T>, less: (T, T) -> bool) {
    Pops(heaps, outs, less) && heaps[|outs|] == multiset{}
  }

  lemma PopRunTail<T>(heaps: seq<multiset<T>>, outs: seq<T>, less: (T, T) -> bool)
    requires PopRun(heaps, outs, less) && outs != []
    ensures Popped(heaps[0], outs[0], heaps[1], less) && PopRun(heaps[1..], outs[1..], less)
  {
    var hs, rest := heaps[1..], outs[1..];
    forall k | 0 <= k < |rest|
      ensures Popped(hs[k], rest[k], hs[k + 1], less)
    {
      assert Popped(heaps[k + 1], outs[k + 1], heaps[k + 2], less);
    }
  }

  lemma {:induction false} PoppingYieldsAll<T>(heaps: seq<multiset<T>>, outs: seq<T>, less: (T, T) -> bool)
    requires PopRun(heaps, outs, less)
    ensures multiset(outs) == heaps[0]
    decreases |outs|
  {
    if outs != [] {
      PopRunTail(heaps, outs, less);
      PoppingYieldsAll(heaps[1..], outs[1..], less);
      assert outs == [outs[0]] + outs[1..];
    }
  }

  // Popping until empty yields everything, in order.
  lemma {:induction false} PoppingSorts<T>(heaps: seq<multiset<T>>, outs: seq<T>, less: (T, T) -> bool)
    requires PopRun(heaps, outs, less)
    ensures multiset(outs) == heaps[0]
    ensures forall i, j :: 0 <= i < j < |outs| ==> !less(outs[j], outs[i])
    decreases |outs|
  {
    PoppingYieldsAll(heaps, outs, less);
    if outs != [] {
      PopRunTail(heaps, outs, less);
      PoppingSorts(heaps[1..], outs[1..], less);
      forall j | 0 < j < |outs|
        ensures !less(outs[j], outs[0])
      {
        assert outs[j] in multiset(outs);
      }
      assert forall i :: 0 < i < |outs| ==> outs[i] == outs[1..][i - 1];
    }
  }

  // ---- The queue ----

  class PriorityQueue<T(!new)> {
    const less: (T, T) -> bool
    const storage: array<T>
    const policy: Policy
    const growable: bool
    var size: nat

    ghost predicate Valid()
      reads this
    {
      StrictWeak(less) && size <= storage.Length
    }

    ghost function Elements(): seq<T>
      requires Valid()
      reads this, storage
    {
      storage[..size]
    }

    ghost predicate InOrder()
      requires Valid()
      reads this, storage
    {
      Heaped(Elements(), less)
    }

    constructor (less: (T, T) -> bool, storage: array<T>, policy: Policy, growable: bool)
      requires StrictWeak(less) && 0 < storage.Length
      ensures Valid() && InOrder() && Elements() == []
      ensures this.less == less && this.storage == storage && this.policy == policy && this.growable == growable
    {
      this.less, this.storage, this.policy, this.growable, size := less, storage, policy, growable, 0;
    }

    predicate IsFull()
      reads this
    {
      !growable && size >= storage.Length
    }

    method SwapElements(left: nat, right: nat, budget: nat) returns (st: Status, rest: nat)
      requires Valid() && left < size && right < size
      modifies storage
      ensures st == SwapStatus(policy, budget)
      ensures st == if policy.runtime && policy.elemSize > 256 then Invalid else if policy.runtime && budget < 3 then CopyFailed else Ok
      ensures st == Ok ==> Elements() == old(Elements())[left := old(storage[right])][right := old(storage[left])]
      ensures Elements() == AfterSwap(policy, old(Elements()), left, right, budget)
      ensures rest == LeftOver(policy, budget) || st != Ok
      ensures st == Ok ==> multiset(Elements()) == multiset(old(Elements()))
      ensures st == CopyFailed && budget == 2 ==>
                multiset(Elements()) == multiset(old(Elements())) - multiset{old(storage[left])} + multiset{old(storage[right])}
      ensures st != Ok && !(st == CopyFailed && budget == 2) ==> Elements() == old(Elements())
    {
      rest := budget;
      ghost var s := Elements();
      SwapKeepsElements(s, left, right);
      ElementReplaced(s, left, s[right]);
      if policy.runtime {
        if policy.elemSize > SWAP_BUFFER {
          return Invalid, rest;
        }
        if budget < 2 {
          return CopyFailed, rest;
        }
      }
      var temp := storage[left];
      storage[left] := storage[right];
      assert Elements() == s[left := s[right]];
      if policy.runtime {
        if budget == 2 {
          return CopyFailed, rest;
        }
        rest := budget - 3;
      }
      storage[right] := temp;
      assert Elements() == Swapped(s, left, right);
      return Ok, rest;
    }

    method SiftUp(start: nat, budget: nat) returns (st: Status)
      requires Valid() && start < size
      modifies storage
      ensures st == SiftStatus(policy, Climb(old(Elements()), start, less), budget)
      ensures Kept(policy, Climb(old(Elements()), start, less), budget, old(Elements()), start, Elements())
      ensures HeapedButUp(old(Elements()), start, less) ==>
                (InOrder() <==> Settles(policy, Climb(old(Elements()), start, less), budget))
    {
      ghost var s := Elements();
      UpStatus(policy, s, start, less, budget);
      UpElements(policy, s, start, less, budget);
      if HeapedButUp(s, start, less) {
        UpOrder(policy, s, start, less, budget);
      }
      var index: nat, rest := start, budget;
      while index > 0
        invariant index < size
        invariant Up(policy, s, start, less, budget) == Up(policy, Elements(), index, less, rest)
      {
        var parent := (index - 1) / 2;
        if !less(storage[index], storage[parent]) {
          break;
        }
        st, rest := SwapElements(index, parent, rest);
        if st != Ok {
          return;
        }
        index := parent;
      }
      return Ok;
    }

    method SmallestChild(index: nat) returns (smallest: nat)
      requires Valid() && index < size
      ensures smallest == SmallerChild(Elements(), index, less)
    {
      smallest := index;
      var left := index * 2 + 1;
      var right := left + 1;
      if left < size && less(storage[left], storage[smallest]) {
        smallest := left;
      }
      if right < size && less(storage[right], storage[smallest]) {
        smallest := right;
      }
    }

    method SiftDown(start: nat, budget: nat) returns (st: Status)
      requires Valid() && start < size
      modifies storage
      ensures st == SiftStatus(policy, Sink(old(Elements()), start, less), budget)
      ensures Kept(policy, Sink(old(Elements()), start, less), budget, old(Elements()), start, Elements())
      ensures HeapedButDown(old(Elements()), start, less) ==>
                (InOrder() <==> Settles(policy, Sink(old(Elements()), start, less), budget))
    {
      ghost var s := Elements();
      DownStatus(policy, s, start, less, budget);
      DownElements(policy, s, start, less, budget);
      if HeapedButDown(s, start, less) {
        DownOrder(policy, s, start, less, budget);
      }
      var index, rest := start, budget;
      while true
        invariant index < size
        invariant Down(policy, s, start, less, budget) == Down(policy, Elements(), index, less, rest)
        decreases size - index
      {
        var smallest := SmallestChild(index);
        if smallest == index {
          break;
        }
        st, rest := SwapElements(index, smallest, rest);
        if st != Ok {
          return;
        }
        index := smallest;
      }
      return Ok;
    }

    // A growable queue's wrapper makes room first. The new element is in the
    // queue even if sifting fails, unless the swap that fails loses it.
    method Push(value: T, budget: nat) returns (st: Status)
      requires Valid() && (growable ==> size < storage.Length)
      modifies `size, storage
      ensures Valid()
      ensures old(IsFull()) ==> st == Full && Elements() == old(Elements())
      ensures !old(IsFull()) && policy.runtime && budget == 0 ==> st == CopyFailed && Elements() == old(Elements())
      ensures !old(IsFull()) && (policy.runtime ==> budget > 0) ==>
                && size == old(size) + 1
                && PushSifts(policy, old(Elements()), value, less, if policy.runtime then budget - 1 else budget, st, Elements())
    {
      if IsFull() {
        return Full;
      }
      if policy.runtime && budget == 0 {
        return CopyFailed;
      }
      ghost var s := Elements();
      storage[size] := value;
      size := size + 1;
      assert Elements() == s + [value];
      if Heaped(s, less) {
        Appended(s, value, less);
      }
      st := SiftUp(size - 1, if policy.runtime then budget - 1 else budget);
    }

    // Without a destination nothing is copied out. When the last element cannot
    // be copied, the root stays in the queue even if it has been copied out.
    method Pop(wanted: bool, budget: nat) returns (st: Status, out: Option<T>)
      requires Valid()
      modifies `size, storage
      ensures Valid()
      ensures old(size) == 0 ==> st == Empty && out == None && Elements() == []
      ensures old(size) > 0 && CopiesFor(wanted, budget) < 0 ==> st == CopyFailed && out == None && Elements() == old(Elements())
      ensures old(size) > 0 && CopiesFor(wanted, budget) >= 0 ==>
                && out == (if wanted then Some(old(Elements())[0]) else None)
                && RootGone(old(Elements()), CopiesFor(wanted, budget), st, Elements())
      ensures old(InOrder()) && out.Some? ==> Least(out.value, multiset(old(Elements())), less)
    {
      out := None;
      if size == 0 {
        return Empty, out;
      }
      if InOrder() {
        TopIsLeast(Elements(), less);
      }
      if wanted {
        if policy.runtime && budget == 0 {
          return CopyFailed, out;
        }
        out := Some(storage[0]);
      }
      st := DropRoot(if wanted && policy.runtime then budget - 1 else budget);
    }

    // The copies that are left once the root has been copied out.
    function CopiesFor(wanted: bool, budget: nat): int {
      if wanted && policy.runtime then budget - 1 else budget
    }

    // What pop leaves of s once its root has been copied out.
    ghost predicate RootGone(s: seq<T>, budget: nat, st: Status, s': seq<T>)
      requires s != []
    {
      if |s| == 1 then st == Ok && s' == []
      else if policy.runtime && budget == 0 then st == CopyFailed && s' == s
      else |s'| == |s| - 1 && PopSifts(policy, s, less, if policy.runtime then budget - 1 else budget, st, s')
    }

    method DropRoot(budget: nat) returns (st: Status)
      requires Valid() && size > 0
      modifies `size, storage
      ensures Valid() && RootGone(old(Elements()), budget, st, Elements())
    {
      size := size - 1;
      if size == 0 {
        return Ok;
      }
      if policy.runtime && budget == 0 {
        size := size + 1;
        return CopyFailed;
      }
      st := Refill(if policy.runtime then budget - 1 else budget);
    }

    // The last element takes the root's place and sinks.
    method Refill(budget: nat) returns (st: Status)
      requires Valid() && 0 < size < storage.Length
      modifies storage
      ensures PopSifts(policy, old(storage[..size + 1]), less, budget, st, Elements())
    {
      ghost var s := storage[..size + 1];
      storage[0] := storage[size];
      assert Elements() == WithLastAsRoot(s);
      RootReplaced(s, less);
      st := SiftDown(0, budget);
    }

    method Peek() returns (st: Status, out: Option<T>)
      requires Valid()
      ensures if size == 0 then st == Empty && out == None else st == Ok && out == Some(Elements()[0])
      ensures InOrder() && size > 0 ==> Least(out.value, multiset(Elements()), less)
    {
      if size == 0 {
        return Empty, None;
      }
      if InOrder() {
        TopIsLeast(Elements(), less);
      }
      return Ok, Some(storage[0]);
    }

    // A caller that pops until the queue is empty, with copies that succeed.
    method PopAll() returns (outs: seq<T>)
      requires Valid() && InOrder() && CanSwap(policy)
      modifies `size, storage
      ensures Valid() && Elements() == []
      ensures multiset(outs) == multiset(old(Elements()))
      ensures forall i, j :: 0 <= i < j < |outs| ==> !less(outs[j], outs[i])
    {
      outs := [];
      ghost var heaps := [multiset(Elements())];
      while size > 0
        invariant Valid() && InOrder()
        invariant Pops(heaps, outs, less) && heaps[0] == multiset(old(Elements())) && heaps[|outs|] == multiset(Elements())
        decreases size
      {
        var x := PopLeast();
        PopsMore(heaps, outs, x, multiset(Elements()), less);
        outs, heaps := outs + [x], heaps + [multiset(Elements())];
      }
      PoppingSorts(heaps, outs, less);
    }

    method PopLeast() returns (x: T)
      requires Valid() && InOrder() && CanSwap(policy) && size > 0
      modifies `size, storage
      ensures Valid() && InOrder() && size == old(size) - 1
      ensures Popped(multiset(old(Elements())), x, multiset(Elements()), less)
    {
      ghost var s := Elements();
      TopIsLeast(s, less);
      var budget := 3 * size + 2;
      var st, out := Pop(true, budget);
      x := out.value;
      RootGonePopped(s, if policy.runtime then budget - 1 else budget, st, Elements());
    }

    lemma RootGonePopped(s: seq<T>, budget: nat, st: Status, s': seq<T>)
      requires s != [] && Heaped(s, less) && CanSwap(policy) && budget > 3 * |s| && RootGone(s, budget, st, s')
      ensures st == Ok && |s'| == |s| - 1 && Heaped(s', less) && multiset(s') == multiset(s) - multiset{s[0]}
    {
      if |s| > 1 {
        PopInOrderIff(policy, s, less, if policy.runtime then budget - 1 else budget, st, s');
      } else {
        assert s == [s[0]];
      }
    }

    method Clear()
      requires Valid()
      modifies `size
      ensures Valid() && InOrder() && Elements() == []
    {
      size := 0;
    }
  }
}
