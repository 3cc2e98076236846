/** The ordered map core: a binary search tree over a pool of nodes.

    A node is a pool slot with `left` and `right` links; unused slots form a
    free list threaded through `left`. A pointer to a link is a Link value.
    Every operation is proved to act on the in-order sequence of elements. */
module Bst {
  import opened Common
  import opened Links

  // ---- Order ----

  // The comparator's contract: a total order up to equal keys.
  ghost predicate TotalOrder<E(!new)>(cmp: (E, E) -> int) {
    forall a, b, c :: Ordered(cmp, a, b, c)
  }

  predicate Ordered<E>(cmp: (E, E) -> int, a: E, b: E, c: E) {
    && (cmp(a, b) < 0 <==> cmp(b, a) > 0)
    && (cmp(a, b) <= 0 && cmp(b, c) <= 0 ==> cmp(a, c) <= 0)
    && ((cmp(a, b) < 0 && cmp(b, c) <= 0) || (cmp(a, b) <= 0 && cmp(b, c) < 0) ==> cmp(a, c) < 0)
  }

  ghost predicate Sorted<E>(es: seq<E>, cmp: (E, E) -> int) {
    forall i, j {:trigger InOrder(es, i, j, cmp)} :: 0 <= i < j < |es| ==> InOrder(es, i, j, cmp)
  }

  predicate InOrder<E>(es: seq<E>, i: nat, j: nat, cmp: (E, E) -> int)
    requires i < |es| && j < |es|
  {
    cmp(es[i], es[j]) < 0
  }

  // How many elements precede the key.
  function Rank<E>(es: seq<E>, key: E, cmp: (E, E) -> int): (r: nat)
    ensures r <= |es|
    ensures forall i :: 0 <= i < r ==> cmp(es[i], key) < 0
    ensures r < |es| ==> cmp(es[r], key) >= 0
  {
    if es == [] then 0 else if cmp(es[0], key) >= 0 then 0 else 1 + Rank(es[1..], key, cmp)
  }

  predicate Present<E>(es: seq<E>, key: E, cmp: (E, E) -> int) {
    var r := Rank(es, key, cmp);
    r < |es| && cmp(es[r], key) == 0
  }

  // The map operations on the sorted sequence.
  function Inserted<E>(es: seq<E>, e: E, cmp: (E, E) -> int): seq<E> {
    var r := Rank(es, e, cmp);
    if Present(es, e, cmp) then es[r := e] else InsertAt(es, r, e)
  }

  function Removed<E>(es: seq<E>, key: E, cmp: (E, E) -> int): seq<E> {
    if Present(es, key, cmp) then RemoveAt(es, Rank(es, key, cmp)) else es
  }

  // A present key is removed, unless the copy that needs fails.
  ghost predicate RemovalOutcome<E>(es: seq<E>, key: E, copied: bool, cmp: (E, E) -> int, st: Status, es': seq<E>) {
    if !Present(es, key, cmp) then st == NotFound && es' == es
    else if st == Ok then es' == Removed(es, key, cmp)
    else st == CopyFailed && !copied && es' == es
  }

  // The same with the free nodes counted; inner tells that the element's node has
  // two children, which is when its removal needs a copy.
  ghost predicate NodeRemoval<E>(es: seq<E>, key: E, inner: bool, free: nat, copied: bool, cmp: (E, E) -> int, st: Status, removed: bool, es': seq<E>, free': nat) {
    && RemovalOutcome(es, key, copied, cmp, st, es') && (st == CopyFailed <==> !copied && inner)
    && removed == (st == Ok) && free' == free + if removed then 1 else 0
  }

  lemma RemovedLength<E>(es: seq<E>, key: E, inner: bool, free: nat, copied: bool, cmp: (E, E) -> int, st: Status, removed: bool, es': seq<E>, free': nat)
    requires NodeRemoval(es, key, inner, free, copied, cmp, st, removed, es', free')
    ensures |es| == |es'| + (if removed then 1 else 0) && (removed ==> st == Ok)
    ensures RemovalOutcome(es, key, copied, cmp, st, es') && (st == CopyFailed <==> !copied && inner)
  {
  }

  // An equal element is replaced, even when there is no room; but nothing
  // reports it when that copy fails.
  ghost predicate InsertionOutcome<E>(es: seq<E>, e: E, room: bool, copied: bool, cmp: (E, E) -> int, st: Status, es': seq<E>) {
    && st == (if Present(es, e, cmp) then Ok else if !room then Full else if copied then Ok else CopyFailed)
    && es' == (if st == Ok && copied then Inserted(es, e, cmp) else es)
  }

  // The same with the free nodes counted; inserted tells that one was taken.
  ghost predicate NodeOutcome<E>(es: seq<E>, e: E, free: nat, copied: bool, cmp: (E, E) -> int, st: Status, inserted: bool, es': seq<E>, free': nat) {
    && InsertionOutcome(es, e, free > 0, copied, cmp, st, es')
    && inserted == (st == Ok && !Present(es, e, cmp)) && free' == free - if inserted then 1 else 0
  }

  lemma InsertedLength<E>(es: seq<E>, e: E, free: nat, copied: bool, cmp: (E, E) -> int, st: Status, inserted: bool, es': seq<E>, free': nat, capacity: nat)
    requires NodeOutcome(es, e, free, copied, cmp, st, inserted, es', free') && |es| + free == capacity
    ensures |es'| == |es| + (if inserted then 1 else 0) && (inserted ==> st == Ok) && |es'| + free' == capacity
    ensures InsertionOutcome(es, e, |es| < capacity, copied, cmp, st, es')
  {
  }

  lemma RankIs<E>(es: seq<E>, key: E, cmp: (E, E) -> int, r: nat)
    requires r <= |es|
    requires forall i :: 0 <= i < r ==> cmp(es[i], key) < 0
    requires r < |es| ==> cmp(es[r], key) >= 0
    ensures Rank(es, key, cmp) == r
  {
  }

  // ---- Trees of slots ----

  datatype Tree = Nil | Node(slot: int, left: Tree, right: Tree)

  // The tree that hangs off a link holding x.
  ghost predicate Rep(left: seq<int>, right: seq<int>, x: int, t: Tree)
    decreases t
  {
    match t
    case Nil => x == NIL
    case Node(s, l, r) =>
      && x == s && 0 <= s < |left| && s < |right|
      && Rep(left, right, left[s], l) && Rep(left, right, right[s], r)
  }

  // In-order slots.
  function Slots(t: Tree): seq<int> {
    match t
    case Nil => []
    case Node(s, l, r) => Slots(l) + [s] + Slots(r)
  }

  // The first slot is that of the left subtree, if there is one, and the last
  // that of the right one.
  lemma {:induction false} SlotsEnds(t: Tree)
    requires t.Node?
    ensures Slots(t) != []
    ensures t.left.Nil? ==> Slots(t)[0] == t.slot
    ensures t.left.Node? ==> Slots(t.left) != [] && Slots(t)[0] == Slots(t.left)[0]
    ensures t.right.Nil? ==> Slots(t)[|Slots(t)| - 1] == t.slot
    ensures t.right.Node? ==> Slots(t.right) != [] && Slots(t)[|Slots(t)| - 1] == Slots(t.right)[|Slots(t.right)| - 1]
    decreases t
  {
    if t.left.Node? {
      SlotsEnds(t.left);
    }
    if t.right.Node? {
      SlotsEnds(t.right);
    }
  }

  // A position in a tree: the steps from the root down to a subtree.
  datatype Step = InLeft(slot: int, right: Tree) | InRight(slot: int, left: Tree)

  function Plug(path: seq<Step>, t: Tree): Tree
    decreases |path|
  {
    if path == [] then t
    else
      match path[|path| - 1]
      case InLeft(s, r) => Plug(path[..|path| - 1], Node(s, t, r))
      case InRight(s, l) => Plug(path[..|path| - 1], Node(s, l, t))
  }

  // The slots before and after the subtree at that position.
  function Before(path: seq<Step>): seq<int> {
    if path == [] then []
    else
      match path[|path| - 1]
      case InLeft(_, _) => Before(path[..|path| - 1])
      case InRight(s, l) => Before(path[..|path| - 1]) + Slots(l) + [s]
  }

  function After(path: seq<Step>): seq<int> {
    if path == [] then []
    else
      match path[|path| - 1]
      case InLeft(s, r) => [s] + Slots(r) + After(path[..|path| - 1])
      case InRight(_, _) => After(path[..|path| - 1])
  }

  // Regrouping around the last step of a path.
  lemma GroupLeft<T>(b: seq<T>, t: seq<T>, x: T, r: seq<T>, a: seq<T>)
    ensures b + (t + [x] + r) + a == b + t + ([x] + r + a)
  {
  }

  lemma GroupRight<T>(b: seq<T>, l: seq<T>, x: T, t: seq<T>, a: seq<T>)
    ensures b + (l + [x] + t) + a == (b + l + [x]) + t + a
  {
  }

  lemma {:induction false} SlotsOfPlug(path: seq<Step>, t: Tree)
    ensures Slots(Plug(path, t)) == Before(path) + Slots(t) + After(path)
    decreases |path|
  {
    if path != [] {
      var up, last := path[..|path| - 1], path[|path| - 1];
      match last
      case InLeft(s, r) =>
        SlotsOfPlug(up, Node(s, t, r));
        GroupLeft(Before(up), Slots(t), s, Slots(r), After(up));
      case InRight(s, l) =>
        SlotsOfPlug(up, Node(s, l, t));
        GroupRight(Before(up), Slots(l), s, Slots(t), After(up));
    }
  }

  lemma PlugDown(path: seq<Step>, step: Step, t: Tree)
    ensures Plug(path + [step], t) == Plug(path, if step.InLeft? then Node(step.slot, t, step.right) else Node(step.slot, step.left, t))
    ensures Before(path + [step]) == if step.InLeft? then Before(path) else Before(path) + Slots(step.left) + [step.slot]
    ensures After(path + [step]) == if step.InLeft? then [step.slot] + Slots(step.right) + After(path) else After(path)
  {
    assert (path + [step])[..|path|] == path;
  }

  // ---- Links ----

  datatype Link = Root | LeftOf(slot: int) | RightOf(slot: int)

  function LinkOf(path: seq<Step>): Link {
    if path == [] then Root
    else
      match path[|path| - 1]
      case InLeft(s, _) => LeftOf(s)
      case InRight(s, _) => RightOf(s)
  }

  function ReadLink(left: seq<int>, right: seq<int>, root: int, link: Link): int {
    match link
    case Root => root
    case LeftOf(s) => if 0 <= s < |left| then left[s] else NIL
    case RightOf(s) => if 0 <= s < |right| then right[s] else NIL
  }

  function WriteLeft(left: seq<int>, link: Link, x: int): seq<int> {
    if link.LeftOf? && 0 <= link.slot < |left| then left[link.slot := x] else left
  }

  function WriteRight(right: seq<int>, link: Link, x: int): seq<int> {
    if link.RightOf? && 0 <= link.slot < |right| then right[link.slot := x] else right
  }

  function WriteRoot(root: int, link: Link, x: int): int {
    if link.Root? then x else root
  }

  lemma {:induction false} RepFrame(left: seq<int>, right: seq<int>, left': seq<int>, right': seq<int>, x: int, t: Tree)
    requires Rep(left, right, x, t) && |left'| == |left| && |right'| == |right|
    requires forall s :: s in Slots(t) && 0 <= s < |left| && s < |right| ==> left'[s] == left[s] && right'[s] == right[s]
    ensures Rep(left', right', x, t)
    decreases t
  {
    match t
    case Nil =>
    case Node(s, l, r) =>
      assert s in Slots(t);
      assert forall u :: u in Slots(l) || u in Slots(r) ==> u in Slots(t);
      RepFrame(left, right, left', right', left[s], l);
      RepFrame(left, right, left', right', right[s], r);
  }

  lemma {:induction false} RepRange(left: seq<int>, right: seq<int>, x: int, t: Tree)
    requires Rep(left, right, x, t)
    ensures forall s :: s in Slots(t) ==> 0 <= s < |left| && s < |right|
    ensures x == NIL <==> t.Nil?
    decreases t
  {
    match t
    case Nil =>
    case Node(s, l, r) =>
      RepRange(left, right, left[s], l);
      RepRange(left, right, right[s], r);
  }

  // The subtree at a position hangs off the link that ends its path.
  lemma {:induction false} RepFocus(left: seq<int>, right: seq<int>, root: int, path: seq<Step>, t: Tree)
    requires Rep(left, right, root, Plug(path, t))
    ensures Rep(left, right, ReadLink(left, right, root, LinkOf(path)), t)
    ensures path != [] ==> 0 <= path[|path| - 1].slot < |left| && path[|path| - 1].slot < |right|
    decreases |path|
  {
    if path != [] {
      var up, last := path[..|path| - 1], path[|path| - 1];
      RepFocus(left, right, root, up, if last.InLeft? then Node(last.slot, t, last.right) else Node(last.slot, last.left, t));
    }
  }

  lemma DistinctMiddle<T>(a: seq<T>, x: T, b: seq<T>)
    requires Distinct(a + [x] + b)
    ensures x !in a && x !in b
  {
    var xs := a + [x] + b;
    assert xs[|a|] == x;
    assert forall i :: 0 <= i < |a| ==> xs[i] == a[i];
    assert forall i :: 0 <= i < |b| ==> xs[|a| + 1 + i] == b[i];
  }

  lemma ApartOnRight<T>(b: seq<T>, t: seq<T>, x: T, r: seq<T>, a: seq<T>)
    requires Distinct(b + t + ([x] + r + a))
    ensures x !in b && x !in t && x !in r && x !in a
  {
    assert b + t + ([x] + r + a) == (b + t) + [x] + (r + a);
    DistinctMiddle(b + t, x, r + a);
  }

  lemma ApartOnLeft<T>(b: seq<T>, l: seq<T>, x: T, t: seq<T>, a: seq<T>)
    requires Distinct((b + l + [x]) + t + a)
    ensures x !in b && x !in l && x !in t && x !in a
  {
    assert (b + l + [x]) + t + a == (b + l) + [x] + (t + a);
    DistinctMiddle(b + l, x, t + a);
  }

  // The slot of the last step is nowhere else in the tree.
  lemma StepApart(path: seq<Step>, t: Tree)
    requires path != [] && Distinct(Before(path) + Slots(t) + After(path))
    ensures var up, last := path[..|path| - 1], path[|path| - 1];
            && last.slot !in Before(up) && last.slot !in After(up) && last.slot !in Slots(t)
            && last.slot !in Slots(if last.InLeft? then last.right else last.left)
  {
    var up, last := path[..|path| - 1], path[|path| - 1];
    match last
    case InLeft(s, r) => ApartOnRight(Before(up), Slots(t), s, Slots(r), After(up));
    case InRight(s, l) => ApartOnLeft(Before(up), Slots(l), s, Slots(t), After(up));
  }

  // Writing that link replaces the subtree and nothing else.
  lemma RepReplace(left: seq<int>, right: seq<int>, root: int, path: seq<Step>, t: Tree, x: int, t': Tree)
    requires Rep(left, right, root, Plug(path, t))
    requires Distinct(Before(path) + Slots(t) + After(path))
    requires var link := LinkOf(path);
             Rep(WriteLeft(left, link, x), WriteRight(right, link, x), x, t')
    ensures var link := LinkOf(path);
            Rep(WriteLeft(left, link, x), WriteRight(right, link, x), WriteRoot(root, link, x), Plug(path, t'))
    decreases |path|
  {
    if path != [] {
      var up, last := path[..|path| - 1], path[|path| - 1];
      var link := LinkOf(path);
      var whole, whole' := if last.InLeft? then Node(last.slot, t, last.right) else Node(last.slot, last.left, t),
                           if last.InLeft? then Node(last.slot, t', last.right) else Node(last.slot, last.left, t');
      var left', right' := WriteLeft(left, link, x), WriteRight(right, link, x);
      RepFocus(left, right, root, up, whole);
      var y := ReadLink(left, right, root, LinkOf(up));
      assert y == last.slot;
      var sibling := if last.InLeft? then last.right else last.left;
      StepApart(path, t);
      RepFrame(left, right, left', right', if last.InLeft? then right[last.slot] else left[last.slot], sibling);
      assert Rep(left', right', y, whole');
      RepRewrite(left, right, left', right', root, up, whole, whole', last.slot);
    }
  }

  // Changing links inside a subtree keeps the tree around it.
  lemma {:induction false} RepRewrite(left: seq<int>, right: seq<int>, left': seq<int>, right': seq<int>, root: int, path: seq<Step>, t: Tree, t': Tree, s: int)
    requires Rep(left, right, root, Plug(path, t))
    requires |left'| == |left| && |right'| == |right|
    requires s !in Before(path) && s !in After(path)
    requires forall u :: 0 <= u < |left| && u < |right| && u != s ==> left'[u] == left[u] && right'[u] == right[u]
    requires Rep(left', right', ReadLink(left, right, root, LinkOf(path)), t')
    ensures Rep(left', right', root, Plug(path, t'))
    decreases |path|
  {
    if path != [] {
      var up, last := path[..|path| - 1], path[|path| - 1];
      var whole, whole' := if last.InLeft? then Node(last.slot, t, last.right) else Node(last.slot, last.left, t),
                           if last.InLeft? then Node(last.slot, t', last.right) else Node(last.slot, last.left, t');
      RepFocus(left, right, root, up, whole);
      var sibling := if last.InLeft? then last.right else last.left;
      assert s != last.slot && s !in Slots(sibling) && s !in Before(up) && s !in After(up);
      RepFrame(left, right, left', right', if last.InLeft? then right[last.slot] else left[last.slot], sibling);
      RepRewrite(left, right, left', right', root, up, whole, whole', s);
    }
  }

  // ---- The search ----

  ghost predicate InPool<E>(slots: seq<int>, data: seq<E>) {
    forall i :: 0 <= i < |slots| ==> 0 <= slots[i] < |data|
  }

  // Everything before the position is below the key, everything after above.
  ghost predicate Brackets<E>(path: seq<Step>, key: E, data: seq<E>, cmp: (E, E) -> int) {
    && (forall s :: s in Before(path) ==> 0 <= s < |data| && cmp(data[s], key) < 0)
    && (forall s :: s in After(path) ==> 0 <= s < |data| && cmp(key, data[s]) < 0)
  }

  ghost predicate SortedTree<E>(t: Tree, data: seq<E>, cmp: (E, E) -> int) {
    InPool(Slots(t), data) && Sorted(Gather(Slots(t), data), cmp)
  }

  // The search for a key ends at a node with two children.
  predicate EndsInner<E>(t: Tree, key: E, data: seq<E>, cmp: (E, E) -> int) {
    && t.Node? && 0 <= t.slot < |data|
    && var c := cmp(key, data[t.slot]);
       if c < 0 then EndsInner(t.left, key, data, cmp)
       else if c > 0 then EndsInner(t.right, key, data, cmp)
       else t.left.Node? && t.right.Node?
  }

  lemma MissedAt<E(!new)>(path: seq<Step>, key: E, data: seq<E>, cmp: (E, E) -> int)
    requires TotalOrder(cmp) && SortedTree(Plug(path, Nil), data, cmp) && Brackets(path, key, data, cmp)
    ensures var es := Gather(Slots(Plug(path, Nil)), data);
            Rank(es, key, cmp) == |Before(path)| && !Present(es, key, cmp)
  {
    SlotsOfPlug(path, Nil);
    var slots, b := Slots(Plug(path, Nil)), |Before(path)|;
    var es := Gather(slots, data);
    assert forall i :: 0 <= i < b ==> slots[i] == Before(path)[i] && slots[i] in Before(path);
    if b < |es| {
      assert slots[b] == After(path)[0] && slots[b] in After(path);
      assert Ordered(cmp, key, es[b], key);
    }
    RankIs(es, key, cmp, b);
  }

  lemma GroupMiddle<T>(b: seq<T>, l: seq<T>, x: T, r: seq<T>, a: seq<T>)
    ensures b + (l + [x] + r) + a == (b + l) + [x] + (r + a)
  {
  }

  // The slot at the top of the focused subtree, in the whole sequence.
  lemma FocusIndex(path: seq<Step>, s: int, l: Tree, r: Tree)
    ensures var slots, i := Slots(Plug(path, Node(s, l, r))), |Before(path)| + |Slots(l)|;
            && slots == (Before(path) + Slots(l)) + [s] + (Slots(r) + After(path))
            && i < |slots| && slots[i] == s
  {
    SlotsOfPlug(path, Node(s, l, r));
    GroupMiddle(Before(path), Slots(l), s, Slots(r), After(path));
  }

  // Its subtrees hold the smaller and the larger elements.
  lemma Subtrees<E(!new)>(path: seq<Step>, s: int, l: Tree, r: Tree, data: seq<E>, cmp: (E, E) -> int)
    requires SortedTree(Plug(path, Node(s, l, r)), data, cmp)
    ensures 0 <= s < |data|
    ensures forall u :: u in Slots(l) ==> 0 <= u < |data| && cmp(data[u], data[s]) < 0
    ensures forall u :: u in Slots(r) ==> 0 <= u < |data| && cmp(data[s], data[u]) < 0
  {
    FocusIndex(path, s, l, r);
    var slots, b, i := Slots(Plug(path, Node(s, l, r))), |Before(path)|, |Before(path)| + |Slots(l)|;
    var es := Gather(slots, data);
    assert es[i] == data[s];
    forall u | u in Slots(l)
      ensures 0 <= u < |data| && cmp(data[u], data[s]) < 0
    {
      var j :| 0 <= j < |Slots(l)| && Slots(l)[j] == u;
      assert slots[b + j] == u && es[b + j] == data[u];
      assert InOrder(es, b + j, i, cmp);
    }
    forall u | u in Slots(r)
      ensures 0 <= u < |data| && cmp(data[s], data[u]) < 0
    {
      var j :| 0 <= j < |Slots(r)| && Slots(r)[j] == u;
      assert slots[i + 1 + j] == u && es[i + 1 + j] == data[u];
      assert InOrder(es, i, i + 1 + j, cmp);
    }
  }

  lemma GoLeft<E(!new)>(path: seq<Step>, s: int, l: Tree, r: Tree, key: E, data: seq<E>, cmp: (E, E) -> int) returns (p: seq<Step>)
    requires TotalOrder(cmp) && SortedTree(Plug(path, Node(s, l, r)), data, cmp) && Brackets(path, key, data, cmp)
    requires 0 <= s < |data| && cmp(key, data[s]) < 0
    ensures Plug(p, l) == Plug(path, Node(s, l, r)) && LinkOf(p) == LeftOf(s)
    ensures Brackets(p, key, data, cmp)
  {
    p := path + [InLeft(s, r)];
    Subtrees(path, s, l, r, data, cmp);
    PlugDown(path, InLeft(s, r), l);
    forall u | u in After(p)
      ensures 0 <= u < |data| && cmp(key, data[u]) < 0
    {
      if u in Slots(r) {
        assert Ordered(cmp, key, data[s], data[u]);
      }
    }
  }

  lemma GoRight<E(!new)>(path: seq<Step>, s: int, l: Tree, r: Tree, key: E, data: seq<E>, cmp: (E, E) -> int) returns (p: seq<Step>)
    requires TotalOrder(cmp) && SortedTree(Plug(path, Node(s, l, r)), data, cmp) && Brackets(path, key, data, cmp)
    requires 0 <= s < |data| && cmp(key, data[s]) > 0
    ensures Plug(p, r) == Plug(path, Node(s, l, r)) && LinkOf(p) == RightOf(s)
    ensures Brackets(p, key, data, cmp)
  {
    p := path + [InRight(s, l)];
    Subtrees(path, s, l, r, data, cmp);
    PlugDown(path, InRight(s, l), r);
    assert Ordered(cmp, data[s], key, key);
    forall u | u in Before(p)
      ensures 0 <= u < |data| && cmp(data[u], key) < 0
    {
      if u in Slots(l) {
        assert Ordered(cmp, data[u], data[s], key);
      }
    }
  }

  lemma FoundAt<E(!new)>(path: seq<Step>, s: int, l: Tree, r: Tree, key: E, data: seq<E>, cmp: (E, E) -> int)
    requires TotalOrder(cmp) && SortedTree(Plug(path, Node(s, l, r)), data, cmp)
    requires 0 <= s < |data| && cmp(key, data[s]) == 0
    ensures var es := Gather(Slots(Plug(path, Node(s, l, r))), data);
            && Rank(es, key, cmp) == |Before(path)| + |Slots(l)| < |es|
            && es[|Before(path)| + |Slots(l)|] == data[s]
            && Present(es, key, cmp)
  {
    FocusIndex(path, s, l, r);
    var slots, i := Slots(Plug(path, Node(s, l, r))), |Before(path)| + |Slots(l)|;
    var es := Gather(slots, data);
    assert es[i] == data[s];
    forall j | 0 <= j < i
      ensures cmp(es[j], key) < 0
    {
      assert InOrder(es, j, i, cmp);
      assert Ordered(cmp, data[s], key, key) && Ordered(cmp, key, data[s], key);
      assert Ordered(cmp, es[j], data[s], key);
    }
    assert Ordered(cmp, data[s], key, key) && Ordered(cmp, key, data[s], key);
    RankIs(es, key, cmp, i);
  }

  lemma {:induction false} FoundRemoves<E(!new)>(path: seq<Step>, t: Tree, key: E, data: seq<E>, cmp: (E, E) -> int)
    requires TotalOrder(cmp) && t.Node? && SortedTree(Plug(path, t), data, cmp)
    requires 0 <= t.slot < |data| && cmp(key, data[t.slot]) == 0
    ensures var es, k := Gather(Slots(Plug(path, t)), data), |Before(path)| + |Slots(t.left)|;
            Present(es, key, cmp) && k < |es| && Removed(es, key, cmp) == RemoveAt(es, k)
  {
    FoundAt(path, t.slot, t.left, t.right, key, data, cmp);
  }

  // ---- Traversal ----

  datatype Traversal = Preorder | Inorder | Postorder

  function Visits(t: Tree, order: Traversal): seq<int> {
    match t
    case Nil => []
    case Node(s, l, r) =>
      Arrange(order, [s], Visits(l, order), Visits(r, order))
  }

  function Arrange<T>(order: Traversal, here: seq<T>, l: seq<T>, r: seq<T>): seq<T> {
    match order
    case Preorder => here + l + r
    case Inorder => l + here + r
    case Postorder => l + r + here
  }

  // What has been visited after each stage of a node's walk.
  lemma Stages<T>(order: Traversal, here: seq<T>, l: seq<T>, r: seq<T>) returns (p0: seq<T>, p1: seq<T>, p2: seq<T>, p3: seq<T>)
    ensures p0 == if order.Preorder? then here else []
    ensures p1 == p0 + l
    ensures p2 == if order.Inorder? then p1 + here else p1
    ensures p3 == p2 + r
    ensures Arrange(order, here, l, r) == if order.Postorder? then p3 + here else p3
    ensures var es := Arrange(order, here, l, r);
            p0 <= es && p1 <= es && p2 <= es && p3 <= es
  {
    p0 := if order.Preorder? then here else [];
    p1 := p0 + l;
    p2 := if order.Inorder? then p1 + here else p1;
    p3 := p2 + r;
  }

  // A visit of es that ends with the first element not accepted.
  function VisitAll<E>(es: seq<E>, visit: E -> Status): (Status, seq<E>) {
    if es == [] then (Ok, [])
    else if visit(es[0]) != Ok then (visit(es[0]), [es[0]])
    else
      var (st, rest) := VisitAll(es[1..], visit);
      (st, [es[0]] + rest)
  }

  // The visitor sees a prefix of the elements and accepts all of it but the last,
  // and that one too when the answer is ok; then it has seen everything.
  ghost predicate VisitedUpTo<E>(es: seq<E>, visit: E -> Status, st: Status, visited: seq<E>) {
    && visited <= es
    && (forall i :: 0 <= i < |visited| - 1 ==> visit(visited[i]) == Ok)
    && (st == Ok ==> visited == es && forall i :: 0 <= i < |es| ==> visit(es[i]) == Ok)
    && (st != Ok ==> visited != [] && visit(visited[|visited| - 1]) == st)
  }

  lemma {:induction false} VisitAllExact<E>(es: seq<E>, visit: E -> Status)
    ensures VisitedUpTo(es, visit, VisitAll(es, visit).0, VisitAll(es, visit).1)
  {
    if es != [] && visit(es[0]) == Ok {
      VisitAllExact(es[1..], visit);
      assert es == [es[0]] + es[1..];
    }
  }

  lemma {:induction false} VisitConcat<E>(a: seq<E>, b: seq<E>, visit: E -> Status)
    ensures VisitAll(a + b, visit) ==
            if VisitAll(a, visit).0 != Ok then VisitAll(a, visit)
            else (VisitAll(b, visit).0, VisitAll(a, visit).1 + VisitAll(b, visit).1)
  {
    if a == [] {
      assert a + b == b && VisitAll(a, visit) == (Ok, []);
      assert [] + VisitAll(b, visit).1 == VisitAll(b, visit).1;
    } else {
      assert (a + b)[1..] == a[1..] + b;
      VisitConcat(a[1..], b, visit);
      var va, vb := VisitAll(a[1..], visit).1, VisitAll(b, visit).1;
      assert [a[0]] + (va + vb) == ([a[0]] + va) + vb;
    }
  }

  lemma VisitStopped<E>(p: seq<E>, es: seq<E>, visit: E -> Status)
    requires p <= es && VisitAll(p, visit).0 != Ok
    ensures VisitAll(es, visit) == VisitAll(p, visit)
  {
    assert es == p + es[|p|..];
    VisitConcat(p, es[|p|..], visit);
  }

  lemma {:induction false} InorderVisits(t: Tree)
    ensures Visits(t, Inorder) == Slots(t)
  {
    if t.Node? {
      InorderVisits(t.left);
      InorderVisits(t.right);
    }
  }

  lemma {:induction false} VisitsInPool(t: Tree, order: Traversal)
    ensures forall s :: s in Visits(t, order) <==> s in Slots(t)
  {
    if t.Node? {
      VisitsInPool(t.left, order);
      VisitsInPool(t.right, order);
    }
  }

  // One element of a sequence comes before another.
  ghost predicate Precedes(xs: seq<int>, x: int, y: int) {
    exists i, j :: 0 <= i < j < |xs| && xs[i] == x && xs[j] == y
  }

  lemma PrecedesAt(xs: seq<int>, i: nat, j: nat)
    requires Distinct(xs) && i < |xs| && j < |xs|
    ensures Precedes(xs, xs[i], xs[j]) <==> i < j
  {
  }

  lemma PartsDistinct(a: seq<int>, b: seq<int>)
    requires Distinct(a + b)
    ensures Distinct(a) && Distinct(b)
  {
    assert forall i :: 0 <= i < |a| ==> (a + b)[i] == a[i];
    assert forall j :: 0 <= j < |b| ==> (a + b)[|a| + j] == b[j];
  }

  lemma WhichPart(a: seq<int>, b: seq<int>, i: nat)
    requires Distinct(a + b) && i < |a + b|
    ensures var x := (a + b)[i];
            if i < |a| then x == a[i] && x in a && x !in b else x == b[i - |a|] && x in b && x !in a
  {
    var xs := a + b;
    forall k | 0 <= k < |a| && k != i
      ensures a[k] != xs[i]
    {
      assert xs[k] == a[k];
      SamePlace(xs, k, i);
    }
    forall k | 0 <= k < |b| && |a| + k != i
      ensures b[k] != xs[i]
    {
      assert xs[|a| + k] == b[k];
      SamePlace(xs, |a| + k, i);
    }
  }

  lemma SamePlace(xs: seq<int>, i: nat, j: nat)
    requires Distinct(xs) && i < |xs| && j < |xs|
    ensures xs[i] == xs[j] <==> i == j
  {
  }

  lemma PrecedesConcat(a: seq<int>, b: seq<int>, i: nat, j: nat)
    requires Distinct(a + b) && i < |a + b| && j < |a + b|
    ensures var x, y := (a + b)[i], (a + b)[j];
            && (i < |a| <==> x in a) && (i < |a| <==> x !in b) && (j < |a| <==> y in a) && (j < |a| <==> y !in b)
            && (x in a && y in a ==> (Precedes(a + b, x, y) <==> Precedes(a, x, y)))
            && (x in b && y in b ==> (Precedes(a + b, x, y) <==> Precedes(b, x, y)))
            && (x in a && y in b ==> Precedes(a + b, x, y)) && (x in b && y in a ==> !Precedes(a + b, x, y))
  {
    var n := |a|;
    PartsDistinct(a, b);
    PrecedesAt(a + b, i, j);
    WhichPart(a, b, i);
    WhichPart(a, b, j);
    if i < n && j < n {
      PrecedesAt(a, i, j);
    } else if i >= n && j >= n {
      PrecedesAt(b, i - n, j - n);
    }
  }

  // A slot lies below another.
  predicate Below(t: Tree, x: int, y: int) {
    t.Node? && if t.slot == y then x in Slots(t.left) || x in Slots(t.right) else Below(t.left, x, y) || Below(t.right, x, y)
  }

  // In preorder a slot comes before another when the other lies below it, or
  // neither does and it stands to the left; in postorder when it lies below the
  // other, or neither does and it stands to the left.
  ghost predicate TraversalOrder(t: Tree, x: int, y: int) {
    var left := Precedes(Slots(t), x, y);
    && (Precedes(Visits(t, Preorder), x, y) <==> Below(t, y, x) || (left && !Below(t, x, y)))
    && (Precedes(Visits(t, Postorder), x, y) <==> Below(t, x, y) || (left && !Below(t, y, x)))
  }

  // The places of x and y in three parts of a sequence, in any arrangement.
  lemma PrecedesParts(a: seq<int>, b: seq<int>, c: seq<int>, x: int, y: int)
    requires Distinct(a + b + c) && x in a + b + c && y in a + b + c
    ensures (x in a || x in b || x in c) && !(x in a && x in b) && !(x in a && x in c) && !(x in b && x in c)
    ensures (y in a || y in b || y in c) && !(y in a && y in b) && !(y in a && y in c) && !(y in b && y in c)
    ensures Precedes(a + b + c, x, y) <==>
            || (x in a && y in a && Precedes(a, x, y)) || (x in b && y in b && Precedes(b, x, y)) || (x in c && y in c && Precedes(c, x, y))
            || (x in a && y !in a) || (x in b && y in c)
  {
    var i :| 0 <= i < |a + b + c| && (a + b + c)[i] == x;
    var j :| 0 <= j < |a + b + c| && (a + b + c)[j] == y;
    PrecedesConcat(a + b, c, i, j);
    PartsDistinct(a + b, c);
    assert x in a + b ==> x in a || x in b;
    if i < |a + b| {
      PrecedesConcat(a, b, i, if j < |a + b| then j else i);
    }
    if j < |a + b| {
      PrecedesConcat(a, b, if i < |a + b| then i else j, j);
    }
  }

  lemma Disjoint(a: seq<int>, b: seq<int>)
    requires Distinct(a + b)
    ensures Distinct(a) && Distinct(b) && forall x :: x in a ==> x !in b
  {
    PartsDistinct(a, b);
    forall i | 0 <= i < |a|
      ensures a[i] !in b
    {
      WhichPart(a, b, i);
    }
  }

  lemma SubtreesDistinct(t: Tree)
    requires t.Node? && Distinct(Slots(t))
    ensures Distinct(Slots(t.left)) && Distinct(Slots(t.right)) && t.slot !in Slots(t.left) && t.slot !in Slots(t.right)
    ensures forall x :: x in Slots(t.left) ==> x !in Slots(t.right)
  {
    var l, r := Slots(t.left), Slots(t.right);
    Disjoint(l + [t.slot], r);
    Disjoint(l, [t.slot]);
    assert forall x :: x in l ==> x in l + [t.slot];
    assert t.slot in l + [t.slot] && t.slot in [t.slot];
  }

  lemma {:induction false} VisitsDistinct(t: Tree, order: Traversal)
    requires Distinct(Slots(t))
    ensures Distinct(Visits(t, order))
  {
    if t.Node? {
      SubtreesDistinct(t);
      VisitsDistinct(t.left, order);
      VisitsDistinct(t.right, order);
      VisitsInPool(t.left, order);
      VisitsInPool(t.right, order);
      JoinParts([t.slot], Visits(t.left, order), Visits(t.right, order), order);
    }
  }

  lemma JoinParts(here: seq<int>, l: seq<int>, r: seq<int>, order: Traversal)
    requires Distinct(here) && Distinct(l) && Distinct(r)
    requires forall x :: (x in here ==> x !in l && x !in r) && (x in l ==> x !in r)
    ensures Distinct(Arrange(order, here, l, r))
  {
    match order
    case Preorder => DistinctJoin(here, l); DistinctJoin(here + l, r);
    case Inorder => DistinctJoin(l, here); DistinctJoin(l + here, r);
    case Postorder => DistinctJoin(l, r); DistinctJoin(l + r, here);
  }

  lemma OrderHere(t: Tree, x: int, y: int)
    requires t.Node? && Distinct(Slots(t)) && x in Slots(t) && y in Slots(t) && x != y
    requires x in Slots(t.left) && y in Slots(t.left) ==> TraversalOrder(t.left, x, y)
    requires x in Slots(t.right) && y in Slots(t.right) ==> TraversalOrder(t.right, x, y)
    ensures TraversalOrder(t, x, y)
  {
    var here, l, r := [t.slot], t.left, t.right;
    SubtreesDistinct(t);
    VisitsDistinct(t, Preorder);
    VisitsDistinct(t, Postorder);
    VisitsInPool(t, Preorder);
    VisitsInPool(t, Postorder);
    VisitsInPool(l, Preorder);
    VisitsInPool(r, Preorder);
    VisitsInPool(l, Postorder);
    VisitsInPool(r, Postorder);
    PrecedesParts(Slots(l), here, Slots(r), x, y);
    PrecedesParts(here, Visits(l, Preorder), Visits(r, Preorder), x, y);
    PrecedesParts(Visits(l, Postorder), Visits(r, Postorder), here, x, y);
    BelowInside(l, x, y);
    BelowInside(l, y, x);
    BelowInside(r, x, y);
    BelowInside(r, y, x);
  }

  lemma {:induction false} BelowInside(t: Tree, x: int, y: int)
    ensures Below(t, x, y) ==> x in Slots(t) && y in Slots(t)
  {
    if t.Node? {
      BelowInside(t.left, x, y);
      BelowInside(t.right, x, y);
    }
  }

  lemma {:induction false} TraversalExact(t: Tree, x: int, y: int)
    requires Distinct(Slots(t)) && x in Slots(t) && y in Slots(t) && x != y
    ensures TraversalOrder(t, x, y)
  {
    SubtreesDistinct(t);
    if x in Slots(t.left) && y in Slots(t.left) {
      TraversalExact(t.left, x, y);
    }
    if x in Slots(t.right) && y in Slots(t.right) {
      TraversalExact(t.right, x, y);
    }
    OrderHere(t, x, y);
  }

  lemma GatherConcat<E>(a: seq<int>, b: seq<int>, data: seq<E>)
    requires InPool(a, data) && InPool(b, data)
    ensures InPool(a + b, data) && Gather(a + b, data) == Gather(a, data) + Gather(b, data)
  {
  }

  // ---- Changing the sequence ----

  lemma InsertSorted<E(!new)>(es: seq<E>, e: E, cmp: (E, E) -> int)
    requires TotalOrder(cmp) && Sorted(es, cmp)
    ensures Sorted(Inserted(es, e, cmp), cmp)
  {
    var r, es' := Rank(es, e, cmp), Inserted(es, e, cmp);
    forall i, j {:trigger InOrder(es', i, j, cmp)} | 0 <= i < j < |es'|
      ensures InOrder(es', i, j, cmp)
    {
      assert r < |es| ==> Ordered(cmp, e, es[r], e) && Ordered(cmp, es[r], e, e);
      if Present(es, e, cmp) {
        assert InOrder(es, i, j, cmp);
        if i == r {
          assert Ordered(cmp, e, es[r], es[j]);
        } else if j == r {
          assert Ordered(cmp, es[i], es[r], e);
        }
      } else if j < r {
        assert InOrder(es, i, j, cmp);
      } else if i < r < j {
        assert InOrder(es, i, j - 1, cmp);
      } else if r < j {
        assert i > r ==> InOrder(es, i - 1, j - 1, cmp);
        if i == r && j > r + 1 {
          assert InOrder(es, r, j - 1, cmp);
          assert Ordered(cmp, e, es[r], es[j - 1]);
        }
      }
    }
  }

  lemma RemoveSorted<E>(es: seq<E>, k: nat, cmp: (E, E) -> int)
    requires Sorted(es, cmp) && k < |es|
    ensures Sorted(RemoveAt(es, k), cmp)
  {
    forall i, j {:trigger InOrder(RemoveAt(es, k), i, j, cmp)} | 0 <= i < j < |es| - 1
      ensures InOrder(RemoveAt(es, k), i, j, cmp)
    {
      assert InOrder(es, if i < k then i else i + 1, if j < k then j else j + 1, cmp);
    }
  }

  // What a search for a key yields.
  function Lookup<E>(es: seq<E>, key: E, cmp: (E, E) -> int): Option<E> {
    if Present(es, key, cmp) then Some(es[Rank(es, key, cmp)]) else None
  }

  // Any element equal to the key is the one found.
  lemma LookupAt<E(!new)>(es: seq<E>, key: E, cmp: (E, E) -> int, i: nat)
    requires TotalOrder(cmp) && Sorted(es, cmp) && i < |es| && cmp(es[i], key) == 0
    ensures Lookup(es, key, cmp) == Some(es[i])
  {
    forall j | 0 <= j < i
      ensures cmp(es[j], key) < 0
    {
      assert InOrder(es, j, i, cmp) && Ordered(cmp, es[j], es[i], key);
    }
    RankIs(es, key, cmp, i);
  }

  // Insertion is a map update, for keys that the comparator does not tell apart.
  lemma InsertLookup<E(!new)>(es: seq<E>, e: E, cmp: (E, E) -> int, key: E)
    requires TotalOrder(cmp) && Sorted(es, cmp)
    ensures Lookup(Inserted(es, e, cmp), key, cmp) == if cmp(e, key) == 0 then Some(e) else Lookup(es, key, cmp)
  {
    var r, es' := Rank(es, e, cmp), Inserted(es, e, cmp);
    InsertSorted(es, e, cmp);
    if cmp(e, key) == 0 {
      LookupAt(es', key, cmp, r);
    } else if Present(es, key, cmp) {
      var i := Rank(es, key, cmp);
      if Present(es, e, cmp) {
        SameKey(es, e, key, cmp, r, i);
      }
      LookupAt(es', key, cmp, if Present(es, e, cmp) || i < r then i else i + 1);
    } else if Present(es', key, cmp) {
      var i := Rank(es', key, cmp);
      assert i != r;
      LookupAt(es, key, cmp, if Present(es, e, cmp) || i < r then i else i - 1);
    }
  }

  // An insertion answers ok without storing its element exactly when an equal
  // but different element is present and the copy fails.
  lemma SilentInsertIff<E(!new)>(es: seq<E>, e: E, room: bool, copied: bool, cmp: (E, E) -> int, st: Status, es': seq<E>)
    requires TotalOrder(cmp) && Sorted(es, cmp) && InsertionOutcome(es, e, room, copied, cmp, st, es')
    ensures st == Ok && Lookup(es', e, cmp) != Some(e) <==> Present(es, e, cmp) && !copied && es[Rank(es, e, cmp)] != e
    ensures st == Ok && copied ==> Lookup(es', e, cmp) == Some(e)
  {
    EqualItself(cmp, e);
    if copied {
      InsertLookup(es, e, cmp, e);
    }
  }

  lemma EqualItself<E(!new)>(cmp: (E, E) -> int, e: E)
    requires TotalOrder(cmp)
    ensures cmp(e, e) == 0
  {
    assert Ordered(cmp, e, e, e);
  }

  // Pairs compared by their first component: (1, 20) replaces (1, 10), the copy
  // fails, and ok is answered with (1, 10) still there.
  lemma SilentInsertExample()
    ensures var cmp := (a: (int, int), b: (int, int)) => a.0 - b.0;
            && InsertionOutcome([(1, 10)], (1, 20), false, false, cmp, Ok, [(1, 10)])
            && Lookup([(1, 10)], (1, 20), cmp) == Some((1, 10))
  {
  }

  lemma RemoveLookup<E(!new)>(es: seq<E>, k: E, cmp: (E, E) -> int, key: E)
    requires TotalOrder(cmp) && Sorted(es, cmp)
    ensures Lookup(Removed(es, k, cmp), key, cmp) == if cmp(k, key) == 0 then None else Lookup(es, key, cmp)
  {
    var r, es' := Rank(es, k, cmp), Removed(es, k, cmp);
    if Present(es, k, cmp) {
      RemoveSorted(es, r, cmp);
      if Present(es', key, cmp) {
        var i := Rank(es', key, cmp);
        var j := if i < r then i else i + 1;
        LookupAt(es, key, cmp, j);
        SameKey(es, k, key, cmp, r, j);
      }
      if Present(es, key, cmp) && cmp(k, key) != 0 {
        var i := Rank(es, key, cmp);
        SameKey(es, k, key, cmp, r, i);
        LookupAt(es', key, cmp, if i < r then i else i - 1);
      }
    } else if cmp(k, key) == 0 {
      EqualKeys(es, k, key, cmp);
    }
  }

  lemma EqualKeys<E(!new)>(es: seq<E>, k: E, key: E, cmp: (E, E) -> int)
    requires TotalOrder(cmp) && Sorted(es, cmp) && cmp(k, key) == 0
    ensures Present(es, key, cmp) ==> Present(es, k, cmp)
  {
    if Present(es, key, cmp) {
      var i := Rank(es, key, cmp);
      EqualSwaps(cmp, k, key);
      EqualChains(cmp, es[i], key, k);
      LookupAt(es, k, cmp, i);
    }
  }

  // Elements at two places equal two keys; the keys are equal only if the
  // places are.
  lemma SameKey<E(!new)>(es: seq<E>, k: E, key: E, cmp: (E, E) -> int, r: nat, i: nat)
    requires TotalOrder(cmp) && Sorted(es, cmp) && r < |es| && i < |es|
    requires cmp(es[r], k) == 0 && cmp(es[i], key) == 0
    ensures r == i <==> cmp(k, key) == 0
  {
    var a, b := es[r], es[i];
    EqualSwaps(cmp, a, k);
    EqualSwaps(cmp, b, key);
    EqualSwaps(cmp, k, key);
    if r == i {
      EqualChains(cmp, k, a, key);
    }
    if cmp(k, key) == 0 {
      EqualChains(cmp, a, k, key);
      EqualChains(cmp, a, key, b);
      EqualSwaps(cmp, a, b);
      assert r < i ==> InOrder(es, r, i, cmp);
      assert i < r ==> InOrder(es, i, r, cmp);
    }
  }

  lemma EqualSwaps<E(!new)>(cmp: (E, E) -> int, a: E, b: E)
    requires TotalOrder(cmp)
    ensures cmp(a, b) == 0 <==> cmp(b, a) == 0
  {
    assert Ordered(cmp, a, b, a) && Ordered(cmp, b, a, b);
  }

  lemma EqualChains<E(!new)>(cmp: (E, E) -> int, a: E, b: E, c: E)
    requires TotalOrder(cmp) && cmp(a, b) == 0 && cmp(b, c) == 0
    ensures cmp(a, c) == 0
  {
    EqualSwaps(cmp, a, b);
    EqualSwaps(cmp, b, c);
    assert Ordered(cmp, a, b, c) && Ordered(cmp, c, b, a);
    assert Ordered(cmp, a, c, a) && Ordered(cmp, c, a, c);
  }

  lemma LinkInTree(path: seq<Step>, t: Tree)
    requires path != [] && Distinct(Slots(Plug(path, t)))
    ensures LinkOf(path).slot in Slots(Plug(path, t)) && LinkOf(path).slot !in Slots(t)
    ensures Distinct(Before(path) + Slots(t) + After(path))
  {
    SlotsOfPlug(path, t);
    StepApart(path, t);
    match path[|path| - 1]
    case InLeft(s, r) => assert s in After(path);
    case InRight(s, l) => assert s in Before(path);
  }

  // A new leaf for slot s at an empty position, holding e.
  lemma GraftSlots<E>(path: seq<Step>, s: int, e: E, data: seq<E>, data': seq<E>)
    requires InPool(Slots(Plug(path, Nil)), data) && Distinct(Slots(Plug(path, Nil)))
    requires 0 <= s < |data| && s !in Slots(Plug(path, Nil))
    requires data' == data[s := e]
    ensures var slots, slots', k := Slots(Plug(path, Nil)), Slots(Plug(path, Node(s, Nil, Nil))), |Before(path)|;
            && k <= |slots| && slots' == InsertAt(slots, k, s) && Distinct(slots')
            && (forall u :: u in slots' <==> u in slots || u == s)
            && InPool(slots', data')
            && Gather(slots', data') == InsertAt(Gather(slots, data), k, e)
  {
    SlotsOfPlug(path, Nil);
    SlotsOfPlug(path, Node(s, Nil, Nil));
    PutMiddle(Before(path), s, After(path));
    InsertAtMembers(Slots(Plug(path, Nil)), |Before(path)|, s);
    InsertGather(Slots(Plug(path, Nil)), |Before(path)|, s, e, data);
  }

  lemma PutMiddle<T>(b: seq<T>, x: T, a: seq<T>)
    ensures InsertAt(b + [] + a, |b|, x) == b + ([] + [x] + []) + a
  {
  }

  lemma InsertGather<E>(slots: seq<int>, k: nat, s: int, e: E, data: seq<E>)
    requires InPool(slots, data) && k <= |slots| && 0 <= s < |data| && s !in slots
    ensures InPool(InsertAt(slots, k, s), data[s := e])
    ensures Gather(InsertAt(slots, k, s), data[s := e]) == InsertAt(Gather(slots, data), k, e)
  {
  }

  // Replacing a node by its subtrees' slots drops its slot from the sequence.
  // Here and below, induction over the trees would only slow the proofs.
  lemma {:induction false} CutAt(path: seq<Step>, t: Tree, t': Tree)
    requires t.Node? && Slots(t') == Slots(t.left) + Slots(t.right)
    ensures var slots, slots', k := Slots(Plug(path, t)), Slots(Plug(path, t')), |Before(path)| + |Slots(t.left)|;
            k < |slots| && slots[k] == t.slot && slots' == RemoveAt(slots, k)
  {
    SlotsOfPlug(path, t);
    SlotsOfPlug(path, t');
    CutMiddle(Before(path), Slots(t.left), t.slot, Slots(t.right), After(path));
  }

  lemma {:induction false} CutSlots(path: seq<Step>, t: Tree, t': Tree)
    requires t.Node? && Slots(t') == Slots(t.left) + Slots(t.right)
    requires Distinct(Slots(Plug(path, t)))
    ensures var slots, slots', k := Slots(Plug(path, t)), Slots(Plug(path, t')), |Before(path)| + |Slots(t.left)|;
            && k < |slots| && slots[k] == t.slot
            && slots' == RemoveAt(slots, k) && Distinct(slots')
            && (forall u :: u in slots' <==> u in slots && u != t.slot)
  {
    CutAt(path, t, t');
    CutMembers(Slots(Plug(path, t)), Slots(Plug(path, t')), |Before(path)| + |Slots(t.left)|);
  }

  // The leftmost node of the right subtree comes directly after the target.
  lemma {:induction false} SuccessorSlots(path: seq<Step>, t: Tree, spath: seq<Step>, cur: Tree)
    requires t.Node? && cur.Node? && cur.left.Nil? && Plug(path, t) == Plug(spath, cur)
    requires Before(spath) == Before(path) + Slots(t.left) + [t.slot]
    requires Distinct(Slots(Plug(path, t)))
    ensures var slots, slots', k := Slots(Plug(path, t)), Slots(Plug(spath, cur.right)), |Before(path)| + |Slots(t.left)|;
            && k + 1 < |slots| && slots[k] == t.slot && slots[k + 1] == cur.slot
            && slots' == RemoveAt(slots, k + 1) && Distinct(slots')
            && (forall u :: u in slots' <==> u in slots && u != cur.slot)
  {
    FocusIndex(path, t.slot, t.left, t.right);
    CutSlots(spath, cur, cur.right);
  }

  lemma CutMembers<T>(xs: seq<T>, ys: seq<T>, k: nat)
    requires k < |xs| && ys == RemoveAt(xs, k) && Distinct(xs)
    ensures Distinct(ys) && forall x :: x in ys <==> x in xs && x != xs[k]
  {
    RemoveAtMembers(xs, k);
  }

  lemma CutMiddle<T>(b: seq<T>, l: seq<T>, x: T, r: seq<T>, a: seq<T>)
    ensures var xs, k := b + (l + [x] + r) + a, |b| + |l|;
            k < |xs| && xs[k] == x && b + (l + r) + a == RemoveAt(xs, k)
  {
  }

  lemma CutGather<E>(slots: seq<int>, k: nat, data: seq<E>)
    requires InPool(slots, data) && k < |slots|
    ensures InPool(RemoveAt(slots, k), data)
    ensures Gather(RemoveAt(slots, k), data) == RemoveAt(Gather(slots, data), k)
  {
  }

  // Dropping the successor's slot after copying its element over the target's
  // drops the target's element.
  lemma SpliceGather<E>(slots: seq<int>, k: nat, data: seq<E>)
    requires InPool(slots, data) && k + 1 < |slots| && Distinct(slots)
    ensures var data' := data[slots[k] := data[slots[k + 1]]];
            && InPool(RemoveAt(slots, k + 1), data')
            && Gather(RemoveAt(slots, k + 1), data') == RemoveAt(Gather(slots, data), k)
  {
  }

  // ---- The map ----

  class OrderedMap<E(!new)> {
    const cmp: (E, E) -> int
    const capacity: nat
    const left: array<int>
    const right: array<int>
    const data: array<E>
    var root: int
    var freeList: int
    var size: nat

    ghost var tree: Tree
    ghost var free: seq<int>

    ghost predicate Shape() {
      && 0 < capacity == left.Length == right.Length == data.Length
      && left != right && left as object != data && right as object != data
      && TotalOrder(cmp)
    }

    ghost predicate TreeOk()
      reads `root, `tree, left, right
    {
      Rep(left[..], right[..], root, tree) && Distinct(Slots(tree))
    }

    ghost predicate FreeOk()
      reads `freeList, `free, `tree, left
    {
      Linked(left[..], freeList, free) && forall s :: s in free ==> s !in Slots(tree)
    }

    ghost predicate OrderOk()
      reads `tree, data
    {
      SortedTree(tree, data[..], cmp)
    }

    ghost predicate Valid()
      reads this, left, right, data
    {
      && Shape() && TreeOk() && FreeOk() && OrderOk()
      && size == |Slots(tree)| && size + |free| == capacity
    }

    // The elements in order.
    ghost function Elements(): seq<E>
      requires Valid()
      reads this, left, right, data
    {
      Gather(Slots(tree), data[..])
    }

    function Load(link: Link): (x: int)
      reads `root, left, right
      ensures x == ReadLink(left[..], right[..], root, link)
    {
      match link
      case Root => root
      case LeftOf(s) => if 0 <= s < left.Length then left[s] else NIL
      case RightOf(s) => if 0 <= s < right.Length then right[s] else NIL
    }

    method Store(link: Link, x: int)
      requires left != right
      requires link.Root? || (0 <= link.slot < left.Length && link.slot < right.Length)
      modifies `root, left, right
      ensures left[..] == WriteLeft(old(left[..]), link, x)
      ensures right[..] == WriteRight(old(right[..]), link, x)
      ensures root == WriteRoot(old(root), link, x)
    {
      match link
      case Root => root := x;
      case LeftOf(s) => left[s] := x;
      case RightOf(s) => right[s] := x;
    }

    // Every link of the tree.
    function Links(): (int, seq<int>, seq<int>)
      reads `root, left, right
    {
      (root, left[..], right[..])
    }

    // Search down from the root.
    method FindNode(key: E) returns (found: int)
      requires Shape() && Rep(left[..], right[..], root, tree) && OrderOk()
      ensures var es := Gather(Slots(tree), data[..]);
              && (found == NIL <==> !Present(es, key, cmp))
              && (found != NIL ==> 0 <= found < capacity && data[found] == es[Rank(es, key, cmp)])
    {
      found := root;
      ghost var path, t := [], tree;
      while found != NIL
        invariant tree == Plug(path, t) && Brackets(path, key, data[..], cmp)
        invariant Rep(left[..], right[..], found, t)
        decreases t
      {
        var c := cmp(key, data[found]);
        if c == 0 {
          FoundAt(path, t.slot, t.left, t.right, key, data[..], cmp);
          return;
        }
        if c < 0 {
          path := GoLeft(path, t.slot, t.left, t.right, key, data[..], cmp);
          found, t := left[found], t.left;
        } else {
          path := GoRight(path, t.slot, t.left, t.right, key, data[..], cmp);
          found, t := right[found], t.right;
        }
      }
      MissedAt(path, key, data[..], cmp);
    }

    method Get(key: E) returns (st: Status, out: Option<E>)
      requires Valid()
      ensures out == Lookup(Elements(), key, cmp) && st == if out.Some? then Ok else NotFound
    {
      var found := FindNode(key);
      if found == NIL {
        return NotFound, None;
      }
      return Ok, Some(data[found]);
    }

    lemma FirstFree(l: seq<int>, head: int, list: seq<int>)
      requires Linked(l, head, list) && head != NIL
      ensures list != [] && head == list[0] && 0 <= head < |l|
      ensures Linked(l[head := NIL], l[head], list[1..]) && head !in list[1..]
      ensures forall s :: s in list[1..] ==> s in list
    {
      assert l[list[0]] == At(list, 1);
      LinkedUnlink(l, head, list, 0);
      LinkedDistinct(l, head, list);
      RemoveAtMembers(list, 0);
      assert RemoveAt(list, 0) == list[1..];
    }

    method AcquireNode() returns (slot: int)
      requires Shape() && TreeOk() && FreeOk()
      modifies `freeList, `free, left, right
      ensures TreeOk() && FreeOk()
      ensures slot == At(old(free), 0)
      ensures slot == NIL ==> free == old(free) == []
      ensures slot != NIL ==> free == old(free)[1..] && 0 <= slot < capacity && left[slot] == right[slot] == NIL
      ensures slot != NIL ==> slot !in Slots(tree) && slot !in free
    {
      if freeList == NIL {
        return NIL;
      }
      ghost var l, r, list := left[..], right[..], free;
      slot := freeList;
      FirstFree(l, freeList, list);
      freeList := left[slot];
      left[slot] := NIL;
      right[slot] := NIL;
      free := list[1..];
      RepFrame(l, r, left[..], right[..], root, tree);
    }

    method ReleaseNode(slot: int)
      requires Shape() && TreeOk() && FreeOk()
      requires 0 <= slot < capacity && slot !in Slots(tree) && slot !in free
      modifies `freeList, `free, left, right
      ensures TreeOk() && FreeOk() && free == [slot] + old(free)
    {
      ghost var l, r, list := left[..], right[..], free;
      LinkedInsert(l, freeList, list, 0, slot);
      left[slot] := freeList;
      right[slot] := NIL;
      freeList := slot;
      free := [slot] + list;
      assert left[..] == LinkIn(l, list, 0, slot);
      assert InsertAt(list, 0, slot) == [slot] + list;
      RepFrame(l, r, left[..], right[..], root, tree);
    }

    // Write one link: the subtree t at the position becomes t'.
    method Relink(link: Link, x: int, ghost path: seq<Step>, ghost t: Tree, ghost t': Tree)
      requires Shape() && TreeOk() && FreeOk()
      requires tree == Plug(path, t) && link == LinkOf(path)
      requires Rep(left[..], right[..], x, t')
      requires Distinct(Slots(Plug(path, t'))) && forall s :: s in free ==> s !in Slots(Plug(path, t'))
      modifies `root, `tree, left, right
      ensures TreeOk() && FreeOk() && tree == Plug(path, t')
      ensures left[..] == WriteLeft(old(left[..]), link, x) && right[..] == WriteRight(old(right[..]), link, x)
      ensures root == WriteRoot(old(root), link, x)
    {
      ghost var l, r := left[..], right[..];
      SlotsOfPlug(path, t);
      RepFocus(l, r, root, path, t);
      if path != [] {
        LinkInTree(path, t);
        LinkInTree(path, t');
      }
      RepFrame(l, r, WriteLeft(l, link, x), WriteRight(r, link, x), x, t');
      RepReplace(l, r, root, path, t, x, t');
      LinkedFrame(l, WriteLeft(l, link, x), freeList, free);
      Store(link, x);
      tree := Plug(path, t');
    }

    // copied tells whether the element policy's copy succeeds.
    method MakeNode(elem: E, copied: bool) returns (st: Status, slot: int)
      requires Shape() && TreeOk() && FreeOk()
      modifies `freeList, `free, left, right, data
      ensures TreeOk() && FreeOk()
      ensures st == if old(free) == [] then Full else if copied then Ok else CopyFailed
      ensures st != Ok ==> free == old(free) && data[..] == old(data[..])
      ensures st == Ok ==> free == old(free)[1..] && 0 <= slot < capacity && data[..] == old(data[..])[slot := elem]
      ensures st == Ok ==> slot !in Slots(tree) && slot !in free && left[slot] == right[slot] == NIL
    {
      slot := AcquireNode();
      if slot == NIL {
        return Full, NIL;
      }
      if !copied {
        ReleaseNode(slot);
        return CopyFailed, NIL;
      }
      data[slot] := elem;
      return Ok, slot;
    }

    // The outcome of an insertion, before the size is updated.
    ghost predicate Working()
      reads this, left, right, data
    {
      Shape() && TreeOk() && FreeOk() && OrderOk()
    }

    method InsertHere(link: Link, elem: E, copied: bool, ghost path: seq<Step>) returns (st: Status)
      requires Working() && tree == Plug(path, Nil) && link == LinkOf(path)
      modifies `root, `freeList, `tree, `free, left, right, data
      ensures Shape() && TreeOk() && FreeOk()
      ensures st == if old(free) == [] then Full else if copied then Ok else CopyFailed
      ensures st != Ok ==> tree == old(tree) && free == old(free) && data[..] == old(data[..])
      ensures st == Ok ==> free == old(free)[1..]
      ensures st == Ok ==>
                && InPool(Slots(tree), data[..])
                && |Before(path)| <= |Slots(old(tree))|
                && Gather(Slots(tree), data[..]) == InsertAt(old(Gather(Slots(tree), data[..])), |Before(path)|, elem)
    {
      ghost var before := data[..];
      var slot;
      st, slot := MakeNode(elem, copied);
      if st != Ok {
        return;
      }
      GraftSlots(path, slot, elem, before, data[..]);
      Relink(link, slot, path, Nil, Node(slot, Nil, Nil));
    }

    // Assigning an element equal to the one at the focus.
    method AssignHere(slot: int, elem: E, ghost path: seq<Step>, ghost t: Tree)
      requires Working() && tree == Plug(path, t) && t.Node? && t.slot == slot
      requires 0 <= slot < capacity
      modifies data
      ensures TreeOk() && FreeOk() && InPool(Slots(tree), data[..])
      ensures var k := |Before(path)| + |Slots(t.left)|;
              k < |Slots(tree)| && Gather(Slots(tree), data[..]) == old(Gather(Slots(tree), data[..]))[k := elem]
    {
      FocusIndex(path, slot, t.left, t.right);
      ghost var k, slots, es := |Before(path)| + |Slots(t.left)|, Slots(tree), Gather(Slots(tree), data[..]);
      data[slot] := elem;
      assert forall i :: 0 <= i < |slots| && i != k ==> slots[i] != slot;
      assert Gather(slots, data[..]) == es[k := elem];
    }

    method Missed(link: Link, elem: E, copied: bool, ghost path: seq<Step>) returns (st: Status, inserted: bool)
      requires Working() && tree == Plug(path, Nil) && link == LinkOf(path) && Brackets(path, elem, data[..], cmp)
      modifies `root, `freeList, `tree, `free, left, right, data
      ensures Working()
      ensures NodeOutcome(old(Gather(Slots(tree), data[..])), elem, |old(free)|, copied, cmp, st, inserted, Gather(Slots(tree), data[..]), |free|)
    {
      MissedAt(path, elem, data[..], cmp);
      InsertSorted(Gather(Slots(tree), data[..]), elem, cmp);
      st := InsertHere(link, elem, copied, path);
      inserted := st == Ok;
    }

    method Matched(slot: int, elem: E, copied: bool, ghost path: seq<Step>, ghost t: Tree)
      requires Working() && tree == Plug(path, t) && t.Node? && t.slot == slot && 0 <= slot < capacity
      requires cmp(elem, data[slot]) == 0
      modifies data
      ensures Working()
      ensures NodeOutcome(old(Gather(Slots(tree), data[..])), elem, |free|, copied, cmp, Ok, false, Gather(Slots(tree), data[..]), |free|)
    {
      ghost var es := Gather(Slots(tree), data[..]);
      FoundAt(path, slot, t.left, t.right, elem, data[..], cmp);
      if copied {
        InsertSorted(es, elem, cmp);
        AssignHere(slot, elem, path, t);
        assert Gather(Slots(tree), data[..]) == Inserted(es, elem, cmp);
      }
    }

    method InsertNode(link: Link, elem: E, copied: bool, ghost path: seq<Step>, ghost t: Tree) returns (st: Status, inserted: bool)
      requires Working() && tree == Plug(path, t) && link == LinkOf(path)
      requires Brackets(path, elem, data[..], cmp)
      modifies `root, `freeList, `tree, `free, left, right, data
      ensures Working()
      ensures NodeOutcome(old(Gather(Slots(tree), data[..])), elem, |old(free)|, copied, cmp, st, inserted, Gather(Slots(tree), data[..]), |free|)
      decreases t
    {
      RepFocus(left[..], right[..], root, path, t);
      var x := Load(link);
      assert Rep(left[..], right[..], x, t);
      if x == NIL {
        st, inserted := Missed(link, elem, copied, path);
        return;
      }
      var c := cmp(elem, data[x]);
      if c == 0 {
        Matched(x, elem, copied, path, t);
        return Ok, false;
      }
      if c < 0 {
        ghost var p := GoLeft(path, x, t.left, t.right, elem, data[..], cmp);
        st, inserted := InsertNode(LeftOf(x), elem, copied, p, t.left);
      } else {
        ghost var p := GoRight(path, x, t.left, t.right, elem, data[..], cmp);
        st, inserted := InsertNode(RightOf(x), elem, copied, p, t.right);
      }
    }

    // The size follows the tree.
    method Count(inserted: bool)
      requires Working() && |Slots(tree)| == size + (if inserted then 1 else 0) && |Slots(tree)| + |free| == capacity
      modifies `size
      ensures Valid() && Elements() == old(Gather(Slots(tree), data[..]))
    {
      if inserted {
        size := size + 1;
      }
    }

    method InsertFromRoot(elem: E, copied: bool) returns (st: Status, inserted: bool)
      requires Working()
      modifies `root, `freeList, `tree, `free, left, right, data
      ensures Working()
      ensures NodeOutcome(old(Gather(Slots(tree), data[..])), elem, |old(free)|, copied, cmp, st, inserted, Gather(Slots(tree), data[..]), |free|)
    {
      assert Brackets([], elem, data[..], cmp);
      st, inserted := InsertNode(Root, elem, copied, [], tree);
    }

    method Insert(elem: E, copied: bool) returns (st: Status)
      requires Valid()
      modifies this, left, right, data
      ensures Valid()
      ensures var es := old(Elements());
              InsertionOutcome(es, elem, |es| < capacity, copied, cmp, st, Elements())
    {
      ghost var es, free0 := Gather(Slots(tree), data[..]), |free|;
      var inserted;
      st, inserted := InsertFromRoot(elem, copied);
      InsertedLength(es, elem, free0, copied, cmp, st, inserted, Gather(Slots(tree), data[..]), |free|, capacity);
      Count(st == Ok && inserted);
    }

    // Unlink a target with at most one child, and release it.
    method RemoveLeaf(link: Link, target: int, ghost path: seq<Step>, ghost t: Tree)
      requires Working() && tree == Plug(path, t) && link == LinkOf(path)
      requires t.Node? && t.slot == target && (t.left.Nil? || t.right.Nil?)
      modifies `root, `freeList, `tree, `free, left, right
      ensures Shape() && TreeOk() && FreeOk() && |free| == |old(free)| + 1
      ensures var slots, k := Slots(old(tree)), |Before(path)| + |Slots(t.left)|;
              k < |slots| && Slots(tree) == RemoveAt(slots, k)
    {
      RepFocus(left[..], right[..], root, path, t);
      ghost var t' := if t.right.Nil? then t.left else t.right;
      CutSlots(path, t, t');
      if left[target] != NIL {
        Relink(link, left[target], path, t, t');
      } else {
        Relink(link, right[target], path, t, t');
      }
      ReleaseNode(target);
    }

    // The leftmost node of the target's right subtree.
    method FindSuccessor(target: int, ghost path: seq<Step>, ghost t: Tree) returns (link: Link, succ: int, ghost spath: seq<Step>, ghost cur: Tree)
      requires Working() && tree == Plug(path, t)
      requires t.Node? && t.slot == target && t.right.Node?
      ensures tree == Plug(spath, cur) && link == LinkOf(spath) && spath != []
      ensures cur.Node? && cur.slot == succ && cur.left.Nil? && 0 <= succ < capacity
      ensures Rep(left[..], right[..], succ, cur)
      ensures Before(spath) == Before(path) + Slots(t.left) + [target]
    {
      RepFocus(left[..], right[..], root, path, t);
      PlugDown(path, InRight(target, t.left), t.right);
      link, succ := RightOf(target), right[target];
      spath, cur := path + [InRight(target, t.left)], t.right;
      while left[succ] != NIL
        invariant tree == Plug(spath, cur) && link == LinkOf(spath) && spath != []
        invariant Rep(left[..], right[..], succ, cur) && cur.Node?
        invariant Before(spath) == Before(path) + Slots(t.left) + [target]
        decreases cur
      {
        PlugDown(spath, InLeft(succ, cur.right), cur.left);
        link := LeftOf(succ);
        spath, cur := spath + [InLeft(succ, cur.right)], cur.left;
        succ := left[succ];
      }
    }

    // Cut the successor out, copy its element over the target's, release it. A
    // failed copy puts everything back as it was.
    method RemoveInner(target: int, copied: bool, ghost path: seq<Step>, ghost t: Tree) returns (st: Status)
      requires Working() && tree == Plug(path, t)
      requires t.Node? && t.slot == target && t.right.Node? && 0 <= target < capacity
      modifies `root, `freeList, `tree, `free, left, right, data
      ensures Shape() && TreeOk() && FreeOk()
      ensures st == if copied then Ok else CopyFailed
      ensures !copied ==> Links() == old(Links()) && data[..] == old(data[..])
      ensures !copied ==> tree == old(tree) && free == old(free)
      ensures copied ==> |free| == |old(free)| + 1
      ensures copied ==>
                var slots, k := Slots(old(tree)), |Before(path)| + |Slots(t.left)|;
                && k + 1 < |slots| && slots[k] == target
                && Slots(tree) == RemoveAt(slots, k + 1)
                && 0 <= slots[k + 1] < capacity
                && data[..] == old(data[..])[target := old(data[..])[slots[k + 1]]]
    {
      ghost var l, r, x := left[..], right[..], root;
      var link, succ, savedRight;
      ghost var spath, cur;
      link, succ, savedRight, spath, cur := CutSuccessor(target, path, t);
      if !copied {
        Restore(link, succ, savedRight, spath, cur, l, r, x);
        return CopyFailed;
      }
      data[target] := data[succ];
      ReleaseNode(succ);
      return Ok;
    }

    // The successor's link skips it.
    method CutSuccessor(target: int, ghost path: seq<Step>, ghost t: Tree)
      returns (link: Link, succ: int, savedRight: int, ghost spath: seq<Step>, ghost cur: Tree)
      requires Working() && tree == Plug(path, t)
      requires t.Node? && t.slot == target && t.right.Node?
      modifies `root, `tree, left, right
      ensures TreeOk() && FreeOk() && cur.Node? && old(tree) == Plug(spath, cur) && tree == Plug(spath, cur.right)
      ensures cur.slot == succ && cur.left.Nil? && spath != [] && link == LinkOf(spath) && 0 <= succ < capacity
      ensures ReadLink(old(left[..]), old(right[..]), old(root), link) == succ && savedRight == old(right[succ])
      ensures left[..] == WriteLeft(old(left[..]), link, savedRight) && right[..] == WriteRight(old(right[..]), link, savedRight)
      ensures root == old(root)
      ensures succ !in Slots(tree) && succ !in free
      ensures var slots, k := Slots(old(tree)), |Before(path)| + |Slots(t.left)|;
              k + 1 < |slots| && slots[k] == target && slots[k + 1] == succ && Slots(tree) == RemoveAt(slots, k + 1)
    {
      link, succ, spath, cur := FindSuccessor(target, path, t);
      SuccessorSlots(path, t, spath, cur);
      RepFocus(left[..], right[..], root, spath, cur);
      savedRight := right[succ];
      Relink(link, savedRight, spath, cur, cur.right);
    }

    method Restore(link: Link, succ: int, savedRight: int, ghost spath: seq<Step>, ghost cur: Tree, ghost l: seq<int>, ghost r: seq<int>, ghost x: int)
      requires Shape() && TreeOk() && FreeOk()
      requires cur.Node? && cur.slot == succ && cur.left.Nil? && spath != []
      requires tree == Plug(spath, cur.right) && link == LinkOf(spath)
      requires |l| == |r| == capacity && 0 <= succ < capacity && Rep(l, r, x, Plug(spath, cur)) && Distinct(Slots(Plug(spath, cur)))
      requires ReadLink(l, r, x, link) == succ && savedRight == r[succ]
      requires forall s :: s in free ==> s !in Slots(Plug(spath, cur))
      requires left[..] == WriteLeft(l, link, savedRight) && right[..] == WriteRight(r, link, savedRight) && root == x
      modifies `root, `tree, left, right
      ensures TreeOk() && FreeOk() && tree == Plug(spath, cur)
      ensures root == x && left[..] == l && right[..] == r
    {
      right[succ] := savedRight;
      RepFocus(l, r, x, spath, cur);
      LinkInTree(spath, cur);
      RepFrame(l, r, left[..], right[..], succ, cur);
      Relink(link, succ, spath, cur.right, cur);
      assert left[..] == l && right[..] == r;
    }

    // The same two cases, seen on the elements.
    method DropLeaf(link: Link, target: int, ghost path: seq<Step>, ghost t: Tree)
      requires Working() && tree == Plug(path, t) && link == LinkOf(path)
      requires t.Node? && t.slot == target && (t.left.Nil? || t.right.Nil?)
      modifies `root, `freeList, `tree, `free, left, right
      ensures Working() && |free| == |old(free)| + 1
      ensures var es, k := old(Gather(Slots(tree), data[..])), |Before(path)| + |Slots(t.left)|;
              k < |es| && Gather(Slots(tree), data[..]) == RemoveAt(es, k)
    {
      FocusIndex(path, target, t.left, t.right);
      ghost var slots, k := Slots(tree), |Before(path)| + |Slots(t.left)|;
      RemoveSorted(Gather(slots, data[..]), k, cmp);
      CutGather(slots, k, data[..]);
      RemoveLeaf(link, target, path, t);
    }

    method DropInner(target: int, copied: bool, ghost path: seq<Step>, ghost t: Tree) returns (st: Status)
      requires Working() && tree == Plug(path, t)
      requires t.Node? && t.slot == target && t.right.Node? && 0 <= target < capacity
      modifies `root, `freeList, `tree, `free, left, right, data
      ensures Working()
      ensures st == if copied then Ok else CopyFailed
      ensures !copied ==> tree == old(tree) && free == old(free)
      ensures !copied ==> Links() == old(Links()) && data[..] == old(data[..])
      ensures copied ==> |free| == |old(free)| + 1
      ensures copied ==>
                var es, k := old(Gather(Slots(tree), data[..])), |Before(path)| + |Slots(t.left)|;
                k < |es| && Gather(Slots(tree), data[..]) == RemoveAt(es, k)
    {
      ghost var slots, k, before := Slots(tree), |Before(path)| + |Slots(t.left)|, data[..];
      st := RemoveInner(target, copied, path, t);
      if st == Ok {
        RemoveSorted(Gather(slots, before), k, cmp);
        SpliceGather(slots, k, before);
      }
    }

    // The node that matches the key goes; copied tells whether the copy of a
    // successor's element, where one is needed, succeeds.
    method RemoveMatched(link: Link, target: int, key: E, copied: bool, ghost path: seq<Step>, ghost t: Tree) returns (st: Status, removed: bool)
      requires Working() && tree == Plug(path, t) && link == LinkOf(path)
      requires Rep(left[..], right[..], target, t)
      requires t.Node? && 0 <= target < capacity && cmp(key, data[target]) == 0
      modifies `root, `freeList, `tree, `free, left, right, data
      ensures Working()
      ensures NodeRemoval(old(Gather(Slots(tree), data[..])), key, EndsInner(t, key, old(data[..]), cmp), |old(free)|, copied, cmp,
                          st, removed, Gather(Slots(tree), data[..]), |free|)
      ensures st != Ok ==> Links() == old(Links()) && data[..] == old(data[..])
    {
      FoundRemoves(path, t, key, data[..], cmp);
      if left[target] != NIL && right[target] != NIL {
        st := DropInner(target, copied, path, t);
      } else {
        DropLeaf(link, target, path, t);
        st := Ok;
      }
      removed := st == Ok;
    }

    lemma RemoveMissed(key: E, copied: bool, path: seq<Step>)
      requires Working() && tree == Plug(path, Nil) && Brackets(path, key, data[..], cmp)
      ensures var es := Gather(Slots(tree), data[..]);
              NodeRemoval(es, key, EndsInner(Nil, key, data[..], cmp), |free|, copied, cmp, NotFound, false, es, |free|)
    {
      MissedAt(path, key, data[..], cmp);
    }

    method RemoveNode(link: Link, key: E, copied: bool, ghost path: seq<Step>, ghost t: Tree) returns (st: Status, removed: bool)
      requires Working() && tree == Plug(path, t) && link == LinkOf(path)
      requires Brackets(path, key, data[..], cmp)
      modifies `root, `freeList, `tree, `free, left, right, data
      ensures Working()
      ensures NodeRemoval(old(Gather(Slots(tree), data[..])), key, EndsInner(t, key, old(data[..]), cmp), |old(free)|, copied, cmp,
                          st, removed, Gather(Slots(tree), data[..]), |free|)
      ensures st != Ok ==> Links() == old(Links()) && data[..] == old(data[..])
      decreases t
    {
      RepFocus(left[..], right[..], root, path, t);
      var x := Load(link);
      assert Rep(left[..], right[..], x, t);
      if x == NIL {
        RemoveMissed(key, copied, path);
        return NotFound, false;
      }
      assert t.Node? && t.slot == x && 0 <= x < capacity;
      var c := cmp(key, data[x]);
      if c < 0 {
        ghost var p := GoLeft(path, x, t.left, t.right, key, data[..], cmp);
        assert EndsInner(t, key, data[..], cmp) == EndsInner(t.left, key, data[..], cmp);
        st, removed := RemoveNode(LeftOf(x), key, copied, p, t.left);
        return;
      }
      if c > 0 {
        ghost var p := GoRight(path, x, t.left, t.right, key, data[..], cmp);
        assert EndsInner(t, key, data[..], cmp) == EndsInner(t.right, key, data[..], cmp);
        st, removed := RemoveNode(RightOf(x), key, copied, p, t.right);
        return;
      }
      st, removed := RemoveMatched(link, x, key, copied, path, t);
    }

    // A removal drops the matching element and no other. If it fails, because
    // the key is absent or a copy fails, no link and no element has changed.
    method Remove(key: E, copied: bool) returns (st: Status)
      requires Valid()
      modifies this, left, right, data
      ensures Valid()
      ensures RemovalOutcome(old(Elements()), key, copied, cmp, st, Elements())
      ensures st == CopyFailed <==> !copied && EndsInner(old(tree), key, old(data[..]), cmp)
      ensures st != Ok ==> Links() == old(Links()) && data[..] == old(data[..])
    {
      var removed;
      assert Brackets([], key, data[..], cmp);
      ghost var es, inner, free0 := Gather(Slots(tree), data[..]), EndsInner(tree, key, data[..], cmp), |free|;
      st, removed := RemoveNode(Root, key, copied, [], tree);
      RemovedLength(es, key, inner, free0, copied, cmp, st, removed, Gather(Slots(tree), data[..]), |free|);
      if st == Ok && removed {
        size := size - 1;
      }
    }

    method Contains(key: E) returns (present: bool)
      requires Valid()
      ensures present == Present(Elements(), key, cmp)
    {
      var found := FindNode(key);
      return found != NIL;
    }

    method PeekMin() returns (st: Status, out: Option<E>)
      requires Valid()
      ensures if size == 0 then st == Empty && out == None
              else st == Ok && Elements() != [] && out == Some(Elements()[0])
    {
      if size == 0 {
        return Empty, None;
      }
      var node := Leftmost();
      return Ok, Some(data[node]);
    }

    method PeekMax() returns (st: Status, out: Option<E>)
      requires Valid()
      ensures if size == 0 then st == Empty && out == None
              else st == Ok && Elements() != [] && out == Some(Elements()[|Elements()| - 1])
    {
      if size == 0 {
        return Empty, None;
      }
      var node := Rightmost();
      return Ok, Some(data[node]);
    }

    method Leftmost() returns (node: int)
      requires Rep(left[..], right[..], root, tree) && tree.Node?
      ensures Slots(tree) != [] && node == Slots(tree)[0]
    {
      node := root;
      ghost var t := tree;
      SlotsEnds(t);
      while left[node] != NIL
        invariant Rep(left[..], right[..], node, t) && t.Node?
        invariant Slots(t) != [] && Slots(tree) != [] && Slots(tree)[0] == Slots(t)[0]
        decreases t
      {
        SlotsEnds(t);
        SlotsEnds(t.left);
        node, t := left[node], t.left;
      }
      SlotsEnds(t);
    }

    method Rightmost() returns (node: int)
      requires Rep(left[..], right[..], root, tree) && tree.Node?
      ensures Slots(tree) != [] && node == Slots(tree)[|Slots(tree)| - 1]
    {
      node := root;
      ghost var t := tree;
      SlotsEnds(t);
      while right[node] != NIL
        invariant Rep(left[..], right[..], node, t) && t.Node?
        invariant Slots(t) != [] && Slots(tree) != [] && Slots(tree)[|Slots(tree)| - 1] == Slots(t)[|Slots(t)| - 1]
        decreases t
      {
        SlotsEnds(t);
        SlotsEnds(t.right);
        node, t := right[node], t.right;
      }
      SlotsEnds(t);
    }

    method TraverseNode(current: int, order: Traversal, visit: E -> Status, ghost t: Tree) returns (st: Status, visited: seq<E>)
      requires Rep(left[..], right[..], current, t) && InPool(Visits(t, order), data[..])
      ensures (st, visited) == VisitAll(Gather(Visits(t, order), data[..]), visit)
      decreases t, 0
    {
      if current == NIL {
        return Ok, [];
      }
      ghost var pool := data[..];
      SplitVisits(t, order, pool);
      ghost var es, l, r := Gather(Visits(t, order), pool), Gather(Visits(t.left, order), pool), Gather(Visits(t.right, order), pool);
      ghost var p0, p1, p2, p3 := Stages(order, [pool[current]], l, r);
      st, visited := Ok, [];
      if order.Preorder? {
        st, visited := VisitHere(current, visit, visited, []);
        if st != Ok {
          VisitStopped(p0, es, visit);
          return;
        }
      }
      st, visited := VisitBelow(left[current], order, visit, visited, p0, t.left);
      if st != Ok {
        VisitStopped(p1, es, visit);
        return;
      }
      if order.Inorder? {
        st, visited := VisitHere(current, visit, visited, p1);
        if st != Ok {
          VisitStopped(p2, es, visit);
          return;
        }
      }
      st, visited := VisitBelow(right[current], order, visit, visited, p2, t.right);
      if st != Ok {
        VisitStopped(p3, es, visit);
        return;
      }
      if order.Postorder? {
        st, visited := VisitHere(current, visit, visited, p3);
      }
    }

    // Visit a subtree after what has been seen.
    method VisitBelow(child: int, order: Traversal, visit: E -> Status, seen: seq<E>, ghost p: seq<E>, ghost t: Tree) returns (st: Status, visited: seq<E>)
      requires Rep(left[..], right[..], child, t) && InPool(Visits(t, order), data[..])
      requires (Ok, seen) == VisitAll(p, visit)
      ensures (st, visited) == VisitAll(p + Gather(Visits(t, order), data[..]), visit)
      decreases t, 1
    {
      st, visited := TraverseNode(child, order, visit, t);
      VisitConcat(p, Gather(Visits(t, order), data[..]), visit);
      visited := seen + visited;
    }

    method VisitHere(current: int, visit: E -> Status, seen: seq<E>, ghost p: seq<E>) returns (st: Status, visited: seq<E>)
      requires 0 <= current < data.Length
      requires (Ok, seen) == VisitAll(p, visit)
      ensures (st, visited) == VisitAll(p + [data[current]], visit)
    {
      st, visited := visit(data[current]), seen + [data[current]];
      VisitConcat(p, [data[current]], visit);
      assert [data[current]][1..] == [] && [data[current]] + [] == [data[current]];
      assert VisitAll([data[current]], visit) == (st, [data[current]]);
    }

    lemma SplitVisits(t: Tree, order: Traversal, pool: seq<E>)
      requires t.Node? && InPool(Visits(t, order), pool)
      ensures InPool(Visits(t.left, order), pool) && InPool(Visits(t.right, order), pool) && 0 <= t.slot < |pool|
      ensures Gather(Visits(t, order), pool) == Arrange(order, [pool[t.slot]], Gather(Visits(t.left, order), pool), Gather(Visits(t.right, order), pool))
    {
      var l, r, at := Visits(t.left, order), Visits(t.right, order), [t.slot];
      assert InPool(at, pool) ==> 0 <= at[0] < |pool| && Gather(at, pool) == [pool[t.slot]];
      match order
      case Preorder =>
        InPoolParts(at + l, r, pool);
        InPoolParts(at, l, pool);
      case Inorder =>
        InPoolParts(l + at, r, pool);
        InPoolParts(l, at, pool);
      case Postorder =>
        InPoolParts(l + r, at, pool);
        InPoolParts(l, r, pool);
    }

    lemma InPoolParts(a: seq<int>, b: seq<int>, pool: seq<E>)
      requires InPool(a + b, pool)
      ensures InPool(a, pool) && InPool(b, pool)
      ensures Gather(a + b, pool) == Gather(a, pool) + Gather(b, pool)
    {
      assert forall i :: 0 <= i < |a| ==> (a + b)[i] == a[i];
      assert forall i :: 0 <= i < |b| ==> (a + b)[|a| + i] == b[i];
      GatherConcat(a, b, pool);
    }

    // foreach; in order, the visitor sees the elements sorted.
    method Foreach(order: Traversal, visit: E -> Status) returns (st: Status, visited: seq<E>)
      requires Valid()
      ensures InPool(Visits(tree, order), data[..])
      ensures VisitedUpTo(Gather(Visits(tree, order), data[..]), visit, st, visited)
      ensures order.Inorder? ==> VisitedUpTo(Elements(), visit, st, visited)
    {
      VisitsInPool(tree, order);
      InorderVisits(tree);
      assert InPool(Visits(tree, order), data[..]) by {
        assert forall i :: 0 <= i < |Slots(tree)| ==> 0 <= Slots(tree)[i] < capacity;
        assert forall i :: 0 <= i < |Slots(tree)| ==> Slots(tree)[i] in Slots(tree);
        assert forall i :: 0 <= i < |Visits(tree, order)| ==> Visits(tree, order)[i] in Visits(tree, order);
      }
      VisitAllExact(Gather(Visits(tree, order), data[..]), visit);
      st, visited := TraverseNode(root, order, visit, tree);
    }

    // Every node goes back to the free list, in the order of the walk.
    method ClearSubtree(current: int, ghost t: Tree)
      requires Shape() && Rep(left[..], right[..], current, t) && Distinct(Slots(t))
      modifies `freeList, left, right
      ensures forall s :: 0 <= s < capacity && s !in Slots(t) ==> left[s] == old(left[s]) && right[s] == old(right[s])
      decreases t
    {
      if current == NIL {
        return;
      }
      ghost var l, r := left[..], right[..];
      DistinctParts(t);
      var rightChild := right[current];
      ClearSubtree(left[current], t.left);
      RepRange(l, r, rightChild, t.right);
      RepFrame(l, r, left[..], right[..], rightChild, t.right);
      ClearSubtree(right[current], t.right);
      left[current] := freeList;
      right[current] := NIL;
      freeList := current;
    }

    lemma DistinctParts(t: Tree)
      requires t.Node? && Distinct(Slots(t))
      ensures Distinct(Slots(t.left)) && Distinct(Slots(t.right))
      ensures t.slot !in Slots(t.left) && t.slot !in Slots(t.right)
      ensures forall s :: s in Slots(t.left) ==> s !in Slots(t.right)
      ensures forall s :: s in Slots(t) <==> s == t.slot || s in Slots(t.left) || s in Slots(t.right)
    {
      var l, r, xs := Slots(t.left), Slots(t.right), Slots(t);
      assert xs == l + [t.slot] + r;
      DistinctMiddle(l, t.slot, r);
      assert forall i :: 0 <= i < |l| ==> xs[i] == l[i];
      assert forall i :: 0 <= i < |r| ==> xs[|l| + 1 + i] == r[i];
    }

    method InitFreeList()
      requires Shape()
      modifies `freeList, `free, left, right
      ensures Linked(left[..], freeList, free) && |free| == capacity
    {
      freeList, free := NIL, [];
      for i := 0 to capacity
        invariant |free| == i && (forall s :: s in free ==> 0 <= s < i)
        invariant Linked(left[..], freeList, free)
      {
        ghost var l := left[..];
        LinkedInsert(l, freeList, free, 0, i);
        left[i] := freeList;
        right[i] := NIL;
        assert left[..] == LinkIn(l, free, 0, i);
        freeList, free := i, InsertAt(free, 0, i);
      }
    }

    method Clear()
      requires Valid()
      modifies this, left, right
      ensures Valid() && Elements() == []
    {
      if root != NIL {
        ClearSubtree(root, tree);
        root := NIL;
      }
      tree := Nil;
      size := 0;
      InitFreeList();
    }

    // The caller supplies the node pool, with any contents.
    constructor (cmp: (E, E) -> int, left: array<int>, right: array<int>, data: array<E>)
      requires 0 < left.Length == right.Length == data.Length
      requires left != right && left as object != data && right as object != data && TotalOrder(cmp)
      modifies left, right
      ensures Valid() && Elements() == [] && capacity == data.Length
      ensures this.cmp == cmp && this.left == left && this.right == right && this.data == data
    {
      this.cmp, this.left, this.right, this.data, capacity := cmp, left, right, data, data.Length;
      root, size, freeList := NIL, 0, NIL;
      tree, free := Nil, [];
      new;
      InitFreeList();
    }

    static method Init(cmp: (E, E) -> int, left: array<int>, right: array<int>, data: array<E>) returns (st: Status, created: OrderedMap?<E>)
      requires left.Length == right.Length == data.Length && TotalOrder(cmp)
      requires left != right && left as object != data && right as object != data
      modifies left, right
      ensures st == if data.Length == 0 then Invalid else Ok
      ensures st == Ok ==> created != null && created.Valid() && created.Elements() == []
    {
      if data.Length == 0 {
        return Invalid, null;
      }
      created := new OrderedMap(cmp, left, right, data);
      return Ok, created;
    }
  }
}
