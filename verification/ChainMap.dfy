/** The chaining hash map: buckets of singly linked nodes.

    Node memory comes from an allocator: a node is an index into `next` and
    `pairs`, which grow with every allocation. Growing the table relinks every
    node in place. */
module ChainMap {
  import opened Common
  import opened Growth
  import opened Links

  // Bucket heads and node links, with the nodes of each chain and the chain of
  // each node.
  datatype Chains = Chains(next: seq<int>, heads: seq<int>, lists: seq<seq<int>>, owner: seq<int>)

  ghost predicate Owned(lists: seq<seq<int>>, owner: seq<int>) {
    forall b, s {:trigger s in lists[b]} :: 0 <= b < |lists| && s in lists[b] ==> 0 <= s < |owner| && owner[s] == b
  }

  // No node is in two chains.
  ghost predicate Chained(t: Chains) {
    AllLinked(t.next, t.heads, t.lists) && |t.owner| == |t.next| && Owned(t.lists, t.owner)
  }

  // The node of each key: the chained nodes are just those.
  ghost predicate Located<K, V>(lists: seq<seq<int>>, pairs: seq<(K, V)>, nodeOf: map<K, int>) {
    && (forall s :: InSome(lists, s) ==> 0 <= s < |pairs| && pairs[s].0 in nodeOf && nodeOf[pairs[s].0] == s)
    && (forall k :: k in nodeOf ==> InSome(lists, nodeOf[k]) && 0 <= nodeOf[k] < |pairs| && pairs[nodeOf[k]].0 == k)
  }

  // Each node is in the chain of its key's hash.
  ghost predicate AtHome<K, V>(lists: seq<seq<int>>, pairs: seq<(K, V)>, home: K -> nat) {
    forall b, s {:trigger s in lists[b]} :: 0 <= b < |lists| && s in lists[b] ==> 0 <= s < |pairs| && home(pairs[s].0) == b
  }

  function HomeIn<K>(hash: K -> nat, n: nat): K -> nat {
    k => if n == 0 then 0 else hash(k) % n
  }

  // A key is present exactly when its chain holds it.
  lemma InHomeChain<K, V>(lists: seq<seq<int>>, pairs: seq<(K, V)>, home: K -> nat, nodeOf: map<K, int>, key: K)
    requires AtHome(lists, pairs, home) && Located(lists, pairs, nodeOf) && home(key) < |lists|
    ensures key in nodeOf <==> exists s :: s in lists[home(key)] && 0 <= s < |pairs| && pairs[s].0 == key
    ensures key in nodeOf ==> nodeOf[key] in lists[home(key)]
  {
    forall s | s in lists[home(key)]
      ensures InSome(lists, s)
    {
    }
  }

  // ---- One list operation ----

  // Node s becomes the first of chain b.
  function Pushed(t: Chains, b: nat, s: int): Chains
    requires b < |t.heads| && b < |t.lists| && 0 <= s < |t.next| == |t.owner|
  {
    Chains(t.next[s := t.heads[b]], t.heads[b := s], t.lists[b := [s] + t.lists[b]], t.owner[s := b])
  }

  lemma PushChained(t: Chains, b: nat, s: int)
    requires Chained(t) && b < |t.lists| && 0 <= s < |t.next| && !InSome(t.lists, s)
    ensures Chained(Pushed(t, b, s))
    ensures forall x :: InSome(Pushed(t, b, s).lists, x) <==> InSome(t.lists, x) || x == s
  {
    var t' := Pushed(t, b, s);
    assert s !in t.lists[b];
    LinkedInsert(t.next, t.heads[b], t.lists[b], 0, s);
    assert InsertAt(t.lists[b], 0, s) == t'.lists[b] && LinkIn(t.next, t.lists[b], 0, s) == t'.next;
    forall c | 0 <= c < |t.lists| && c != b
      ensures Linked(t'.next, t'.heads[c], t'.lists[c])
    {
      assert s !in t.lists[c];
      LinkedFrame(t.next, t'.next, t.heads[c], t.lists[c]);
    }
    forall c, x | 0 <= c < |t.lists| && x in t'.lists[c]
      ensures 0 <= x < |t'.owner| && t'.owner[x] == c
    {
      if !(c == b && x == s) {
        assert x in t.lists[c];
      }
    }
    PushMembers(t.lists, b, s);
  }

  lemma PushMembers(lists: seq<seq<int>>, b: nat, s: int)
    requires b < |lists|
    ensures forall x :: InSome(lists[b := [s] + lists[b]], x) <==> InSome(lists, x) || x == s
  {
    var lists' := lists[b := [s] + lists[b]];
    assert s in lists'[b];
    forall x
      ensures InSome(lists', x) <==> InSome(lists, x) || x == s
    {
      if InSome(lists, x) {
        var c :| 0 <= c < |lists| && x in lists[c];
        assert x in lists'[c];
      }
      if InSome(lists', x) && x != s {
        var c :| 0 <= c < |lists| && x in lists'[c];
        assert x in lists[c];
      }
    }
  }

  // The node at position p leaves chain b.
  function Unchained(t: Chains, b: nat, p: nat): Chains
    requires b < |t.heads| && b < |t.lists| && p < |t.lists[b]|
    requires forall i :: 0 <= i < |t.lists[b]| ==> 0 <= t.lists[b][i] < |t.next|
  {
    var xs := t.lists[b];
    Chains(LinkOut(t.next, xs, p), if p == 0 then t.heads[b := t.next[xs[0]]] else t.heads, t.lists[b := RemoveAt(xs, p)], t.owner)
  }

  lemma RemoveChained(t: Chains, b: nat, p: nat)
    requires Chained(t) && b < |t.lists| && p < |t.lists[b]|
    ensures Linked(t.next, t.heads[b], t.lists[b])
    ensures Chained(Unchained(t, b, p))
    ensures forall x :: InSome(Unchained(t, b, p).lists, x) <==> InSome(t.lists, x) && x != t.lists[b][p]
  {
    var xs, t' := t.lists[b], Unchained(t, b, p);
    LinkedDistinct(t.next, t.heads[b], xs);
    LinkedRemove(t.next, t.heads[b], xs, p);
    assert p > 0 ==> xs[p - 1] in xs;
    forall c | 0 <= c < |t.lists| && c != b
      ensures Linked(t'.next, t'.heads[c], t'.lists[c])
    {
      LinkedFrame(t.next, t'.next, t.heads[c], t.lists[c]);
    }
    RemoveMembers(t.lists, t.owner, b, p);
  }

  lemma RemoveMembers(lists: seq<seq<int>>, owner: seq<int>, b: nat, p: nat)
    requires b < |lists| && p < |lists[b]| && Distinct(lists[b]) && Owned(lists, owner)
    ensures var lists' := lists[b := RemoveAt(lists[b], p)];
            && (forall x :: InSome(lists', x) <==> InSome(lists, x) && x != lists[b][p])
            && Owned(lists', owner)
  {
    var lists', s := lists[b := RemoveAt(lists[b], p)], lists[b][p];
    RemoveAtMembers(lists[b], p);
    assert s in lists[b];
    assert forall c, x :: 0 <= c < |lists| ==> (x in lists'[c] <==> x in lists[c] && x != s);
    forall x
      ensures InSome(lists', x) <==> InSome(lists, x) && x != s
    {
      if InSome(lists, x) && x != s {
        var c :| 0 <= c < |lists| && x in lists[c];
        assert x in lists'[c];
      }
    }
  }

  function Allocated(t: Chains): Chains {
    t.(next := t.next + [NIL], owner := t.owner + [NIL])
  }

  // Allocating a node changes no chain.
  lemma AllocateChained(t: Chains)
    requires Chained(t)
    ensures Chained(Allocated(t)) && !InSome(t.lists, |t.next|)
  {
    forall b | 0 <= b < |t.lists|
      ensures Linked(t.next + [NIL], t.heads[b], t.lists[b]) && |t.next| !in t.lists[b]
    {
      LongerPool(t.next, t.heads[b], t.lists[b]);
    }
  }

  lemma LongerPool(next: seq<int>, head: int, xs: seq<int>)
    requires Linked(next, head, xs)
    ensures Linked(next + [NIL], head, xs) && |next| !in xs
  {
    var next' := next + [NIL];
    forall i | 0 <= i < |xs|
      ensures next'[xs[i]] == At(xs, i + 1)
    {
      assert next[xs[i]] == At(xs, i + 1);
    }
  }

  // ---- The map's operations ----

  lemma HomeFrame<K, V>(lists: seq<seq<int>>, lists': seq<seq<int>>, pairs: seq<(K, V)>, pairs': seq<(K, V)>, home: K -> nat)
    requires AtHome(lists, pairs, home) && |lists'| == |lists| && |pairs| <= |pairs'|
    requires forall b, s {:trigger s in lists'[b]} :: 0 <= b < |lists| && s in lists'[b] ==>
               if s in lists[b] then 0 <= s < |pairs| ==> pairs'[s].0 == pairs[s].0 else 0 <= s < |pairs'| && home(pairs'[s].0) == b
    ensures AtHome(lists', pairs', home)
  {
    forall b, s | 0 <= b < |lists| && s in lists'[b]
      ensures 0 <= s < |pairs'| && home(pairs'[s].0) == b
    {
      assert s in lists[b] ==> 0 <= s < |pairs| && home(pairs[s].0) == b;
    }
  }

  // The whole map: its entry count, the nodes, the chains and each key's node.
  datatype View<K, V> = View(size: nat, pairs: seq<(K, V)>, chains: Chains, nodeOf: map<K, int>)

  ghost predicate Good<K, V>(v: View<K, V>, hash: K -> nat) {
    && v.chains.heads != [] && |v.chains.next| == |v.pairs| && v.size == |v.nodeOf|
    && Chained(v.chains) && Located(v.chains.lists, v.pairs, v.nodeOf)
    && AtHome(v.chains.lists, v.pairs, HomeIn(hash, |v.chains.heads|))
  }

  function Contents<K, V>(pairs: seq<(K, V)>, nodeOf: map<K, int>): map<K, V>
    requires forall k :: k in nodeOf ==> 0 <= nodeOf[k] < |pairs|
  {
    map k | k in nodeOf :: pairs[nodeOf[k]].1
  }

  ghost function MapOf<K, V>(v: View<K, V>, hash: K -> nat): map<K, V>
    requires Good(v, hash)
  {
    Contents(v.pairs, v.nodeOf)
  }

  lemma Assigning<K, V>(v: View<K, V>, hash: K -> nat, key: K, value: V)
    requires Good(v, hash) && key in v.nodeOf
    ensures 0 <= v.nodeOf[key] < |v.pairs| && v.pairs[v.nodeOf[key]].0 == key
    ensures var v' := v.(pairs := v.pairs[v.nodeOf[key] := (key, value)]);
            Good(v', hash) && MapOf(v', hash) == MapOf(v, hash)[key := value]
  {
    var pairs' := v.pairs[v.nodeOf[key] := (key, value)];
    assert forall s :: 0 <= s < |v.pairs| ==> pairs'[s].0 == v.pairs[s].0;
    HomeFrame(v.chains.lists, v.chains.lists, v.pairs, pairs', HomeIn(hash, |v.chains.heads|));
  }

  lemma HomeAdd<K, V>(lists: seq<seq<int>>, pairs: seq<(K, V)>, home: K -> nat, key: K, value: V)
    requires AtHome(lists, pairs, home) && home(key) < |lists|
    ensures AtHome(lists[home(key) := [|pairs|] + lists[home(key)]], pairs + [(key, value)], home)
  {
    HomeFrame(lists, lists[home(key) := [|pairs|] + lists[home(key)]], pairs, pairs + [(key, value)], home);
  }

  lemma HomeDrop<K, V>(lists: seq<seq<int>>, pairs: seq<(K, V)>, home: K -> nat, b: nat, p: nat)
    requires AtHome(lists, pairs, home) && b < |lists| && p < |lists[b]| && Distinct(lists[b])
    ensures AtHome(lists[b := RemoveAt(lists[b], p)], pairs, home)
  {
    RemoveAtMembers(lists[b], p);
    HomeFrame(lists, lists[b := RemoveAt(lists[b], p)], pairs, pairs, home);
  }

  lemma ContentsAdd<K, V>(pairs: seq<(K, V)>, nodeOf: map<K, int>, key: K, value: V)
    requires forall k :: k in nodeOf ==> 0 <= nodeOf[k] < |pairs|
    ensures Contents(pairs + [(key, value)], nodeOf[key := |pairs|]) == Contents(pairs, nodeOf)[key := value]
  {
  }

  lemma ContentsDrop<K, V>(pairs: seq<(K, V)>, nodeOf: map<K, int>, key: K)
    requires forall k :: k in nodeOf ==> 0 <= nodeOf[k] < |pairs|
    ensures Contents(pairs, nodeOf - {key}) == Contents(pairs, nodeOf) - {key}
  {
  }

  lemma LocatedAdd<K, V>(lists: seq<seq<int>>, lists': seq<seq<int>>, pairs: seq<(K, V)>, nodeOf: map<K, int>, key: K, value: V)
    requires Located(lists, pairs, nodeOf) && key !in nodeOf
    requires forall x :: InSome(lists', x) <==> InSome(lists, x) || x == |pairs|
    ensures Located(lists', pairs + [(key, value)], nodeOf[key := |pairs|]) && |nodeOf[key := |pairs|]| == |nodeOf| + 1
  {
    var pairs' := pairs + [(key, value)];
    assert forall t :: 0 <= t < |pairs| ==> pairs'[t] == pairs[t];
    assert pairs'[|pairs|] == (key, value);
  }

  lemma LocatedDrop<K, V>(lists: seq<seq<int>>, lists': seq<seq<int>>, pairs: seq<(K, V)>, nodeOf: map<K, int>, key: K)
    requires Located(lists, pairs, nodeOf) && key in nodeOf
    requires forall x :: InSome(lists', x) <==> InSome(lists, x) && x != nodeOf[key]
    ensures Located(lists', pairs, nodeOf - {key}) && |nodeOf - {key}| == |nodeOf| - 1
  {
    assert nodeOf == (nodeOf - {key})[key := nodeOf[key]];
  }

  function Added<K, V>(v: View<K, V>, b: nat, key: K, value: V): View<K, V>
    requires b < |v.chains.heads| && b < |v.chains.lists| && |v.chains.next| == |v.chains.owner| == |v.pairs|
  {
    var s := |v.pairs|;
    View(v.size + 1, v.pairs + [(key, value)], Pushed(Allocated(v.chains), b, s), v.nodeOf[key := s])
  }

  lemma Adding<K, V>(v: View<K, V>, hash: K -> nat, key: K, value: V)
    requires Good(v, hash) && key !in v.nodeOf
    ensures var b := HomeIn(hash, |v.chains.heads|)(key);
            && b < |v.chains.heads| && b < |v.chains.lists|
            && Good(Added(v, b, key, value), hash) && MapOf(Added(v, b, key, value), hash) == MapOf(v, hash)[key := value]
  {
    var b := HomeIn(hash, |v.chains.heads|)(key);
    AllocateChained(v.chains);
    PushChained(Allocated(v.chains), b, |v.pairs|);
    LocatedAdd(v.chains.lists, Added(v, b, key, value).chains.lists, v.pairs, v.nodeOf, key, value);
    HomeAdd(v.chains.lists, v.pairs, HomeIn(hash, |v.chains.heads|), key, value);
    ContentsAdd(v.pairs, v.nodeOf, key, value);
  }

  function Dropped<K, V>(v: View<K, V>, b: nat, p: nat, key: K): View<K, V>
    requires b < |v.chains.heads| && b < |v.chains.lists| && p < |v.chains.lists[b]|
    requires forall i :: 0 <= i < |v.chains.lists[b]| ==> 0 <= v.chains.lists[b][i] < |v.chains.next|
  {
    View(if v.size > 0 then v.size - 1 else 0, v.pairs, Unchained(v.chains, b, p), v.nodeOf - {key})
  }

  lemma Dropping<K, V>(v: View<K, V>, hash: K -> nat, key: K, b: nat, p: nat)
    requires Good(v, hash) && key in v.nodeOf
    requires b < |v.chains.lists| && p < |v.chains.lists[b]| && v.chains.lists[b][p] == v.nodeOf[key]
    ensures Linked(v.chains.next, v.chains.heads[b], v.chains.lists[b])
    ensures v.size > 0
    ensures Good(Dropped(v, b, p, key), hash) && MapOf(Dropped(v, b, p, key), hash) == MapOf(v, hash) - {key}
  {
    RemoveChained(v.chains, b, p);
    LinkedDistinct(v.chains.next, v.chains.heads[b], v.chains.lists[b]);
    HomeDrop(v.chains.lists, v.pairs, HomeIn(hash, |v.chains.heads|), b, p);
    LocatedDrop(v.chains.lists, Dropped(v, b, p, key).chains.lists, v.pairs, v.nodeOf, key);
    ContentsDrop(v.pairs, v.nodeOf, key);
  }

  function Emptied<K, V>(v: View<K, V>): View<K, V> {
    var n := |v.chains.heads|;
    View(0, v.pairs, Chains(v.chains.next, seq(n, _ => NIL), seq(n, _ => []), v.chains.owner), map[])
  }

  lemma Emptying<K, V>(v: View<K, V>, hash: K -> nat)
    requires Good(v, hash)
    ensures Good(Emptied(v), hash) && MapOf(Emptied(v), hash) == map[]
  {
  }

  // ---- Rehashing ----

  // The first n lists are what remains of the old chains; the others are the
  // chains of the new table, in which each node is at home.
  ghost predicate Rehashing<K, V>(t: Chains, pairs: seq<(K, V)>, home: K -> nat, nodeOf: map<K, int>, n: nat) {
    && n < |t.lists| && Chained(t) && Located(t.lists, pairs, nodeOf) && AtHome(t.lists[n..], pairs, home)
  }

  lemma RehashBegins<K, V>(t: Chains, pairs: seq<(K, V)>, home: K -> nat, nodeOf: map<K, int>, m: nat)
    requires Chained(t) && Located(t.lists, pairs, nodeOf) && 0 < m
    ensures Rehashing(t.(heads := t.heads + seq(m, _ => NIL), lists := t.lists + seq(m, _ => [])), pairs, home, nodeOf, |t.heads|)
  {
    var lists := t.lists + seq(m, _ => []);
    assert forall b, s :: 0 <= b < |lists| && s in lists[b] ==> b < |t.lists| && lists[b] == t.lists[b];
    assert forall b :: 0 <= b < |t.lists| ==> lists[b] == t.lists[b];
    assert forall s :: InSome(lists, s) <==> InSome(t.lists, s);
    assert lists[|t.heads|..] == seq(m, _ => []);
  }

  // One node moves from the old chain i to its new chain.
  function Moved(t: Chains, i: nat, c: nat): Chains
    requires i < |t.lists| == |t.heads| && c < |t.lists| && t.lists[i] != [] && 0 <= t.lists[i][0] < |t.next| == |t.owner|
  {
    var s := t.lists[i][0];
    Chains(t.next[s := t.heads[c]], t.heads[i := t.next[s]][c := s], t.lists[i := t.lists[i][1..]][c := [s] + t.lists[c]], t.owner[s := c])
  }

  // The other old chains are untouched.
  ghost predicate Beside(t0: Chains, t: Chains, i: nat, n: nat) {
    && n <= |t0.lists| && n <= |t.lists| && n <= |t0.heads| && n <= |t.heads|
    && forall b :: 0 <= b < n && b != i ==> t.lists[b] == t0.lists[b] && t.heads[b] == t0.heads[b]
  }

  lemma MovedBeside(t: Chains, i: nat, c: nat, n: nat)
    requires i < n <= c < |t.lists| == |t.heads| && t.lists[i] != [] && 0 <= t.lists[i][0] < |t.next| == |t.owner|
    ensures Beside(t, Moved(t, i, c), i, n) && |Moved(t, i, c).lists[i]| == |t.lists[i]| - 1
    ensures Moved(t, i, c).heads[i] == t.next[t.lists[i][0]]
  {
  }

  lemma MoveChained(t: Chains, i: nat, c: nat)
    requires Chained(t) && i < |t.lists| && c < |t.lists| && i != c && t.heads[i] != NIL
    ensures t.lists[i] != [] && t.lists[i][0] == t.heads[i] && 0 <= t.heads[i] < |t.next|
    ensures Chained(Moved(t, i, c)) && forall x :: InSome(Moved(t, i, c).lists, x) <==> InSome(t.lists, x)
  {
    assert Linked(t.next, t.heads[i], t.lists[i]);
    var s, xs := t.heads[i], t.lists[i];
    RemoveChained(t, i, 0);
    var cut := Unchained(t, i, 0);
    assert RemoveAt(xs, 0) == xs[1..];
    PushChained(cut, c, s);
    assert Pushed(cut, c, s) == Moved(t, i, c);
    assert s in xs;
  }

  lemma RehashStep<K, V>(t: Chains, pairs: seq<(K, V)>, home: K -> nat, nodeOf: map<K, int>, n: nat, i: nat)
    requires Rehashing(t, pairs, home, nodeOf, n) && i < n && t.heads[i] != NIL
    requires forall k :: home(k) < |t.lists| - n
    ensures t.lists[i] != [] && t.lists[i][0] == t.heads[i] && 0 <= t.heads[i] < |t.next| && t.heads[i] < |pairs|
    ensures var c := home(pairs[t.heads[i]].0);
            && Rehashing(Moved(t, i, n + c), pairs, home, nodeOf, n)
            && t.heads[n + c] == t.heads[n..][c] && Moved(t, i, n + c).heads[n..] == t.heads[n..][c := t.heads[i]]
  {
    assert Linked(t.next, t.heads[i], t.lists[i]);
    var s := t.heads[i];
    assert s in t.lists[i] && InSome(t.lists, s);
    var b := home(pairs[s].0);
    MoveChained(t, i, n + b);
    MoveHome(t.lists[n..], pairs, home, s);
    assert Moved(t, i, n + b).lists[n..] == t.lists[n..][b := [s] + t.lists[n..][b]];
  }

  // A rehash in progress: t holds what remains of n old chains, and then the
  // chains of the new table.
  ghost predicate Draining<K, V>(t: Chains, table: seq<int>, n: nat, pairs: seq<(K, V)>, hash: K -> nat, nodeOf: map<K, int>) {
    && table != [] && |t.heads| == n + |table| && t.heads[n..] == table
    && Rehashing(t, pairs, HomeIn(hash, |table|), nodeOf, n)
  }

  lemma DrainStep<K, V>(t: Chains, table: seq<int>, n: nat, i: nat, pairs: seq<(K, V)>, hash: K -> nat, nodeOf: map<K, int>)
    requires Draining(t, table, n, pairs, hash, nodeOf) && i < n && t.heads[i] != NIL
    ensures var s := t.heads[i];
            && 0 <= s < |t.next| && s < |pairs| && t.lists[i] != [] && t.lists[i][0] == s && |t.lists| == |t.heads| && |t.owner| == |t.next|
            && var index := hash(pairs[s].0) % |table|;
               var t' := Moved(t, i, n + index);
               && Draining(t', table[index := s], n, pairs, hash, nodeOf) && Beside(t, t', i, n)
               && t'.next == t.next[s := table[index]] && t'.heads[i] == t.next[s] && |t'.lists[i]| < |t.lists[i]|
  {
    RehashStep(t, pairs, HomeIn(hash, |table|), nodeOf, n, i);
    MovedBeside(t, i, n + hash(pairs[t.heads[i]].0) % |table|, n);
  }

  lemma MoveHome<K, V>(lists: seq<seq<int>>, pairs: seq<(K, V)>, home: K -> nat, s: int)
    requires AtHome(lists, pairs, home) && 0 <= s < |pairs| && home(pairs[s].0) < |lists|
    ensures var b := home(pairs[s].0);
            AtHome(lists[b := [s] + lists[b]], pairs, home)
  {
  }

  lemma EmptyChain(t: Chains, b: nat)
    requires Chained(t) && b < |t.lists|
    ensures t.heads[b] == NIL <==> t.lists[b] == []
  {
    assert Linked(t.next, t.heads[b], t.lists[b]);
  }

  // The new chains alone.
  function Kept(t: Chains, n: nat): Chains
    requires n <= |t.heads| && n <= |t.lists|
  {
    Chains(t.next, t.heads[n..], t.lists[n..], seq(|t.owner|, i requires 0 <= i < |t.owner| => t.owner[i] - n))
  }

  lemma RehashEnds<K, V>(t: Chains, pairs: seq<(K, V)>, home: K -> nat, nodeOf: map<K, int>, n: nat)
    requires Rehashing(t, pairs, home, nodeOf, n) && forall b :: 0 <= b < n ==> t.lists[b] == []
    ensures Chained(Kept(t, n))
    ensures AtHome(t.lists[n..], pairs, home) && Located(t.lists[n..], pairs, nodeOf)
  {
    var lists := t.lists[n..];
    assert forall b :: 0 <= b < |lists| ==> lists[b] == t.lists[n + b] && t.heads[n..][b] == t.heads[n + b];
    forall b, s | 0 <= b < |t.lists| && s in t.lists[b]
      ensures InSome(lists, s)
    {
      assert s in lists[b - n];
    }
    assert forall s :: InSome(lists, s) ==> InSome(t.lists, s);
    assert forall s :: InSome(t.lists, s) ==> InSome(lists, s);
  }

  lemma Regrown<K, V>(v: View<K, V>, hash: K -> nat, t: Chains, table: seq<int>)
    requires Good(v, hash) && |t.next| == |v.pairs|
    requires Draining(t, table, |v.chains.heads|, v.pairs, hash, v.nodeOf) && forall b :: 0 <= b < |v.chains.heads| ==> t.lists[b] == []
    ensures var v' := v.(chains := Kept(t, |v.chains.heads|));
            Good(v', hash) && MapOf(v', hash) == MapOf(v, hash) && v'.chains.heads == table
  {
    RehashEnds(t, v.pairs, HomeIn(hash, |table|), v.nodeOf, |v.chains.heads|);
  }

  // Which step of a put fails and what is in the map afterwards. Only a growable
  // map takes a larger table: when one more entry would not leave its load below
  // 3/4, where growing keeps it.
  ghost predicate PutOutcome<K, V>(m: map<K, V>, size: nat, n: nat, growable: bool, key: K, value: V,
      grownBy: Status, granted: Status, replaced: bool, st: Status, m': map<K, V>, size': nat, n': nat)
  {
    var full := growable && 4 * (size + 1) >= 3 * n;
    && st == (if full && n > SIZE_MAX / 2 then Full
              else if full && grownBy != Ok then grownBy
              else if key in m then Ok
              else granted)
    && n' == (if full && n <= SIZE_MAX / 2 && grownBy == Ok then 2 * n else n)
    && m' == (if st == Ok && (key in m ==> replaced) then m[key := value] else m)
    && size' == size + (if st == Ok && key !in m then 1 else 0)
    && (growable && st == Ok && 4 * size < 3 * n ==> 4 * size' < 3 * n')
  }

  ghost predicate ChainPutOutcome<K, V>(m: map<K, V>, size: nat, key: K, value: V, granted: Status, replaced: bool, st: Status, m': map<K, V>, size': nat) {
    && st == (if key in m then Ok else granted)
    && m' == (if st == Ok && (key in m ==> replaced) then m[key := value] else m)
    && size' == size + if st == Ok && key !in m then 1 else 0
  }

  lemma PutGrows<K, V>(m: map<K, V>, size: nat, n: nat, growable: bool, key: K, value: V,
      grownBy: Status, granted: Status, replaced: bool, st: Status, m': map<K, V>, size': nat, n': nat)
    requires n' == (if ShouldGrow(growable, size, n) then 2 * n else n) && n > 0
    requires ShouldGrow(growable, size, n) ==> n <= SIZE_MAX / 2 && grownBy == Ok
    requires ChainPutOutcome(m, size, key, value, granted, replaced, st, m', size')
    ensures PutOutcome(m, size, n, growable, key, value, grownBy, granted, replaced, st, m', size', n')
  {
    if LoadOk(size, n) {
      LoadKept(size, n, if key in m then 0 else 1);
    }
  }

  // All lists, one after the other.
  function Flat(lists: seq<seq<int>>): seq<int> {
    if lists == [] then [] else Flat(lists[..|lists| - 1]) + lists[|lists| - 1]
  }

  lemma {:induction false} FlatMembers(lists: seq<seq<int>>, x: int)
    ensures x in Flat(lists) <==> exists b :: 0 <= b < |lists| && x in lists[b]
  {
    if lists != [] {
      var n := |lists| - 1;
      FlatMembers(lists[..n], x);
      assert forall b :: 0 <= b < n ==> lists[..n][b] == lists[b];
    }
  }

  lemma {:induction false} FlatDistinct(lists: seq<seq<int>>)
    requires forall b :: 0 <= b < |lists| ==> Distinct(lists[b])
    requires forall b, c, x :: 0 <= b < c < |lists| && x in lists[b] ==> x !in lists[c]
    ensures Distinct(Flat(lists))
  {
    if lists != [] {
      var n := |lists| - 1;
      FlatDistinct(lists[..n]);
      forall x | x in Flat(lists[..n])
        ensures x !in lists[n]
      {
        FlatMembers(lists[..n], x);
      }
      DistinctJoin(Flat(lists[..n]), lists[n]);
    }
  }

  // The chains hold every node of theirs once.
  lemma ChainsFlat(t: Chains)
    requires Chained(t)
    ensures Distinct(Flat(t.lists))
    ensures forall x :: x in Flat(t.lists) <==> exists b :: 0 <= b < |t.lists| && x in t.lists[b]
  {
    forall b | 0 <= b < |t.lists|
      ensures Distinct(t.lists[b])
    {
      assert Linked(t.next, t.heads[b], t.lists[b]);
      LinkedDistinct(t.next, t.heads[b], t.lists[b]);
    }
    FlatDistinct(t.lists);
    forall x
      ensures x in Flat(t.lists) <==> exists b :: 0 <= b < |t.lists| && x in t.lists[b]
    {
      FlatMembers(t.lists, x);
    }
  }

  predicate Accepted<K, V>(entries: seq<(K, V)>, visit: (K, V) -> Status) {
    forall i :: 0 <= i < |entries| ==> visit(entries[i].0, entries[i].1) == Ok
  }

  // ---- The map ----

  class ChainedHashMap<K(==), V> {
    const hash: K -> nat
    const growable: bool
    var buckets: seq<int>
    var size: nat
    // The allocated nodes.
    var next: seq<int>
    var pairs: seq<(K, V)>

    ghost var lists: seq<seq<int>>
    ghost var owner: seq<int>
    ghost var nodeOf: map<K, int>

    ghost function Now(): View<K, V>
      reads this
    {
      View(size, pairs, Chains(next, buckets, lists, owner), nodeOf)
    }

    ghost predicate Valid()
      reads this
    {
      Good(Now(), hash)
    }

    // There may be no table.
    ghost predicate Usable()
      reads this
    {
      buckets == [] || Valid()
    }

    ghost function Map(): map<K, V>
      requires Valid()
      reads this
    {
      MapOf(Now(), hash)
    }

    constructor (bucketCount: nat, hash: K -> nat, growable: bool)
      requires 0 < bucketCount
      ensures Valid() && Map() == map[] && |buckets| == bucketCount
      ensures this.hash == hash && this.growable == growable
    {
      this.hash, this.growable, size := hash, growable, 0;
      buckets := seq(bucketCount, _ => NIL);
      next, pairs := [], [];
      lists, owner := seq(bucketCount, _ => []), [];
      nodeOf := map[];
    }

    // The first node of a chain with the key, and the node before it.
    method WalkChain(head: int, key: K, ghost chain: seq<int>) returns (node: int, prev: int, ghost p: nat)
      requires Linked(next, head, chain) && |next| == |pairs|
      ensures p <= |chain| && node == At(chain, p) && prev == At(chain, p - 1)
      ensures node == NIL ==> forall s :: s in chain ==> 0 <= s < |pairs| && pairs[s].0 != key
      ensures node != NIL ==> p < |chain| && 0 <= node < |pairs| && pairs[node].0 == key
    {
      prev, node, p := NIL, head, 0;
      while node != NIL
        invariant p <= |chain| && node == At(chain, p) && prev == At(chain, p - 1)
        invariant forall j :: 0 <= j < p ==> pairs[chain[j]].0 != key
        decreases |chain| - p
      {
        if pairs[node].0 == key {
          return;
        }
        assert next[chain[p]] == At(chain, p + 1);
        prev := node;
        node := next[node];
        p := p + 1;
      }
    }

    method ChainFind(key: K) returns (bucketIndex: nat, node: int, prev: int, ghost p: nat)
      requires Valid()
      ensures bucketIndex < |buckets| && bucketIndex == HomeIn(hash, |buckets|)(key) == hash(key) % |buckets|
      ensures node == NIL <==> key !in nodeOf
      ensures node != NIL ==> p < |lists[bucketIndex]| && node == lists[bucketIndex][p] == nodeOf[key] && prev == At(lists[bucketIndex], p - 1)
    {
      bucketIndex := hash(key) % |buckets|;
      node, prev, p := WalkChain(buckets[bucketIndex], key, lists[bucketIndex]);
      InHomeChain(lists, pairs, HomeIn(hash, |buckets|), nodeOf, key);
      if node != NIL {
        assert node in lists[bucketIndex] && InSome(lists, node);
      }
    }

    // Nothing reports that the value found could not be copied to the caller.
    method ChainGet(key: K, copied: bool) returns (st: Status, value: Option<V>)
      requires Valid()
      ensures st == if key in Map() then Ok else NotFound
      ensures value == if key in Map() && copied then Some(Map()[key]) else None
    {
      var _, node, _, _ := ChainFind(key);
      if node == NIL {
        return NotFound, None;
      }
      return Ok, if copied then Some(pairs[node].1) else None;
    }

    method ChainContains(key: K) returns (present: bool)
      requires Valid()
      ensures present == (key in Map())
    {
      var _, node, _, _ := ChainFind(key);
      return node != NIL;
    }

    // An existing node takes the value, and nothing reports it when that copy
    // fails; a new one needs memory and copies, of which `granted` is the outcome.
    method ChainPut(key: K, value: V, granted: Status, replaced: bool) returns (st: Status)
      requires Valid()
      modifies this
      ensures Valid() && |buckets| == |old(buckets)|
      ensures ChainPutOutcome(old(Map()), old(size), key, value, granted, replaced, st, Map(), size)
    {
      var bucketIndex, node, _, _ := ChainFind(key);
      if node != NIL {
        if replaced {
          Assign(node, key, value);
        }
        return Ok;
      }
      if granted != Ok {
        return granted;
      }
      AddNew(bucketIndex, key, value);
      return Ok;
    }

    method AddNew(bucketIndex: nat, key: K, value: V)
      requires Valid() && key !in Map() && bucketIndex == HomeIn(hash, |buckets|)(key)
      modifies this
      ensures Valid() && |buckets| == |old(buckets)|
      ensures Map() == old(Map())[key := value] && size == old(size) + 1
    {
      Adding(Now(), hash, key, value);
      Add(bucketIndex, key, value);
    }

    method Assign(node: int, ghost key: K, value: V)
      requires Valid() && key in nodeOf && node == nodeOf[key]
      modifies `pairs
      ensures Valid() && Map() == old(Map())[key := value]
    {
      Assigning(Now(), hash, key, value);
      pairs := pairs[node := (pairs[node].0, value)];
    }

    method Add(bucketIndex: nat, key: K, value: V)
      requires bucketIndex < |buckets| && bucketIndex < |lists| && |next| == |owner| == |pairs|
      modifies this
      ensures Now() == Added(old(Now()), bucketIndex, key, value)
    {
      var node := |next|;
      next, pairs := next + [NIL], pairs + [(key, value)];
      next := next[node := buckets[bucketIndex]];
      buckets := buckets[bucketIndex := node];
      size := size + 1;
      lists, owner := lists[bucketIndex := [node] + lists[bucketIndex]], (owner + [NIL])[node := bucketIndex];
      nodeOf := nodeOf[key := node];
    }

    method ChainRemove(key: K) returns (st: Status)
      requires Valid()
      modifies this
      ensures Valid() && |buckets| == |old(buckets)|
      ensures st == if key in old(Map()) then Ok else NotFound
      ensures Map() == old(Map()) - {key}
    {
      var bucketIndex, node, prev, p := ChainFind(key);
      if node == NIL {
        return NotFound;
      }
      Dropping(Now(), hash, key, bucketIndex, p);
      Unchain(bucketIndex, node, prev, key, p);
      return Ok;
    }

    method Unchain(bucketIndex: nat, node: int, prev: int, ghost key: K, ghost p: nat)
      requires bucketIndex < |buckets| && bucketIndex < |lists| && size > 0 && Linked(next, buckets[bucketIndex], lists[bucketIndex])
      requires p < |lists[bucketIndex]| && node == lists[bucketIndex][p] && prev == At(lists[bucketIndex], p - 1)
      modifies `next, `buckets, `size, `lists, `nodeOf
      ensures Now() == Dropped(old(Now()), bucketIndex, p, key)
    {
      SkipNode(bucketIndex, node, prev, lists[bucketIndex], p);
      size := size - 1;
      lists, nodeOf := lists[bucketIndex := RemoveAt(lists[bucketIndex], p)], nodeOf - {key};
    }

    method SkipNode(bucketIndex: nat, node: int, prev: int, ghost chain: seq<int>, ghost p: nat)
      requires bucketIndex < |buckets| && Linked(next, buckets[bucketIndex], chain)
      requires p < |chain| && node == chain[p] && prev == At(chain, p - 1)
      modifies `next, `buckets
      ensures next == LinkOut(old(next), chain, p)
      ensures buckets == if p == 0 then old(buckets)[bucketIndex := old(next)[chain[0]]] else old(buckets)
    {
      if prev == NIL {
        buckets := buckets[bucketIndex := next[node]];
      } else {
        next := next[prev := next[node]];
      }
    }

    // Every node moves to its chain in the larger table; granted is the
    // outcome of allocating that table.
    method ChainRehash(newBucketCount: nat, granted: Status) returns (st: Status)
      requires Valid() && 0 < newBucketCount
      modifies this
      ensures Valid() && Map() == old(Map()) && size == old(size) && pairs == old(pairs)
      ensures st == granted && |buckets| == if st == Ok then newBucketCount else |old(buckets)|
    {
      if granted != Ok {
        return granted;
      }
      ghost var after;
      var newBuckets;
      newBuckets, after := BuildTable(newBucketCount);
      Install(newBuckets, after);
      return Ok;
    }

    method Install(newBuckets: seq<int>, ghost after: View<K, V>)
      requires after.chains.next == next && after.chains.heads == newBuckets
      requires after.size == size && after.pairs == pairs && after.nodeOf == nodeOf
      modifies `buckets, `lists, `owner
      ensures Now() == after
    {
      buckets := newBuckets;
      lists, owner := after.chains.lists, after.chains.owner;
    }

    method BuildTable(newBucketCount: nat) returns (newBuckets: seq<int>, ghost after: View<K, V>)
      requires Valid() && 0 < newBucketCount
      modifies `next
      ensures Good(after, hash) && MapOf(after, hash) == old(Map())
      ensures after.size == size && after.pairs == pairs && after.nodeOf == nodeOf
      ensures after.chains.next == next && after.chains.heads == newBuckets && |newBuckets| == newBucketCount
    {
      ghost var v, t := Now(), Chains([], [], [], []);
      newBuckets, t := DrainAll(newBucketCount);
      Regrown(v, hash, t, newBuckets);
      after := v.(chains := Kept(t, |v.chains.heads|));
    }

    method DrainAll(newBucketCount: nat) returns (newBuckets: seq<int>, ghost t: Chains)
      requires Valid() && 0 < newBucketCount
      modifies `next
      ensures Draining(t, newBuckets, |buckets|, pairs, hash, nodeOf) && t.next == next && |newBuckets| == newBucketCount && |next| == |old(next)|
      ensures forall b :: 0 <= b < |buckets| ==> t.lists[b] == []
    {
      var n := |buckets|;
      newBuckets := seq(newBucketCount, _ => NIL);
      // the remaining old chains, and then the new ones
      t := Chains(next, buckets + newBuckets, lists + seq(newBucketCount, _ => []), owner);
      RehashBegins(Chains(next, buckets, lists, owner), pairs, HomeIn(hash, newBucketCount), nodeOf, newBucketCount);
      for i := 0 to n
        invariant Draining(t, newBuckets, n, pairs, hash, nodeOf) && t.next == next && |newBuckets| == newBucketCount && |next| == |old(next)|
        invariant forall b :: i <= b < n ==> t.heads[b] == buckets[b]
        invariant forall b :: 0 <= b < i ==> t.lists[b] == []
      {
        newBuckets, t := DrainBucket(buckets[i], newBuckets, t, i, n);
      }
    }

    // The nodes of one old chain move to the new table.
    method DrainBucket(head: int, table: seq<int>, ghost t0: Chains, ghost i: nat, ghost n: nat) returns (newBuckets: seq<int>, ghost t: Chains)
      requires Draining(t0, table, n, pairs, hash, nodeOf) && t0.next == next && i < n && head == t0.heads[i]
      modifies `next
      ensures Draining(t, newBuckets, n, pairs, hash, nodeOf) && t.next == next && |newBuckets| == |table| && |next| == |old(next)|
      ensures Beside(t0, t, i, n) && t.lists[i] == []
    {
      var node := head;
      newBuckets, t := table, t0;
      while node != NIL
        invariant Draining(t, newBuckets, n, pairs, hash, nodeOf) && t.next == next && |newBuckets| == |table| && |next| == |old(next)|
        invariant Beside(t0, t, i, n) && node == t.heads[i]
        decreases |t.lists[i]|
      {
        node, newBuckets, t := MoveNode(node, newBuckets, t, i, n);
      }
      EmptyChain(t, i);
    }

    method MoveNode(node: int, table: seq<int>, ghost t: Chains, ghost i: nat, ghost n: nat) returns (nextNode: int, newBuckets: seq<int>, ghost t': Chains)
      requires Draining(t, table, n, pairs, hash, nodeOf) && t.next == next && i < n && node == t.heads[i] != NIL
      modifies `next
      ensures Draining(t', newBuckets, n, pairs, hash, nodeOf) && t'.next == next && |newBuckets| == |table| && |next| == |old(next)|
      ensures Beside(t, t', i, n) && nextNode == t'.heads[i] && |t'.lists[i]| < |t.lists[i]|
    {
      DrainStep(t, table, n, i, pairs, hash, nodeOf);
      nextNode := next[node];
      var index := hash(pairs[node].0) % |table|;
      next := next[node := table[index]];
      newBuckets := table[index := node];
      t' := Moved(t, i, n + index);
    }

    // put; grownBy and granted are what the allocator answers for a larger
    // table and for a node, and replaced is whether a value is replaced.
    method PutEntry(key: K, value: V, grownBy: Status, granted: Status, replaced: bool) returns (st: Status)
      requires Usable()
      modifies this
      ensures Usable()
      ensures old(buckets) == [] ==> st == NullPtr && Now() == old(Now())
      ensures old(buckets) != [] ==>
                && Valid()
                && PutOutcome(
                old(Map()), old(size), |old(buckets)|, growable, key, value, grownBy, granted, replaced, st, Map(), size, |buckets|)
    {
      if buckets == [] {
        return NullPtr;
      }
      st := PutGrowing(key, value, grownBy, granted, replaced);
    }

    method PutGrowing(key: K, value: V, grownBy: Status, granted: Status, replaced: bool) returns (st: Status)
      requires Valid()
      modifies this
      ensures Valid() && PutOutcome(
                old(Map()), old(size), |old(buckets)|, growable, key, value, grownBy, granted, replaced, st, Map(), size, |buckets|)
    {
      ghost var m, k, n := Map(), size, |buckets|;
      if ShouldGrow(growable, size, |buckets|) {
        st := MaybeGrow(grownBy);
        if st != Ok {
          return;
        }
      }
      st := ChainPut(key, value, granted, replaced);
      PutGrows(m, k, n, growable, key, value, grownBy, granted, replaced, st, Map(), size, |buckets|);
    }

    method MaybeGrow(grownBy: Status) returns (st: Status)
      requires Valid()
      modifies this
      ensures Valid() && Map() == old(Map()) && size == old(size)
      ensures st == if |old(buckets)| > SIZE_MAX / 2 then Full else grownBy
      ensures |buckets| == if st == Ok then 2 * |old(buckets)| else |old(buckets)|
    {
      var newCount := Grow(|buckets|);
      if newCount == |buckets| {
        return Full;
      }
      st := ChainRehash(newCount, grownBy);
    }

    // get, contains and remove do not ask whether there is a table: without one
    // they divide by its size, which is zero.
    method GetEntry(key: K, copied: bool) returns (divides: bool, st: Status, value: Option<V>)
      requires Usable()
      ensures divides <==> buckets != []
      ensures divides ==> st == (if key in Map() then Ok else NotFound)
      ensures divides ==> value == if key in Map() && copied then Some(Map()[key]) else None
    {
      if buckets == [] {
        return false, NullPtr, None;
      }
      divides := true;
      st, value := ChainGet(key, copied);
    }

    method ContainsEntry(key: K) returns (divides: bool, present: bool)
      requires Usable()
      ensures divides <==> buckets != []
      ensures divides ==> present == (key in Map())
    {
      if buckets == [] {
        return false, false;
      }
      divides := true;
      present := ChainContains(key);
    }

    method RemoveEntry(key: K) returns (divides: bool, st: Status)
      requires Usable()
      modifies this
      ensures Usable() && (divides <==> old(buckets) != [])
      ensures !divides ==> Now() == old(Now())
      ensures divides ==> buckets != [] && st == (if key in old(Map()) then Ok else NotFound) && Map() == old(Map()) - {key}
    {
      if buckets == [] {
        return false, NullPtr;
      }
      divides := true;
      st := ChainRemove(key);
    }

    // Afterwards there is no table, though the size is as it was.
    method ReleaseStorage()
      modifies `buckets
      ensures Usable() && buckets == []
    {
      buckets := [];
    }

    method ChainClear()
      requires Valid()
      modifies this
      ensures Valid() && Map() == map[] && |buckets| == |old(buckets)| && size == 0
    {
      ghost var _ := ReleaseAll();
      Emptying(Now(), hash);
      buckets, size := seq(|buckets|, _ => NIL), 0;
      lists, nodeOf := seq(|buckets|, _ => []), map[];
      assert Now() == Emptied(old(Now()));
    }

    // Every node in a chain goes back to the allocator, once.
    method ReleaseAll() returns (ghost released: seq<int>)
      requires Chained(Chains(next, buckets, lists, owner))
      ensures Distinct(released) && forall x :: x in released <==> exists b :: 0 <= b < |lists| && x in lists[b]
    {
      ChainsFlat(Chains(next, buckets, lists, owner));
      released := [];
      for i := 0 to |buckets|
        invariant released == Flat(lists[..i])
      {
        assert Linked(next, buckets[i], lists[i]);
        assert lists[..i + 1][..i] == lists[..i];
        ghost var part := ReleaseChain(buckets[i], lists[i]);
        released := released + part;
      }
      assert lists[..|buckets|] == lists;
    }

    // Walk a chain and return its nodes to the allocator, the link of each
    // read before the node goes.
    method ReleaseChain(head: int, ghost chain: seq<int>) returns (ghost released: seq<int>)
      requires Linked(next, head, chain)
      ensures released == chain
    {
      var node := head;
      released := [];
      while node != NIL
        invariant released <= chain && node == At(chain, |released|)
        decreases |chain| - |released|
      {
        assert next[chain[|released|]] == At(chain, |released| + 1);
        var follower := next[node];
        released := released + [node];
        node := follower;
      }
    }

    // The visitor sees every entry once, until it objects.
    method Foreach(visit: (K, V) -> Status) returns (st: Status, visited: seq<(K, V)>)
      requires Valid()
      ensures forall e :: e in visited ==> e.0 in Map() && Map()[e.0] == e.1
      ensures forall i, j :: 0 <= i < j < |visited| ==> visited[i].0 != visited[j].0
      ensures st == Ok ==> forall k :: k in Map() ==> (k, Map()[k]) in visited
      ensures st != Ok ==> visited != [] && visit(visited[|visited| - 1].0, visited[|visited| - 1].1) == st
      ensures Accepted(visited[..|visited| - if st == Ok then 0 else 1], visit)
    {
      visited := [];
      ghost var nodes := [];
      for i := 0 to |buckets|
        invariant Seen(nodes, visited, i, []) && Accepted(visited, visit)
      {
        ghost var part;
        st, visited, nodes, part := VisitChain(buckets[i], visit, visited, nodes, i);
        if st != Ok {
          SeenEntries(nodes, visited, i, part);
          return;
        }
      }
      st := Ok;
      assert visited[..|visited|] == visited;
      SeenEntries(nodes, visited, |buckets|, []);
    }

    method VisitChain(head: int, visit: (K, V) -> Status, before: seq<(K, V)>, ghost nodes0: seq<int>, ghost i: nat)
      returns (st: Status, visited: seq<(K, V)>, ghost nodes: seq<int>, ghost part: seq<int>)
      requires Valid() && i < |buckets| && head == buckets[i] && Seen(nodes0, before, i, []) && Accepted(before, visit)
      ensures st == Ok ==> Seen(nodes, visited, i + 1, []) && Accepted(visited, visit)
      ensures st != Ok ==> Seen(nodes, visited, i, part) && forall s :: s in part ==> InSome(lists, s)
      ensures st != Ok ==> visited != [] && visit(visited[|visited| - 1].0, visited[|visited| - 1].1) == st
      ensures st != Ok ==> Accepted(visited[..|visited| - 1], visit)
    {
      var node := head;
      visited, nodes, part := before, nodes0, [];
      ghost var chain, p := lists[i], 0;
      assert Linked(next, buckets[i], chain);
      assert chain[..0] == [];
      while node != NIL
        invariant p <= |chain| && node == At(chain, p)
        invariant Seen(nodes, visited, i, chain[..p]) && Accepted(visited, visit)
        decreases |chain| - p
      {
        assert next[chain[p]] == At(chain, p + 1);
        SeeNext(nodes, visited, i, p);
        nodes, visited := nodes + [node], visited + [pairs[node]];
        p := p + 1;
        st := visit(pairs[node].0, pairs[node].1);
        if st != Ok {
          part := chain[..p];
          assert forall s :: s in part ==> s in lists[i];
          return;
        }
        node := next[node];
      }
      assert chain[..p] == chain;
      SeenChain(nodes, visited, i);
      st := Ok;
    }

    lemma SeenChain(nodes: seq<int>, visited: seq<(K, V)>, i: nat)
      requires i < |lists| && Seen(nodes, visited, i, lists[i])
      ensures Seen(nodes, visited, i + 1, [])
    {
      assert forall b :: 0 <= b < i ==> lists[..i + 1][b] == lists[..i][b];
      assert lists[..i + 1][i] == lists[i];
      assert forall s :: s in lists[i] ==> InSome(lists[..i + 1], s);
      forall s | InSome(lists[..i], s)
        ensures InSome(lists[..i + 1], s)
      {
        var b :| 0 <= b < i && s in lists[..i][b];
        assert s in lists[..i + 1][b];
      }
    }

    // The nodes visited: those of the first i chains, and some of the next.
    ghost predicate Seen(nodes: seq<int>, visited: seq<(K, V)>, i: nat, part: seq<int>)
      requires i <= |lists|
      reads `lists, `pairs
    {
      && |nodes| == |visited| && Distinct(nodes)
      && (forall j :: 0 <= j < |nodes| ==> 0 <= nodes[j] < |pairs| && visited[j] == pairs[nodes[j]])
      && (forall s :: s in nodes <==> InSome(lists[..i], s) || s in part)
    }

    lemma SeeNext(nodes: seq<int>, visited: seq<(K, V)>, i: nat, p: nat)
      requires Valid() && i < |lists| && p < |lists[i]| && Seen(nodes, visited, i, lists[i][..p])
      ensures 0 <= lists[i][p] < |pairs|
      ensures Seen(nodes + [lists[i][p]], visited + [pairs[lists[i][p]]], i, lists[i][..p + 1])
    {
      var chain, s := lists[i], lists[i][p];
      LinkedDistinct(next, buckets[i], chain);
      assert s in chain && InSome(lists, s);
      assert chain[..p + 1] == chain[..p] + [s];
      assert s !in chain[..p];
      assert !InSome(lists[..i], s);
    }

    lemma SeenEntries(nodes: seq<int>, visited: seq<(K, V)>, i: nat, part: seq<int>)
      requires Valid() && i <= |lists| && Seen(nodes, visited, i, part)
      requires forall s :: s in part ==> InSome(lists, s)
      ensures forall e :: e in visited ==> e.0 in Map() && Map()[e.0] == e.1
      ensures forall j, k :: 0 <= j < k < |visited| ==> visited[j].0 != visited[k].0
      ensures i == |lists| ==> forall k :: k in Map() ==> (k, Map()[k]) in visited
    {
      assert forall s :: InSome(lists[..i], s) ==> InSome(lists, s);
      forall j | 0 <= j < |nodes|
        ensures InSome(lists, nodes[j])
      {
        assert nodes[j] in nodes;
      }
      if i == |lists| {
        assert lists[..i] == lists;
        forall k | k in Map()
          ensures (k, Map()[k]) in visited
        {
          assert nodeOf[k] in nodes;
        }
      }
    }
  }
}
