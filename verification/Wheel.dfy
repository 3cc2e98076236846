/** The timer wheel core: buckets of intrusive lists, refining WheelSpec. */
module Wheel {
  import opened Common
  import opened Modular
  import opened Links
  import opened Hooks
  import opened WheelSpec

  function SlotOf(t: Timer, slots: nat): (b: nat)
    requires 0 < slots
    ensures b < slots
  {
    (t.due % W) % slots
  }

  // The nodes that wait in a bucket, as armed, among the first n timers.
  function BucketIds(s: State, n: nat, b: nat, slots: nat): seq<int>
    requires n <= |s.issued| && 0 < slots
  {
    if n == 0 then []
    else BucketIds(s, n - 1, b, slots) + if Waits(s, n - 1) && SlotOf(s.issued[n - 1], slots) == b then [s.issued[n - 1].id] else []
  }

  lemma {:induction false} BucketMembers(s: State, n: nat, b: nat, slots: nat, x: int)
    requires n <= |s.issued| && 0 < slots
    ensures x in BucketIds(s, n, b, slots) <==> exists k :: 0 <= k < n && Waits(s, k) && SlotOf(s.issued[k], slots) == b && s.issued[k].id == x
  {
    if n > 0 {
      BucketMembers(s, n - 1, b, slots, x);
    }
  }

  lemma {:induction false} BucketDistinct(s: State, n: nat, b: nat, slots: nat)
    requires n <= |s.issued| && 0 < slots && OneTimerPerNode(s)
    ensures Distinct(BucketIds(s, n, b, slots))
  {
    if n > 0 {
      BucketDistinct(s, n - 1, b, slots);
      if Waits(s, n - 1) {
        BucketMembers(s, n - 1, b, slots, s.issued[n - 1].id);
        var front := BucketIds(s, n - 1, b, slots);
        assert forall i :: 0 <= i < |front| ==> front[i] in front;
      }
    }
  }

  lemma {:induction false} BucketFrame(s: State, s': State, n: nat, b: nat, slots: nat)
    requires n <= |s.issued| && n <= |s'.issued| && 0 < slots
    requires forall k :: 0 <= k < n ==> s'.issued[k] == s.issued[k] && Waits(s', k) == Waits(s, k)
    ensures BucketIds(s', n, b, slots) == BucketIds(s, n, b, slots)
  {
    if n > 0 {
      BucketFrame(s, s', n - 1, b, slots);
    }
  }

  // Settling a timer takes its node out of its bucket.
  lemma {:induction false} BucketSettled(s: State, k: nat, o: Outcome, n: nat, b: nat, slots: nat)
    requires n <= |s.issued| && 0 < slots && OneTimerPerNode(s) && Waits(s, k) && !o.Waiting?
    ensures BucketIds(Settled(s, k, o), n, b, slots) == Without(BucketIds(s, n, b, slots), s.issued[k].id)
  {
    if n > 0 {
      var x, s' := s.issued[k].id, Settled(s, k, o);
      BucketSettled(s, k, o, n - 1, b, slots);
      var front := BucketIds(s, n - 1, b, slots);
      assert Waits(s', n - 1) <==> Waits(s, n - 1) && n - 1 != k;
      assert front + [] == front;
      if Waits(s, n - 1) && SlotOf(s.issued[n - 1], slots) == b {
        WithoutSnoc(front, s.issued[n - 1].id, x);
        assert s.issued[n - 1].id == x <==> n - 1 == k;
      }
    }
  }

  lemma WithoutSnoc(xs: seq<int>, y: int, x: int)
    ensures Without(xs + [y], x) == Without(xs, x) + if y == x then [] else [y]
  {
    assert (xs + [y])[..|xs|] == xs;
  }

  lemma {:induction false} BucketPrefix(s: State, m: nat, n: nat, b: nat, slots: nat)
    requires m <= n <= |s.issued| && 0 < slots
    ensures BucketIds(s, m, b, slots) <= BucketIds(s, n, b, slots)
  {
    if m < n {
      BucketPrefix(s, m, n - 1, b, slots);
    }
  }

  // What the buckets hold; the last list is the one a dispatch sets aside, and
  // comes before the rest of the current bucket.
  ghost predicate Placed(lists: seq<seq<int>>, s: State, slots: nat, current: nat) {
    && current < slots && |lists| == slots + 1
    && (forall b :: 0 <= b < slots && b != current ==> lists[b] == BucketIds(s, |s.issued|, b, slots))
    && lists[slots] + lists[current] == BucketIds(s, |s.issued|, current, slots)
  }

  lemma PlacedMembers(lists: seq<seq<int>>, s: State, slots: nat, current: nat, x: nat)
    requires Placed(lists, s, slots, current)
    ensures InSome(lists, x) <==> TimerOf(s, x) < |s.issued|
  {
    var k := TimerOf(s, x);
    if k < |s.issued| {
      var b := SlotOf(s.issued[k], slots);
      BucketMembers(s, |s.issued|, b, slots, x);
      assert x in lists[b] || x in lists[slots];
    }
    if b :| 0 <= b < |lists| && x in lists[b] {
      var c := if b == slots then current else b;
      assert x in lists[slots] + lists[current] || c != current;
      BucketMembers(s, |s.issued|, c, slots, x);
    }
  }

  // A node that a timer can be armed with.
  predicate Free(s: State, x: nat) {
    x < |s.callable| && s.callable[x] && TimerOf(s, x) == |s.issued|
  }

  lemma BucketScheduled(s: State, x: nat, delay: Uint32, c: nat, slots: nat)
    requires Sized(s) && 0 < slots && delay > 0 && Free(s, x)
    ensures var t, s' := Timer(x, s.now, s.now + delay, s.dispatching), Scheduled(s, x, delay).0;
            BucketIds(s', |s'.issued|, c, slots) == BucketIds(s, |s.issued|, c, slots) + if SlotOf(t, slots) == c then [x] else []
  {
    BucketFrame(s, Scheduled(s, x, delay).0, |s.issued|, c, slots);
  }

  lemma PlaceScheduled(lists: seq<seq<int>>, s: State, slots: nat, current: nat, x: nat, delay: Uint32)
    requires Placed(lists, s, slots, current) && Sized(s)
    requires delay > 0 && Free(s, x)
    ensures var b, s' := SlotOf(Timer(x, s.now, s.now + delay, s.dispatching), slots), Scheduled(s, x, delay).0;
            Placed(lists[b := lists[b] + [x]], s', slots, current)
  {
    var b, s' := SlotOf(Timer(x, s.now, s.now + delay, s.dispatching), slots), Scheduled(s, x, delay).0;
    forall c | 0 <= c < slots
      ensures BucketIds(s', |s'.issued|, c, slots) == BucketIds(s, |s.issued|, c, slots) + if c == b then [x] else []
    {
      BucketScheduled(s, x, delay, c, slots);
    }
    assert b == current ==> lists[slots] + (lists[current] + [x]) == (lists[slots] + lists[current]) + [x];
  }

  lemma PlaceSettled(lists: seq<seq<int>>, s: State, slots: nat, current: nat, k: nat, o: Outcome)
    requires Placed(lists, s, slots, current) && OneTimerPerNode(s) && Waits(s, k) && !o.Waiting?
    ensures Placed(AllWithout(lists, s.issued[k].id), Settled(s, k, o), slots, current)
  {
    var x, s' := s.issued[k].id, Settled(s, k, o);
    forall c | 0 <= c < slots
      ensures BucketIds(s', |s'.issued|, c, slots) == Without(BucketIds(s, |s.issued|, c, slots), x)
    {
      BucketSettled(s, k, o, |s.issued|, c, slots);
    }
    WithoutConcat(lists[slots], lists[current], x);
  }

  lemma {:induction false} WithoutConcat(a: seq<int>, b: seq<int>, x: int)
    ensures Without(a + b, x) == Without(a, x) + Without(b, x)
  {
    if b == [] {
      assert a + b == a;
    } else {
      var front, y := b[..|b| - 1], b[|b| - 1];
      assert b == front + [y] && a + b == (a + front) + [y];
      WithoutConcat(a, front, x);
      WithoutSnoc(a + front, y, x);
      WithoutSnoc(front, y, x);
    }
  }

  lemma {:induction false} WithoutTwice(xs: seq<int>, x: int)
    ensures Without(Without(xs, x), x) == Without(xs, x)
  {
    if xs != [] {
      var n, front := |xs| - 1, Without(xs[..|xs| - 1], x);
      WithoutTwice(xs[..n], x);
      assert front + [] == front;
      if xs[n] != x {
        WithoutSnoc(front, xs[n], x);
      }
    }
  }

  lemma AllWithoutTwice(lists: seq<seq<int>>, x: int)
    ensures AllWithout(AllWithout(lists, x), x) == AllWithout(lists, x)
  {
    forall b | 0 <= b < |lists|
      ensures Without(Without(lists[b], x), x) == Without(lists[b], x)
    {
      WithoutTwice(lists[b], x);
    }
  }

  // The deadline stored with each waiting node.
  ghost predicate Tracks(s: State, deadline: seq<nat>) {
    forall k :: Waits(s, k) ==> s.issued[k].id < |deadline| && deadline[s.issued[k].id] == s.issued[k].due % W
  }

  lemma TracksScheduled(s: State, deadline: seq<nat>, x: nat, delay: Uint32)
    requires Sized(s) && Tracks(s, deadline) && x < |deadline| && delay > 0 && Free(s, x)
    ensures Tracks(Scheduled(s, x, delay).0, deadline[x := (s.now + delay) % W])
  {
  }

  lemma TracksSettled(s: State, deadline: seq<nat>, k: nat, o: Outcome)
    requires Sized(s) && Tracks(s, deadline) && OneTimerPerNode(s) && Waits(s, k) && !o.Waiting?
    ensures s.issued[k].id < |deadline| && Tracks(Settled(s, k, o), deadline) && Tracks(Settled(s, k, o), deadline[s.issued[k].id := 0])
  {
  }

  // Nodes not due at this tick.
  ghost predicate Late(list: seq<int>, deadline: seq<nat>, tick: nat) {
    forall x :: x in list ==> 0 <= x < |deadline| && deadline[x] > tick
  }

  // What has been heard is what the model has logged.
  ghost predicate Hears(s: State, heard: seq<nat>) {
    heard == Heard(s) && forall i :: 0 <= i < |s.log| ==> s.log[i] < |s.issued|
  }

  lemma ActHears(s: State, a: Action, heard: seq<nat>)
    requires Hears(s, heard)
    ensures Hears(Act(s, a), heard)
  {
  }

  lemma KeepsOneAndHears(s: State, a: Action, heard: seq<nat>)
    requires Sized(s) && OneTimerPerNode(s) && Hears(s, heard)
    ensures var s' := Act(s, a);
            Sized(s') && OneTimerPerNode(s') && s'.callable == s.callable && s'.now == s.now && Hears(s', heard)
  {
    ActKeepsOne(s, a);
    ActHears(s, a, heard);
  }

  // The wheel's own state. The last list holds what a dispatch has set aside.
  datatype View = View(
    slots: nat, callable: seq<bool>, lists: seq<seq<int>>, deadline: seq<nat>, current: nat, tick: nat, heard: seq<nat>)

  ghost predicate Reflects(v: View, s: State) {
    && 0 < v.slots && Sized(s) && OneTimerPerNode(s) && v.callable == s.callable && |v.deadline| == |v.callable|
    && v.tick == s.now % W && v.current == s.now % v.slots
    && Placed(v.lists, s, v.slots, v.current)
    && Tracks(s, v.deadline) && Hears(s, v.heard)
    && Late(v.lists[v.slots], v.deadline, v.tick)
  }

  function LinkedAt(v: View, x: nat, due: nat): View
    requires 0 < v.slots <= |v.lists| && x < |v.deadline|
  {
    var b := due % v.slots;
    v.(lists := v.lists[b := v.lists[b] + [x]], deadline := v.deadline[x := due])
  }

  function LinkedView(v: View, x: nat, delay: Uint32): View
    requires 0 < v.slots <= |v.lists| && x < |v.deadline|
  {
    LinkedAt(v, x, (v.tick + delay) % W)
  }

  lemma Linking(v: View, s: State, x: nat, delay: Uint32)
    requires Reflects(v, s) && delay > 0 && Free(s, x) && !InSome(v.lists, x)
    ensures Reflects(LinkedView(v, x, delay), Scheduled(s, x, delay).0)
    ensures LinkedView(v, x, delay).lists[v.slots] == v.lists[v.slots]
  {
    LinkedViewIs(v, x, s.now, delay);
    LinkedReflects(v, s, x, delay, LinkedView(v, x, delay));
  }

  // The deadline is taken of the 32-bit tick count.
  lemma LinkedViewIs(v: View, x: nat, now: nat, delay: Uint32)
    requires 0 < v.slots <= |v.lists| && x < |v.deadline| && v.tick == now % W
    ensures LinkedView(v, x, delay) == LinkedAt(v, x, (now + delay) % W)
  {
    AddMod(now, delay, W);
  }

  lemma LinkedReflects(v: View, s: State, x: nat, delay: Uint32, v': View)
    requires Reflects(v, s) && delay > 0 && Free(s, x) && !InSome(v.lists, x)
    requires v' == LinkedAt(v, x, (s.now + delay) % W)
    ensures Reflects(v', Scheduled(s, x, delay).0) && v'.lists[v.slots] == v.lists[v.slots]
  {
    PlaceScheduled(v.lists, s, v.slots, v.current, x, delay);
    TracksScheduled(s, v.deadline, x, delay);
    KeepsOneAndHears(s, Schedule(x, delay), v.heard);
    LateLinked(v.lists[v.slots], v.deadline, v.tick, x, (s.now + delay) % W);
  }

  lemma LateLinked(list: seq<int>, deadline: seq<nat>, tick: nat, x: nat, due: nat)
    requires Late(list, deadline, tick) && x < |deadline| && x !in list
    ensures Late(list, deadline[x := due], tick)
  {
  }

  lemma Unlinking(v: View, s: State, x: nat)
    requires Reflects(v, s) && x < |v.deadline| && TimerOf(s, x) < |s.issued|
    ensures Reflects(v.(lists := AllWithout(v.lists, x), deadline := v.deadline[x := 0]), CancelledIn(s, x))
  {
    var k, o := TimerOf(s, x), Cancelled(s.now);
    PlaceSettled(v.lists, s, v.slots, v.current, k, o);
    TracksSettled(s, v.deadline, k, o);
    ActHears(s, Cancel(x), v.heard);
    ActKeepsOne(s, Cancel(x));
    WithoutMembers(v.lists[v.slots], x);
  }

  lemma {:induction false} WithoutMembers(xs: seq<int>, x: int)
    ensures forall y :: y in Without(xs, x) <==> y in xs && y != x
  {
    if xs != [] {
      WithoutMembers(xs[..|xs| - 1], x);
      assert xs == xs[..|xs| - 1] + [xs[|xs| - 1]];
    }
  }

  lemma Starting(v: View)
    requires 0 < v.slots && |v.lists| == v.slots + 1 && |v.deadline| == |v.callable|
    requires v.current == v.tick == 0 && v.heard == [] && forall b :: 0 <= b < |v.lists| ==> v.lists[b] == []
    ensures Reflects(v, Init(v.callable))
  {
  }

  // The node at the front belongs to a waiting timer of this slot.
  lemma FrontWaits(v: View, s: State)
    requires Reflects(v, s) && v.lists[v.current] != []
    ensures var x := v.lists[v.current][0];
            && 0 <= x < |v.deadline|
            && var k := TimerOf(s, x);
               k < |s.issued| && SlotOf(s.issued[k], v.slots) == v.current && v.deadline[x] == s.issued[k].due % W
  {
    var x := v.lists[v.current][0];
    assert x in v.lists[v.slots] + v.lists[v.current];
    BucketMembers(s, |s.issued|, v.current, v.slots, x);
  }

  // The front of the current bucket is the earliest armed ready timer, if it
  // is ready: those set aside are not.
  lemma FrontIsEarliest(v: View, s: State)
    requires Reflects(v, s) && v.lists[v.current] != []
    requires 0 <= v.lists[v.current][0] < |v.deadline| && v.deadline[v.lists[v.current][0]] <= v.tick
    ensures Earliest(s, Wheel(v.slots)) == TimerOf(s, v.lists[v.current][0])
  {
    FrontWaits(v, s);
    var x, pending := v.lists[v.current][0], v.lists[v.slots];
    var k, n := TimerOf(s, x), |s.issued|;
    var all, p := BucketIds(s, n, v.current, v.slots), BucketIds(s, k, v.current, v.slots);
    BucketPrefix(s, k + 1, n, v.current, v.slots);
    BucketDistinct(s, n, v.current, v.slots);
    assert BucketIds(s, k + 1, v.current, v.slots) == p + [x];
    assert all[|p|] == x && all[|pending|] == x;
    assert |p| == |pending|;
    assert all[..|p|] == p && all[..|pending|] == pending;
    forall i | 0 <= i < k && Waits(s, i)
      ensures !Ready(s.issued[i], s.now, v.slots)
    {
      BucketMembers(s, k, v.current, v.slots, s.issued[i].id);
    }
  }

  // Once the current bucket has been emptied, nothing is left to fire.
  lemma NothingReady(v: View, s: State)
    requires Reflects(v, s) && v.lists[v.current] == []
    ensures Earliest(s, Wheel(v.slots)) == |s.issued|
  {
    forall i | Waits(s, i)
      ensures !Ready(s.issued[i], s.now, v.slots)
    {
      BucketMembers(s, |s.issued|, SlotOf(s.issued[i], v.slots), v.slots, s.issued[i].id);
      assert v.lists[v.slots] + v.lists[v.current] == v.lists[v.slots];
    }
  }

  // The node at the front is due.
  ghost predicate DueFront(v: View, s: State, x: nat) {
    Reflects(v, s) && v.lists[v.current] != [] && v.lists[v.current][0] == x < |v.deadline| && v.deadline[x] <= v.tick
  }

  lemma Firing(v: View, s: State, x: nat)
    requires DueFront(v, s, x)
    ensures var k := TimerOf(s, x);
            && k == Earliest(s, Wheel(v.slots)) < |s.issued|
            && Reflects(v.(lists := AllWithout(v.lists, x), heard := v.heard + [x]), MarkFired(s, k))
  {
    var k, o := TimerOf(s, x), Fired(s.now);
    FrontWaits(v, s);
    FrontIsEarliest(v, s);
    PlaceSettled(v.lists, s, v.slots, v.current, k, o);
    PlacedFrame(AllWithout(v.lists, x), Settled(s, k, o), MarkFired(s, k), v.slots, v.current);
    WithoutMembers(v.lists[v.slots], x);
  }

  // The node at the front is not due, and in no other list.
  ghost predicate EarlyFront(v: View, x: nat) {
    && v.current < |v.lists| && v.lists[v.current] != [] && v.lists[v.current][0] == x < |v.deadline| && v.deadline[x] > v.tick
    && Distinct(v.lists[v.current]) && forall c :: 0 <= c < |v.lists| && c != v.current ==> x !in v.lists[c]
  }

  lemma SettingAside(v: View, s: State, x: nat)
    requires Reflects(v, s) && EarlyFront(v, x)
    ensures var lists := AllWithout(v.lists, x);
            && !InSome(lists, x) && |lists[v.current]| == |v.lists[v.current]| - 1
            && Reflects(v.(lists := lists[v.slots := lists[v.slots] + [x]]), s)
  {
    SetAside(v.lists, v.slots, v.current);
  }

  lemma SetAside(lists: seq<seq<int>>, last: nat, b: nat)
    requires b < last < |lists| && lists[b] != [] && Distinct(lists[b])
    requires forall c :: 0 <= c < |lists| && c != b ==> lists[b][0] !in lists[c]
    ensures var x := lists[b][0];
            var erased := AllWithout(lists, x);
            && !InSome(erased, x)
            && (forall c {:trigger erased[c]} :: 0 <= c < |lists| && c != b ==> erased[c] == lists[c])
            && |erased[b]| == |lists[b]| - 1 && (erased[last] + [x]) + erased[b] == lists[last] + lists[b]
  {
    var x, pending, bucket := lists[b][0], lists[last], lists[b];
    AllWithoutAt(lists, b, 0);
    forall c | 0 <= c < |lists|
      ensures x !in AllWithout(lists, x)[c]
    {
      WithoutMembers(lists[c], x);
    }
    assert bucket == [x] + RemoveAt(bucket, 0);
    assert (pending + [x]) + RemoveAt(bucket, 0) == pending + bucket;
  }

  lemma PlacedFrame(lists: seq<seq<int>>, s: State, s': State, slots: nat, current: nat)
    requires Placed(lists, s, slots, current) && s'.issued == s.issued && s'.outcome == s.outcome
    ensures Placed(lists, s', slots, current)
  {
    forall b | 0 <= b < slots
      ensures BucketIds(s', |s.issued|, b, slots) == BucketIds(s, |s.issued|, b, slots)
    {
      BucketFrame(s, s', |s.issued|, b, slots);
    }
  }

  // The i first hooks of one list, moved to the end of another.
  function Moved(lists: seq<seq<int>>, from: nat, to: nat, i: nat): seq<seq<int>>
    requires from < |lists| && to < |lists| && from != to && i <= |lists[from]|
  {
    lists[from := lists[from][i..]][to := lists[to] + lists[from][..i]]
  }

  lemma Moving(lists: seq<seq<int>>, from: nat, to: nat, i: nat)
    requires from < |lists| && to < |lists| && from != to && i < |lists[from]|
    requires var now := Moved(lists, from, to, i);
             Distinct(now[from]) && forall c :: 0 <= c < |lists| && c != from ==> lists[from][i] !in now[c]
    ensures var now, x := Moved(lists, from, to, i), lists[from][i];
            var erased := AllWithout(now, x);
            now[from][0] == x && !InSome(erased, x) && erased[to := erased[to] + [x]] == Moved(lists, from, to, i + 1)
  {
    var now, x := Moved(lists, from, to, i), lists[from][i];
    AllWithoutAt(now, from, 0);
    forall c | 0 <= c < |lists|
      ensures x !in AllWithout(now, x)[c]
    {
      WithoutMembers(now[c], x);
    }
    assert RemoveAt(lists[from][i..], 0) == lists[from][i + 1..];
    assert lists[from][..i + 1] == lists[from][..i] + [x];
    assert (lists[to] + lists[from][..i]) + [x] == lists[to] + lists[from][..i + 1];
  }

  lemma Restoring(v: View, s: State)
    requires Reflects(v, s) && v.lists[v.current] == []
    ensures Reflects(v.(lists := Moved(v.lists, v.slots, v.current, |v.lists[v.slots]|)), s)
  {
    var pending, now := v.lists[v.slots], Moved(v.lists, v.slots, v.current, |v.lists[v.slots]|);
    assert now[v.slots] == [] && now[v.slots] + now[v.current] == pending + v.lists[v.current];
  }

  lemma Advancing(v: View, s: State)
    requires Reflects(v, s) && v.lists[v.slots] == []
    ensures Reflects(v.(current := (v.current + 1) % v.slots, tick := (v.tick + 1) % W), Later(s))
  {
    var s' := Later(s);
    AddMod(s.now, 1, W);
    AddMod(s.now, 1, v.slots);
    PlacedFrame(v.lists, s, s', v.slots, v.current);
    assert forall b :: 0 <= b < v.slots ==> v.lists[v.slots] + v.lists[b] == v.lists[b];
    assert forall i, j :: Waits(s', i) && Waits(s', j) ==> Waits(s, i) && Waits(s, j);
  }

  lemma Settling(v: View, s: State)
    requires Reflects(v, s)
    ensures Reflects(v, AtRest(s))
  {
    var s' := AtRest(s);
    PlacedFrame(v.lists, s, s', v.slots, v.current);
    assert forall i, j :: Waits(s', i) && Waits(s', j) ==> Waits(s, i) && Waits(s, j);
  }

  lemma Outside(v: View, s: State, a: Action)
    requires Reflects(v, s) && a.id >= |v.deadline|
    ensures Act(s, a) == s
  {
    assert forall k :: Waits(s, k) ==> s.issued[k].id != a.id;
  }

  // The dispatches of the next ticks end.
  ghost predicate TicksEnd(s: State, react: React, steps: nat, ready: Readiness)
    decreases steps
  {
    steps == 0 || (Ends(Later(s), ready, react) && TicksEnd(Ticked(s, ready, react), react, steps - 1, ready))
  }

  // ---- The wheel ----

  class TimerWheel {
    const slots: nat
    const hooks: HookPool
    // Per node: its deadline, and whether its callback is set.
    const deadline: array<nat>
    const callable: seq<bool>
    var currentSlot: nat
    var tickCount: nat
    // The nodes whose callbacks have run.
    var heard: seq<nat>

    ghost var model: State

    ghost predicate Shape()
      reads hooks, hooks.next, hooks.prev
    {
      && 2 <= slots && W % slots == 0
      && hooks.Valid() && hooks.nodes == deadline.Length == |callable| && |hooks.lists| == slots + 1
      && deadline as object != hooks.next && deadline as object != hooks.prev && deadline as object != hooks
    }

    ghost function Now(): View
      reads `currentSlot, `tickCount, `heard, deadline, hooks
    {
      View(slots, callable, hooks.lists, deadline[..], currentSlot, tickCount, heard)
    }

    // Between two callbacks of a dispatch.
    ghost predicate Busy()
      reads this, deadline, hooks, hooks.next, hooks.prev
    {
      Shape() && Reflects(Now(), model)
    }

    ghost predicate Valid()
      reads this, deadline, hooks, hooks.next, hooks.prev
    {
      Busy() && hooks.lists[slots] == []
    }

    constructor (slots: nat, callable: seq<bool>)
      requires 2 <= slots && W % slots == 0
      ensures Valid() && model == Init(callable) && this.slots == slots && this.callable == callable
    {
      this.slots, this.callable := slots, callable;
      hooks := new HookPool(|callable|, slots + 1);
      deadline := new nat[|callable|](_ => 0);
      currentSlot, tickCount, heard, model := 0, 0, [], Init(callable);
      new;
      Starting(Now());
    }

    // A timer is armed unless the delay is zero, the callback missing or the
    // node already linked.
    method Schedule(x: nat, delay: Uint32) returns (st: Status)
      requires Busy() && x < |callable|
      modifies `model, deadline, hooks, hooks.next, hooks.prev
      ensures Busy() && hooks.lists[slots] == old(hooks.lists[slots])
      ensures (model, st) == Scheduled(old(model), x, delay)
      ensures ActionOutcome(old(model), Action.Schedule(x, delay), st, model)
    {
      PlacedMembers(hooks.lists, model, slots, currentSlot, x);
      ActExact(model, Action.Schedule(x, delay));
      if delay == 0 {
        return Invalid;
      }
      if !callable[x] {
        return Invalid;
      }
      var linked := hooks.IsLinked(x);
      if linked {
        return Invalid;
      }
      Linking(Now(), model, x, delay);
      Link(x, delay, LinkedView(Now(), x, delay));
      model := Scheduled(model, x, delay).0;
      return Ok;
    }

    method Link(x: nat, delay: Uint32, ghost after: View)
      requires Shape() && x < |callable| && !InSome(hooks.lists, x)
      requires after == LinkedView(Now(), x, delay)
      modifies deadline, hooks, hooks.next, hooks.prev
      ensures Shape() && Now() == after
    {
      deadline[x] := (tickCount + delay) % W;
      var slot := deadline[x] % slots;
      hooks.PushBack(slot, x);
      assert deadline[..] == old(deadline[..])[x := deadline[x]];
    }

    // A linked node is unlinked wherever it is.
    method Cancel(x: nat)
      requires Busy() && x < |callable|
      modifies `model, deadline, hooks, hooks.next, hooks.prev
      ensures Busy() && hooks.lists == AllWithout(old(hooks.lists), x)
      ensures model == CancelledIn(old(model), x) && ActionOutcome(old(model), Action.Cancel(x), Ok, model)
    {
      PlacedMembers(hooks.lists, model, slots, currentSlot, x);
      ActExact(model, Action.Cancel(x));
      var linked := hooks.IsLinked(x);
      if !linked {
        AllWithoutAbsent(hooks.lists, x);
        return;
      }
      ghost var before := Now();
      Unlinking(before, model, x);
      EraseEverywhere(x);
      deadline[x] := 0;
      assert deadline[..] == before.deadline[x := 0];
      model := CancelledIn(model, x);
    }

    method EraseEverywhere(x: nat)
      requires hooks.Valid() && x < hooks.nodes && |hooks.lists| == slots + 1 && 0 < slots
      modifies hooks, hooks.next, hooks.prev
      ensures hooks.Valid() && hooks.lists == AllWithout(old(hooks.lists), x)
    {
      hooks.Erase(x);
      for i := 1 to slots
        invariant hooks.Valid() && hooks.lists == AllWithout(old(hooks.lists), x)
      {
        AllWithoutTwice(old(hooks.lists), x);
        hooks.Erase(x);
      }
    }

    // What a callback does; only nodes that exist can be named.
    method Perform(actions: seq<Action>)
      requires Busy()
      modifies `model, deadline, hooks, hooks.next, hooks.prev
      ensures Busy() && model == ActAll(old(model), actions)
    {
      for i := 0 to |actions|
        invariant Busy() && ActAll(model, actions[i..]) == ActAll(old(model), actions)
      {
        assert actions[i..][1..] == actions[i + 1..];
        if actions[i].id < |callable| {
          match actions[i]
          case Schedule(x, delay) =>
            var _ := Schedule(x, delay);
          case Cancel(x) =>
            Cancel(x);
        } else {
          Outside(Now(), model, actions[i]);
        }
      }
      assert actions[|actions|..] == [];
    }

    // The front of the current bucket fires if it is due, and is set aside
    // otherwise.
    method StepFront(react: React) returns (fired: bool)
      requires Busy() && hooks.lists[currentSlot] != []
      modifies `model, `heard, deadline, hooks, hooks.next, hooks.prev
      ensures Busy()
      ensures if fired then
                Earliest(old(model), Wheel(slots)) < |old(model).issued| && model == FireEarliest(old(model), Wheel(slots), react)
              else
                model == old(model) && |hooks.lists[currentSlot]| == old(|hooks.lists[currentSlot]|) - 1
    {
      var x := hooks.Front(currentSlot);
      ghost var before := Now();
      FrontWaits(before, model);
      hooks.Erase(x);
      fired := deadline[x] <= tickCount;
      if fired {
        Fire(x, react, before);
      } else {
        SetAsideFront(x, before);
      }
    }

    // The node taken off the front is not due: it waits behind the others set
    // aside.
    method SetAsideFront(x: nat, ghost before: View)
      requires Shape() && Reflects(before, model) && EarlyFront(before, x)
      requires Now() == before.(lists := AllWithout(before.lists, x))
      modifies hooks, hooks.next, hooks.prev
      ensures Busy() && |hooks.lists[currentSlot]| == |before.lists[currentSlot]| - 1
    {
      SettingAside(before, model, x);
      hooks.PushBack(slots, x);
    }

    // The node taken off the front is due: its callback runs.
    method Fire(x: nat, react: React, ghost before: View)
      requires Shape() && DueFront(before, model, x) && Now() == before.(lists := AllWithout(before.lists, x))
      modifies `model, `heard, deadline, hooks, hooks.next, hooks.prev
      ensures Busy()
      ensures Earliest(old(model), Wheel(slots)) < |old(model).issued| && model == FireEarliest(old(model), Wheel(slots), react)
    {
      Firing(before, model, x);
      model := MarkFired(model, TimerOf(model, x));
      heard := heard + [x];
      Perform(react(heard));
    }

    // The nodes set aside go back to the current bucket, in order.
    method Restore()
      requires hooks.Valid() && |hooks.lists| == slots + 1 && currentSlot < slots
      modifies hooks, hooks.next, hooks.prev
      ensures hooks.Valid()
      ensures hooks.lists == Moved(old(hooks.lists), slots, currentSlot, |old(hooks.lists[slots])|)
    {
      ghost var before, i := hooks.lists, 0;
      assert before[currentSlot] + [] == before[currentSlot];
      assert Moved(before, slots, currentSlot, 0) == before;
      while true
        invariant hooks.Valid() && 0 <= i <= |before[slots]|
        invariant hooks.lists == Moved(before, slots, currentSlot, i)
        decreases |before[slots]| - i
      {
        var empty := hooks.IsEmpty(slots);
        if empty {
          break;
        }
        var x := hooks.Front(slots);
        Moving(before, slots, currentSlot, i);
        hooks.Erase(x);
        hooks.PushBack(currentSlot, x);
        i := i + 1;
      }
    }

    // One firing less is left, or the bucket holds one node less.
    method StepDown(react: React, ghost left: nat) returns (ghost left': nat)
      requires Busy() && hooks.lists[currentSlot] != [] && Idle(Firings(model, Wheel(slots), react, left), Wheel(slots))
      modifies `model, `heard, deadline, hooks, hooks.next, hooks.prev
      ensures Busy() && Firings(model, Wheel(slots), react, left') == old(Firings(model, Wheel(slots), react, left))
      ensures left' < left || (left' == left && |hooks.lists[currentSlot]| < old(|hooks.lists[currentSlot]|))
    {
      var fired := StepFront(react);
      left' := if fired then left - 1 else left;
    }

    method EmptyBucket(react: React, ghost n: nat)
      requires Busy() && Idle(Firings(model, Wheel(slots), react, n), Wheel(slots))
      modifies `model, `heard, deadline, hooks, hooks.next, hooks.prev
      ensures Busy() && hooks.lists[currentSlot] == [] && model == old(Firings(model, Wheel(slots), react, n))
    {
      ghost var left := n;
      while true
        invariant Busy() && Firings(model, Wheel(slots), react, left) == old(Firings(model, Wheel(slots), react, n))
        decreases left, |hooks.lists[currentSlot]|
      {
        var empty := hooks.IsEmpty(currentSlot);
        if empty {
          break;
        }
        left := StepDown(react, left);
      }
      NothingReady(Now(), model);
      IdleDispatch(model, Wheel(slots), react, left);
    }

    // A tick's dispatch fires, earliest armed first, until nothing is ready, if
    // that ever happens: callbacks may go on arming timers that are ready.
    method DispatchBucket(react: React)
      requires Valid() && Ends(model, Wheel(slots), react)
      modifies `model, `heard, deadline, hooks, hooks.next, hooks.prev
      ensures Valid() && model == Dispatched(old(model), Wheel(slots), react)
    {
      ghost var n: nat :| Idle(Firings(model, Wheel(slots), react, n), Wheel(slots));
      DispatchedAfter(model, Wheel(slots), react, n);
      EmptyBucket(react, n);
      PutBack();
    }

    method PutBack()
      requires Busy() && hooks.lists[currentSlot] == []
      modifies hooks, hooks.next, hooks.prev
      ensures Valid()
    {
      Restoring(Now(), model);
      Restore();
    }

    method TickOnce(react: React)
      requires Valid() && Ends(Later(model), Wheel(slots), react)
      modifies this, deadline, hooks, hooks.next, hooks.prev
      ensures Valid() && model == Ticked(old(model), Wheel(slots), react)
    {
      Advance();
      DispatchBucket(react);
      Settle();
    }

    ghost method Settle()
      requires Valid()
      modifies `model
      ensures Valid() && model == AtRest(old(model))
    {
      Settling(Now(), model);
      model := AtRest(model);
    }

    method Advance()
      requires Valid()
      modifies `tickCount, `currentSlot, `model
      ensures Valid() && model == Later(old(model))
    {
      Advancing(Now(), model);
      tickCount := (tickCount + 1) % W;
      currentSlot := (currentSlot + 1) % slots;
      model := Later(model);
    }

    // Several ticks at once are as many single ones.
    method Tick(steps: nat, react: React) returns (st: Status)
      requires Valid() && TicksEnd(model, react, steps, Wheel(slots))
      modifies this, deadline, hooks, hooks.next, hooks.prev
      ensures Valid() && st == (if steps == 0 then Invalid else Ok)
      ensures Runs(old(model), Ticks(react, steps), Wheel(slots), model) && model.now == old(model.now) + steps
    {
      if steps == 0 {
        return Invalid;
      }
      TickAll(steps, react);
      return Ok;
    }

    method TickAll(steps: nat, react: React)
      requires Valid() && TicksEnd(model, react, steps, Wheel(slots))
      modifies this, deadline, hooks, hooks.next, hooks.prev
      ensures Valid() && Runs(old(model), Ticks(react, steps), Wheel(slots), model) && model.now == old(model.now) + steps
    {
      ghost var s0 := model;
      for i := 0 to steps
        invariant Valid() && Ticking(s0, react, i, steps - i, Wheel(slots), model) && model.now == s0.now + i
      {
        TickNext(s0, react, i, steps - i);
      }
    }

    method TickNext(ghost s0: State, react: React, ghost i: nat, ghost left: nat)
      requires Valid() && left > 0 && Ticking(s0, react, i, left, Wheel(slots), model)
      modifies this, deadline, hooks, hooks.next, hooks.prev
      ensures Valid() && Ticking(s0, react, i + 1, left - 1, Wheel(slots), model) && model.now == old(model.now) + 1
    {
      TickedNow(model, Wheel(slots), react);
      TickingNext(s0, react, i, left, Wheel(slots), model);
      TickOnce(react);
    }
  }

  ghost function Ticks(react: React, n: nat): (ops: seq<Op>)
    ensures |ops| == n && forall i :: 0 <= i < n ==> ops[i] == Op.Tick(react)
  {
    if n == 0 then [] else Ticks(react, n - 1) + [Op.Tick(react)]
  }

  // After i ticks, with more to come.
  ghost predicate Ticking(s0: State, react: React, i: nat, left: nat, ready: Readiness, s: State) {
    Runs(s0, Ticks(react, i), ready, s) && TicksEnd(s, react, left, ready)
  }

  lemma TickingNext(s0: State, react: React, i: nat, left: nat, ready: Readiness, s: State)
    requires left > 0 && Ticking(s0, react, i, left, ready, s)
    ensures Ends(Later(s), ready, react) && Ticking(s0, react, i + 1, left - 1, ready, Ticked(s, ready, react))
  {
    RunsAppend(s0, Ticks(react, i), ready, s, Op.Tick(react));
  }
}
