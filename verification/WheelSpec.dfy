/** What a timer wheel promises: timers that wait, fire and are cancelled.

    Time is the unbounded number of ticks so far. The wheel itself only keeps
    32-bit deadlines, so whether a timer is ready depends on the deadline and
    the time modulo 2^32; the lemmas say which timers that makes exact. */
module WheelSpec {
  import opened Common
  import opened Modular

  const W: nat := 0x1_0000_0000

  type Uint32 = d: nat | d < W

  // A timer armed at tick born, to fire at tick due; inside tells whether a
  // callback armed it, in the dispatch of that tick. It is known by its place in
  // the order of arming; id names the caller's node.
  datatype Timer = Timer(id: nat, born: nat, due: nat, inside: bool)

  datatype Outcome = Waiting | Fired(at: nat) | Cancelled(at: nat)

  // callable tells for each node whether its callback is set.
  datatype State = State(
    callable: seq<bool>, now: nat, dispatching: bool, issued: seq<Timer>, outcome: seq<Outcome>, log: seq<nat>)

  datatype Action = Schedule(id: nat, delay: Uint32) | Cancel(id: nat)

  // A callback's actions, as a function of the nodes whose timers have fired so
  // far, its own included.
  type React = seq<nat> -> seq<Action>

  function Init(callable: seq<bool>): State {
    State(callable, 0, false, [], [], [])
  }

  predicate Waits(s: State, k: int) {
    0 <= k < |s.issued| && k < |s.outcome| && s.outcome[k] == Waiting
  }

  // The waiting timer of a node, or |issued|.
  function TimerOf(s: State, id: nat): (k: nat)
    ensures k <= |s.issued|
    ensures k < |s.issued| ==> Waits(s, k) && s.issued[k].id == id
    ensures k == |s.issued| ==> forall i :: Waits(s, i) ==> s.issued[i].id != id
  {
    FirstFrom(s, i requires Waits(s, i) => s.issued[i].id == id, 0)
  }

  // The first waiting timer from k on that satisfies p.
  function FirstFrom(s: State, p: int --> bool, k: nat): (r: nat)
    requires k <= |s.issued|
    requires forall i :: Waits(s, i) ==> p.requires(i)
    ensures k <= r <= |s.issued|
    ensures r < |s.issued| ==> Waits(s, r) && p(r)
    ensures forall i :: k <= i < r && Waits(s, i) ==> !p(i)
    decreases |s.issued| - k
  {
    if k == |s.issued| then k
    else if Waits(s, k) && p(k) then k
    else FirstFrom(s, p, k + 1)
  }

  function Scheduled(s: State, id: nat, delay: Uint32): (State, Status) {
    if delay == 0 || !(id < |s.callable| && s.callable[id]) || TimerOf(s, id) < |s.issued| then (s, Invalid)
    else (s.(issued := s.issued + [Timer(id, s.now, s.now + delay, s.dispatching)], outcome := s.outcome + [Waiting]), Ok)
  }

  function Settled(s: State, k: nat, o: Outcome): State {
    if k < |s.outcome| then s.(outcome := s.outcome[k := o]) else s
  }

  function CancelledIn(s: State, id: nat): State {
    Settled(s, TimerOf(s, id), Cancelled(s.now))
  }

  function Act(s: State, a: Action): State {
    match a
    case Schedule(id, delay) => Scheduled(s, id, delay).0
    case Cancel(id) => CancelledIn(s, id)
  }

  function ActAll(s: State, actions: seq<Action>): State
    decreases |actions|
  {
    if actions == [] then s else ActAll(Act(s, actions[0]), actions[1..])
  }

  // A timer can be armed with this node: its callback is set, and none of its
  // timers waits.
  ghost predicate CanArm(s: State, id: nat) {
    id < |s.callable| && s.callable[id] && forall k :: Waits(s, k) ==> s.issued[k].id != id
  }

  // What each action does. Scheduling answers ok exactly when the delay is
  // positive and the node can be armed, and then one timer more waits;
  // cancelling ends the one timer of the node that waits, if any. Nothing else
  // changes.
  ghost predicate ActionOutcome(s: State, a: Action, st: Status, s': State) {
    match a
    case Schedule(id, delay) =>
      var t := Timer(id, s.now, s.now + delay, s.dispatching);
      && st == (if delay > 0 && CanArm(s, id) then Ok else Invalid)
      && s' == if st == Ok then s.(issued := s.issued + [t], outcome := s.outcome + [Waiting]) else s
    case Cancel(id) =>
      && s' == s.(outcome := s'.outcome) && |s'.outcome| == |s.outcome|
      && forall k :: 0 <= k < |s.outcome| && k < |s.issued| ==>
           s'.outcome[k] == if s.outcome[k] == Waiting && s.issued[k].id == id then Cancelled(s.now) else s.outcome[k]
  }

  lemma ActExact(s: State, a: Action)
    requires Sized(s) && OneTimerPerNode(s)
    ensures ActionOutcome(s, a, if a.Schedule? then Scheduled(s, a.id, a.delay).1 else Ok, Act(s, a))
  {
    if a.Cancel? {
      var k := TimerOf(s, a.id);
      assert forall i :: 0 <= i < |s.issued| && s.outcome[i] == Waiting ==> Waits(s, i);
    }
  }

  // Actions take effect one after the other.
  lemma {:induction false} ActAllConcat(s: State, a: seq<Action>, b: seq<Action>)
    ensures ActAll(s, a + b) == ActAll(ActAll(s, a), b)
    decreases |a|
  {
    if a == [] {
      assert a + b == b;
    } else {
      assert (a + b)[1..] == a[1..] + b;
      ActAllConcat(Act(s, a[0]), a[1..], b);
    }
  }

  lemma ActAllOne(s: State, a: Action, rest: seq<Action>)
    ensures ActAll(s, []) == s && ActAll(s, [a]) == Act(s, a) && ActAll(s, [a] + rest) == ActAll(Act(s, a), rest)
  {
    var none: seq<Action> := [];
    assert [a][1..] == none && ([a] + rest)[1..] == rest;
  }

  // A callback that cancels one node and arms another does both.
  lemma TwoActionsExample()
    ensures var s := State([true, true], 5, true, [Timer(0, 1, 9, false)], [Waiting], []);
            ActAll(s, [Cancel(0), Schedule(1, 7)]) ==
              State([true, true], 5, true, [Timer(0, 1, 9, false), Timer(1, 5, 12, true)], [Cancelled(5), Waiting], [])
  {
    var s := State([true, true], 5, true, [Timer(0, 1, 9, false)], [Waiting], []);
    assert Waits(s, 0);
    assert [Cancel(0), Schedule(1, 7)] == [Cancel(0)] + [Schedule(1, 7)];
    ActAllOne(s, Cancel(0), [Schedule(1, 7)]);
    ActAllOne(Act(s, Cancel(0)), Schedule(1, 7), []);
  }

  // Whether the wheel fires a timer at a given tick.
  type Readiness = (Timer, nat) -> bool

  function Earliest(s: State, ready: Readiness): (k: nat)
    ensures k <= |s.issued|
    ensures k < |s.issued| ==> Waits(s, k) && ready(s.issued[k], s.now)
    ensures forall i :: 0 <= i < k && Waits(s, i) ==> !ready(s.issued[i], s.now)
  {
    FirstFrom(s, i requires Waits(s, i) => ready(s.issued[i], s.now), 0)
  }

  // The earliest armed ready timer fires and its callback acts.
  function FireEarliest(s: State, ready: Readiness, react: React): State {
    var k := Earliest(s, ready);
    if k == |s.issued| then s
    else
      var fired := MarkFired(s, k);
      ActAll(fired, react(Heard(fired)))
  }

  function Heard(s: State): (heard: seq<nat>)
    ensures |heard| == |s.log|
  {
    seq(|s.log|, i requires 0 <= i < |s.log| => if s.log[i] < |s.issued| then s.issued[s.log[i]].id else 0)
  }

  function MarkFired(s: State, k: nat): State {
    Settled(s, k, Fired(s.now)).(log := s.log + [k])
  }

  // An action that arms a timer which is ready at once.
  predicate Immediate(a: Action, now: nat, ready: Readiness) {
    a.Schedule? && a.delay > 0 && ready(Timer(a.id, now, now + a.delay, true), now)
  }

  predicate CalmActions(actions: seq<Action>, now: nat, ready: Readiness) {
    forall i :: 0 <= i < |actions| ==> !Immediate(actions[i], now, ready)
  }

  ghost predicate Calm(react: React, now: nat, ready: Readiness) {
    forall heard :: CalmActions(react(heard), now, ready)
  }

  function ReadyCount(s: State, ready: Readiness, n: nat): nat
    requires n <= |s.issued|
  {
    if n == 0 then 0
    else ReadyCount(s, ready, n - 1) + if Waits(s, n - 1) && ready(s.issued[n - 1], s.now) then 1 else 0
  }

  predicate Sized(s: State) {
    |s.issued| == |s.outcome|
  }

  // The state after n firings, or fewer if nothing is left to fire.
  function Firings(s: State, ready: Readiness, react: React, n: nat): State
    decreases n
  {
    if n == 0 then s else Firings(FireEarliest(s, ready, react), ready, react, n - 1)
  }

  predicate Idle(s: State, ready: Readiness) {
    Earliest(s, ready) == |s.issued|
  }

  // A dispatch need not end: its callbacks may keep arming ready timers.
  ghost predicate Ends(s: State, ready: Readiness, react: React) {
    exists n: nat :: Idle(Firings(s, ready, react, n), ready)
  }

  ghost function Dispatched(s: State, ready: Readiness, react: React): State
    requires Ends(s, ready, react)
  {
    var n: nat :| Idle(Firings(s, ready, react, n), ready);
    Firings(s, ready, react, n)
  }

  function Later(s: State): State {
    s.(now := s.now + 1, dispatching := true)
  }

  function AtRest(s: State): State {
    s.(dispatching := false)
  }

  ghost function Ticked(s: State, ready: Readiness, react: React): State
    requires Ends(Later(s), ready, react)
  {
    AtRest(Dispatched(Later(s), ready, react))
  }

  lemma {:induction false} IdleDispatch(s: State, ready: Readiness, react: React, n: nat)
    requires Idle(s, ready)
    ensures Firings(s, ready, react, n) == s
    decreases n
  {
    if n > 0 {
      IdleDispatch(s, ready, react, n - 1);
    }
  }

  // All counts of firings after which a dispatch is idle lead to one state.
  lemma {:induction false} IdleOnce(s: State, ready: Readiness, react: React, m: nat, n: nat)
    requires Idle(Firings(s, ready, react, m), ready) && Idle(Firings(s, ready, react, n), ready)
    ensures Firings(s, ready, react, m) == Firings(s, ready, react, n)
    decreases m
  {
    if m == 0 {
      IdleDispatch(s, ready, react, n);
    } else if n == 0 {
      IdleDispatch(s, ready, react, m);
    } else {
      IdleOnce(FireEarliest(s, ready, react), ready, react, m - 1, n - 1);
    }
  }

  // Neither callbacks nor firings move the clock; a tick moves it by one.
  lemma {:induction false} ActAllNow(s: State, actions: seq<Action>)
    ensures ActAll(s, actions).now == s.now && ActAll(s, actions).callable == s.callable
    decreases |actions|
  {
    if actions != [] {
      ActAllNow(Act(s, actions[0]), actions[1..]);
    }
  }

  lemma {:induction false} FiringsNow(s: State, ready: Readiness, react: React, n: nat)
    ensures Firings(s, ready, react, n).now == s.now && Firings(s, ready, react, n).callable == s.callable
    decreases n
  {
    if n > 0 {
      var k := Earliest(s, ready);
      if k < |s.issued| {
        ActAllNow(MarkFired(s, k), react(Heard(MarkFired(s, k))));
      }
      FiringsNow(FireEarliest(s, ready, react), ready, react, n - 1);
    }
  }

  lemma TickedNow(s: State, ready: Readiness, react: React)
    requires Ends(Later(s), ready, react)
    ensures Ticked(s, ready, react).now == s.now + 1 && Ticked(s, ready, react).callable == s.callable
  {
    var n: nat :| Idle(Firings(Later(s), ready, react, n), ready);
    DispatchedAfter(Later(s), ready, react, n);
    FiringsNow(Later(s), ready, react, n);
  }

  lemma DispatchedAfter(s: State, ready: Readiness, react: React, n: nat)
    requires Idle(Firings(s, ready, react, n), ready)
    ensures Ends(s, ready, react) && Dispatched(s, ready, react) == Firings(s, ready, react, n)
  {
    var m: nat :| Idle(Firings(s, ready, react, m), ready) && Dispatched(s, ready, react) == Firings(s, ready, react, m);
    IdleOnce(s, ready, react, m, n);
  }

  // ---- Dispatching ends ----

  lemma {:induction false} CountFrame(s: State, s': State, ready: Readiness, n: nat)
    requires n <= |s.issued| && n <= |s'.issued| && s'.now == s.now
    requires forall i :: 0 <= i < n ==> s'.issued[i] == s.issued[i] && (Waits(s', i) ==> Waits(s, i))
    ensures ReadyCount(s', ready, n) <= ReadyCount(s, ready, n)
  {
    if n > 0 {
      CountFrame(s, s', ready, n - 1);
    }
  }

  lemma {:induction false} CountDrops(s: State, s': State, ready: Readiness, n: nat, k: nat)
    requires k < n <= |s.issued| && n <= |s'.issued| && s'.now == s.now
    requires forall i :: 0 <= i < n ==> s'.issued[i] == s.issued[i] && (Waits(s', i) ==> Waits(s, i))
    requires Waits(s, k) && ready(s.issued[k], s.now) && !Waits(s', k)
    ensures ReadyCount(s', ready, n) < ReadyCount(s, ready, n)
  {
    if k == n - 1 {
      CountFrame(s, s', ready, n - 1);
    } else {
      CountDrops(s, s', ready, n - 1, k);
    }
  }

  lemma ActCalmly(s: State, a: Action, ready: Readiness)
    requires Sized(s) && s.dispatching && !Immediate(a, s.now, ready)
    ensures var s' := Act(s, a);
            && Sized(s') && s'.dispatching && s'.now == s.now && s'.log == s.log && |s'.issued| >= |s.issued|
            && ReadyCount(s', ready, |s'.issued|) <= ReadyCount(s, ready, |s.issued|)
  {
    var s' := Act(s, a);
    CountFrame(s, s', ready, |s.issued|);
  }

  lemma {:induction false} ActAllCalmly(s: State, actions: seq<Action>, ready: Readiness)
    requires Sized(s) && s.dispatching && CalmActions(actions, s.now, ready)
    ensures var s' := ActAll(s, actions);
            && Sized(s') && s'.dispatching && s'.now == s.now && s'.log == s.log
            && ReadyCount(s', ready, |s'.issued|) <= ReadyCount(s, ready, |s.issued|)
    decreases |actions|
  {
    if actions != [] {
      ActCalmly(s, actions[0], ready);
      ActAllCalmly(Act(s, actions[0]), actions[1..], ready);
    }
  }

  lemma FiringProgress(s: State, ready: Readiness, react: React)
    requires Sized(s) && s.dispatching && Calm(react, s.now, ready)
    requires Earliest(s, ready) < |s.issued|
    ensures var s' := FireEarliest(s, ready, react);
            && Sized(s') && s'.dispatching && s'.now == s.now
            && ReadyCount(s', ready, |s'.issued|) < ReadyCount(s, ready, |s.issued|)
  {
    var k := Earliest(s, ready);
    var fired := MarkFired(s, k);
    CountDrops(s, fired, ready, |s.issued|, k);
    assert CalmActions(react(Heard(fired)), s.now, ready);
    ActAllCalmly(fired, react(Heard(fired)), ready);
  }

  // Callbacks that arm no timer which is ready at once let the dispatch end.
  lemma {:induction false} CalmEnds(s: State, ready: Readiness, react: React) returns (n: nat)
    requires Sized(s) && s.dispatching && Calm(react, s.now, ready)
    ensures Idle(Firings(s, ready, react, n), ready)
    decreases ReadyCount(s, ready, |s.issued|)
  {
    if Idle(s, ready) {
      n := 0;
    } else {
      FiringProgress(s, ready, react);
      var m := CalmEnds(FireEarliest(s, ready, react), ready, react);
      n := m + 1;
    }
  }

  // ---- When a timer becomes ready ----

  // The wheel looks at a timer when the slot of its deadline comes round.
  predicate Ready(t: Timer, now: nat, slots: nat)
    requires 0 < slots
  {
    (t.due % W) % slots == now % slots && t.due % W <= now % W
  }

  function Wheel(slots: nat): Readiness {
    (t: Timer, now: nat) => 0 < slots && Ready(t, now, slots)
  }

  // The first tick after arming that looks at the timer's slot.
  function FirstVisit(t: Timer, slots: nat): nat
    requires 0 < slots && t.born < t.due
  {
    t.born + 1 + (t.due - t.born - 1) % slots
  }

  // Deadline and time compare rightly from the first visit on exactly when no
  // multiple of 2^32 lies after it and up to the due tick.
  predicate OnTime(t: Timer, slots: nat)
    requires 0 < slots && t.born < t.due
  {
    FirstVisit(t, slots) / W == t.due / W
  }

  function FiresAt(t: Timer, slots: nat): nat
    requires 0 < slots && t.born < t.due
  {
    if OnTime(t, slots) then t.due else FirstVisit(t, slots)
  }

  // A callback's own timer can be ready at the tick at which it is armed.
  function FiresWhen(t: Timer, slots: nat): nat
    requires 0 < slots && t.born < t.due
  {
    if t.inside && Ready(t, t.born, slots) then t.born else FiresAt(t, slots)
  }

  lemma SlotOfDeadline(due: nat, slots: nat)
    requires 0 < slots && W % slots == 0
    ensures (due % W) % slots == due % slots
  {
    var q := (due / W) * (W / slots);
    assert due == (due / W) * W + due % W;
    assert W == (W / slots) * slots;
    MulAssoc(due / W, W / slots, slots);
    assert due == q * slots + due % W;
    DivModUnique(due, slots, q + (due % W) / slots, (due % W) % slots) by {
      Distribute(q, (due % W) / slots, slots);
    }
  }

  lemma MulAssoc(a: int, b: int, c: int)
    ensures a * (b * c) == (a * b) * c
  {
  }

  lemma Distribute(a: int, b: int, c: int)
    ensures (a + b) * c == a * c + b * c
  {
  }

  // Visits come one round apart, and the due tick is one of them.
  lemma Visits(t: Timer, u: nat, slots: nat)
    requires 0 < slots && W % slots == 0 && t.born < t.due && t.born < u
    ensures FirstVisit(t, slots) <= t.due && t.born < FirstVisit(t, slots)
    ensures (t.due % W) % slots == FirstVisit(t, slots) % slots
    ensures (t.due % W) % slots == u % slots ==> FirstVisit(t, slots) <= u
  {
    SlotOfDeadline(t.due, slots);
    var v, d := FirstVisit(t, slots), t.due - t.born - 1;
    AddMod(d, t.born + 1, slots);
    if d % slots > d {
      assert d < slots;
      DivModUnique(d, slots, 0, d);
    }
    if u % slots == v % slots && u < v {
      WindowApart(slots, u, v);
    }
  }

  lemma SameEpoch(a: nat, b: nat)
    requires a < b && a / W == b / W
    ensures a % W < b % W
  {
  }

  lemma NextEpoch(a: nat, b: nat)
    requires a <= b < a + W && a / W != b / W
    ensures b % W < a % W
  {
  }

  // A timer is first ready at FiresAt: at its due tick, if it is on time, and
  // otherwise too early, at its first visit.
  lemma FirstReady(t: Timer, slots: nat)
    requires 0 < slots && W % slots == 0 && t.born < t.due < t.born + W
    ensures t.born < FiresAt(t, slots) <= t.due
    ensures Ready(t, FiresAt(t, slots), slots) && Ready(t, t.due, slots)
    ensures forall u :: t.born < u < FiresAt(t, slots) ==> !Ready(t, u, slots)
    ensures FiresAt(t, slots) == t.due <==> forall u :: t.born < u < t.due ==> !Ready(t, u, slots)
    ensures FiresAt(t, slots) < t.due <==> !OnTime(t, slots)
  {
    var v := FirstVisit(t, slots);
    SlotOfDeadline(t.due, slots);
    Visits(t, t.due, slots);
    if !OnTime(t, slots) {
      NextEpoch(v, t.due);
    }
    forall u | t.born < u < FiresAt(t, slots)
      ensures !Ready(t, u, slots)
    {
      Visits(t, u, slots);
      if OnTime(t, slots) && v <= u {
        Between(v, u, t.due);
        SameEpoch(u, t.due);
      }
    }
    assert FiresAt(t, slots) < t.due ==> Ready(t, v, slots);
  }

  lemma Between(a: nat, u: nat, b: nat)
    requires a <= u <= b && a / W == b / W
    ensures u / W == b / W
  {
  }

  // ---- Runs ----

  predicate Armed(t: Timer) {
    t.born < t.due < t.born + W
  }

  // The first tick at which the wheel may fire a timer.
  function From(t: Timer): nat {
    if t.inside then t.born else t.born + 1
  }

  // fires(t) is the first tick from then on at which the timer is ready.
  ghost predicate FirstAt(t: Timer, ready: Readiness, fires: Timer -> nat) {
    && From(t) <= fires(t) <= t.due && ready(t, fires(t))
    && forall u: nat :: From(t) <= u < fires(t) ==> !ready(t, u)
  }

  ghost predicate Clock(ready: Readiness, fires: Timer -> nat) {
    forall t :: Armed(t) ==> FirstAt(t, ready, fires)
  }

  datatype Op = Do(action: Action) | Tick(react: React)

  ghost predicate EndsOp(s: State, op: Op, ready: Readiness) {
    op.Tick? ==> Ends(Later(s), ready, op.react)
  }

  ghost function Next(s: State, op: Op, ready: Readiness): State
    requires EndsOp(s, op, ready)
  {
    match op
    case Do(a) => Act(s, a)
    case Tick(react) => Ticked(s, ready, react)
  }

  // The run of the operations leads from s to s', each of its dispatches ending.
  ghost predicate Runs(s: State, ops: seq<Op>, ready: Readiness, s': State)
    decreases |ops|
  {
    if ops == [] then s' == s
    else EndsOp(s, ops[0], ready) && Runs(Next(s, ops[0], ready), ops[1..], ready, s')
  }

  lemma {:induction false} RunsAppend(s: State, ops: seq<Op>, ready: Readiness, s': State, op: Op)
    requires Runs(s, ops, ready, s') && EndsOp(s', op, ready)
    ensures Runs(s, ops + [op], ready, Next(s', op, ready))
    decreases |ops|
  {
    if ops == [] {
      assert (ops + [op])[1..] == [];
    } else {
      assert (ops + [op])[1..] == ops[1..] + [op];
      RunsAppend(Next(s, ops[0], ready), ops[1..], ready, s', op);
    }
  }

  // During a dispatch, timers that fire at this tick may still wait, and those
  // armed at this tick are its callbacks'.
  ghost predicate Timely(s: State, k: nat, ready: Readiness, fires: Timer -> nat)
    requires k < |s.issued| && k < |s.outcome|
  {
    var t := s.issued[k];
    && Armed(t) && t.born <= s.now
    && match s.outcome[k]
       case Waiting => if s.dispatching then s.now <= fires(t) && (t.born == s.now ==> t.inside) else s.now < fires(t)
       case Fired(at) => at == fires(t) <= s.now
       case Cancelled(at) => at <= fires(t) && at <= s.now
  }

  ghost predicate AllTimely(s: State, ready: Readiness, fires: Timer -> nat) {
    Sized(s) && forall k :: 0 <= k < |s.issued| ==> Timely(s, k, ready, fires)
  }

  // The log lists what has fired by tick, and within a tick as armed.
  ghost predicate LogOk(s: State) {
    && Sized(s)
    && (forall i :: 0 <= i < |s.log| ==> s.log[i] < |s.outcome| && s.outcome[s.log[i]].Fired? && s.outcome[s.log[i]].at <= s.now)
    && (forall i, j :: 0 <= i < j < |s.log| ==> Precedes(s, s.log[i], s.log[j]))
    && (forall k :: 0 <= k < |s.outcome| && s.outcome[k].Fired? ==> k in s.log)
  }

  predicate Precedes(s: State, a: nat, b: nat)
    requires a < |s.outcome| && s.outcome[a].Fired? && b < |s.outcome| && s.outcome[b].Fired?
  {
    s.outcome[a].at < s.outcome[b].at || (s.outcome[a].at == s.outcome[b].at && a < b)
  }

  // During a dispatch, what is still to fire was armed later than all that has
  // fired at this tick.
  ghost predicate LogBefore(s: State, ready: Readiness) {
    && LogOk(s)
    && forall i, k :: 0 <= i < |s.log| && s.outcome[s.log[i]].at == s.now && Waits(s, k) && ready(s.issued[k], s.now) ==>
         s.log[i] < k
  }

  ghost predicate OneTimerPerNode(s: State) {
    forall i, j :: 0 <= i < j && Waits(s, i) && Waits(s, j) ==> s.issued[i].id != s.issued[j].id
  }

  ghost predicate Inv(s: State, ready: Readiness, fires: Timer -> nat) {
    && AllTimely(s, ready, fires) && OneTimerPerNode(s)
    && if s.dispatching then LogBefore(s, ready) else LogOk(s)
  }

  lemma ActKeepsTimely(s: State, a: Action, ready: Readiness, fires: Timer -> nat)
    requires Clock(ready, fires) && AllTimely(s, ready, fires)
    ensures AllTimely(Act(s, a), ready, fires)
  {
    var s' := Act(s, a);
    if a.Schedule? && s' != s {
      assert Armed(s'.issued[|s.issued|]) && FirstAt(s'.issued[|s.issued|], ready, fires);
    }
    forall k | 0 <= k < |s'.issued|
      ensures Timely(s', k, ready, fires)
    {
      assert k < |s.issued| ==> Timely(s, k, ready, fires);
    }
  }

  lemma ActKeepsInv(s: State, a: Action, ready: Readiness, fires: Timer -> nat)
    requires Clock(ready, fires) && Inv(s, ready, fires)
    ensures Inv(Act(s, a), ready, fires) && Act(s, a).now == s.now && Act(s, a).log == s.log
    ensures Act(s, a).dispatching == s.dispatching
  {
    ActKeepsTimely(s, a, ready, fires);
    ActKeepsOne(s, a);
    ActKeepsLog(s, a);
    if s.dispatching {
      assert forall k :: Waits(Act(s, a), k) && k < |s.issued| ==> Waits(s, k);
    }
  }

  lemma ActKeepsOne(s: State, a: Action)
    requires Sized(s) && OneTimerPerNode(s)
    ensures OneTimerPerNode(Act(s, a))
  {
  }

  lemma ActKeepsLog(s: State, a: Action)
    requires LogOk(s)
    ensures LogOk(Act(s, a)) && Act(s, a).log == s.log
    ensures forall k :: k in s.log ==> k < |s.outcome| && Act(s, a).outcome[k] == s.outcome[k]
  {
    var s' := Act(s, a);
    ActKeepsFired(s, a);
    forall i | 0 <= i < |s.log|
      ensures s'.outcome[s.log[i]] == s.outcome[s.log[i]]
    {
      assert s.log[i] in s.log;
    }
    assert forall i, j :: 0 <= i < j < |s.log| ==> Precedes(s, s.log[i], s.log[j]) && Precedes(s', s.log[i], s.log[j]);
  }

  // An action does not touch what has fired.
  lemma ActKeepsFired(s: State, a: Action)
    requires LogOk(s)
    ensures |Act(s, a).outcome| >= |s.outcome|
    ensures forall k :: 0 <= k < |Act(s, a).outcome| ==>
              (Act(s, a).outcome[k].Fired? <==> k < |s.outcome| && s.outcome[k].Fired?)
    ensures forall k :: k in s.log ==> k < |s.outcome| && Act(s, a).outcome[k] == s.outcome[k]
  {
  }

  lemma {:induction false} ActAllKeepsInv(s: State, actions: seq<Action>, ready: Readiness, fires: Timer -> nat)
    requires Clock(ready, fires) && Inv(s, ready, fires)
    ensures Inv(ActAll(s, actions), ready, fires) && ActAll(s, actions).now == s.now
    ensures ActAll(s, actions).dispatching == s.dispatching
    decreases |actions|
  {
    if actions != [] {
      ActKeepsInv(s, actions[0], ready, fires);
      ActAllKeepsInv(Act(s, actions[0]), actions[1..], ready, fires);
    }
  }

  lemma FiringKeepsInv(s: State, ready: Readiness, fires: Timer -> nat, react: React)
    requires Clock(ready, fires) && Inv(s, ready, fires) && s.dispatching && !Idle(s, ready)
    ensures var s' := FireEarliest(s, ready, react);
            Inv(s', ready, fires) && s'.now == s.now && s'.dispatching
  {
    var k := Earliest(s, ready);
    var fired := MarkFired(s, k);
    MarkTimely(s, ready, fires, k);
    MarkLogged(s, ready, k);
    ActAllKeepsInv(fired, react(Heard(fired)), ready, fires);
  }

  lemma MarkTimely(s: State, ready: Readiness, fires: Timer -> nat, k: nat)
    requires Clock(ready, fires) && AllTimely(s, ready, fires) && s.dispatching
    requires Waits(s, k) && ready(s.issued[k], s.now)
    ensures AllTimely(MarkFired(s, k), ready, fires)
  {
    var fired := MarkFired(s, k);
    assert Timely(s, k, ready, fires);
    assert FirstAt(s.issued[k], ready, fires);
    forall j | 0 <= j < |s.issued|
      ensures Timely(fired, j, ready, fires)
    {
      assert Timely(s, j, ready, fires);
    }
  }

  lemma MarkLogged(s: State, ready: Readiness, k: nat)
    requires LogBefore(s, ready) && k == Earliest(s, ready) < |s.issued|
    ensures LogBefore(MarkFired(s, k), ready)
  {
    var fired := MarkFired(s, k);
    MarkOrdered(s, k);
    assert forall i :: 0 <= i < |fired.log| ==> if i < |s.log| then fired.log[i] == s.log[i] && s.log[i] != k else fired.log[i] == k;
    forall j | 0 <= j < |fired.outcome| && fired.outcome[j].Fired?
      ensures j in fired.log
    {
      assert fired.log[|s.log|] == k;
      assert j != k ==> j in s.log;
    }
  }

  lemma MarkOrdered(s: State, k: nat)
    requires LogOk(s) && Waits(s, k)
    requires forall i :: 0 <= i < |s.log| && s.outcome[s.log[i]].at == s.now ==> s.log[i] < k
    ensures var fired := MarkFired(s, k);
            && (forall i :: 0 <= i < |fired.log| ==> fired.log[i] < |fired.outcome| && fired.outcome[fired.log[i]].Fired?)
            && (forall i, j :: 0 <= i < j < |fired.log| ==> Precedes(fired, fired.log[i], fired.log[j]))
  {
    var fired := MarkFired(s, k);
    assert forall i :: 0 <= i < |fired.log| ==> if i < |s.log| then fired.log[i] == s.log[i] && s.log[i] != k else fired.log[i] == k;
    forall i, j | 0 <= i < j < |fired.log|
      ensures Precedes(fired, fired.log[i], fired.log[j])
    {
      assert j < |s.log| ==> Precedes(s, s.log[i], s.log[j]);
    }
  }

  lemma {:induction false} FiringsKeepInv(s: State, ready: Readiness, fires: Timer -> nat, react: React, n: nat)
    requires Clock(ready, fires) && Inv(s, ready, fires) && s.dispatching
    ensures var s' := Firings(s, ready, react, n);
            Inv(s', ready, fires) && s'.now == s.now && s'.dispatching
    decreases n
  {
    if n > 0 {
      if Idle(s, ready) {
        IdleDispatch(s, ready, react, n);
      } else {
        FiringKeepsInv(s, ready, fires, react);
        FiringsKeepInv(FireEarliest(s, ready, react), ready, fires, react, n - 1);
      }
    }
  }

  lemma IdleInv(s: State, ready: Readiness, fires: Timer -> nat)
    requires Clock(ready, fires) && Inv(s, ready, fires) && s.dispatching && Idle(s, ready)
    ensures Inv(AtRest(s), ready, fires)
  {
    var s' := AtRest(s);
    forall k | 0 <= k < |s.issued|
      ensures Timely(s', k, ready, fires)
    {
      assert Timely(s, k, ready, fires);
      assert FirstAt(s.issued[k], ready, fires);
      assert Waits(s, k) ==> !ready(s.issued[k], s.now);
    }
    assert forall i, j :: 0 <= i < j < |s.log| ==> Precedes(s, s.log[i], s.log[j]) && Precedes(s', s.log[i], s.log[j]);
    assert forall i, j :: Waits(s', i) && Waits(s', j) ==> Waits(s, i) && Waits(s, j);
  }

  // A dispatch that ends keeps every timer timely and the log in order, whatever
  // its callbacks arm.
  lemma DispatchKeepsInv(s: State, ready: Readiness, fires: Timer -> nat, react: React)
    requires Clock(ready, fires) && Inv(s, ready, fires) && s.dispatching && Ends(s, ready, react)
    ensures Inv(AtRest(Dispatched(s, ready, react)), ready, fires) && Dispatched(s, ready, react).now == s.now
  {
    var n: nat :| Idle(Firings(s, ready, react, n), ready);
    DispatchedAfter(s, ready, react, n);
    FiringsKeepInv(s, ready, fires, react, n);
    IdleInv(Firings(s, ready, react, n), ready, fires);
  }

  lemma TickBegins(s: State, ready: Readiness, fires: Timer -> nat)
    requires Inv(s, ready, fires) && !s.dispatching
    ensures Inv(Later(s), ready, fires)
  {
    var s1 := Later(s);
    forall k | 0 <= k < |s.issued|
      ensures Timely(s1, k, ready, fires)
    {
      assert Timely(s, k, ready, fires);
    }
    assert forall i, j :: 0 <= i < j < |s.log| ==> Precedes(s, s.log[i], s.log[j]) && Precedes(s1, s.log[i], s.log[j]);
  }

  lemma NextKeepsInv(s: State, op: Op, ready: Readiness, fires: Timer -> nat)
    requires Clock(ready, fires) && Inv(s, ready, fires) && !s.dispatching && EndsOp(s, op, ready)
    ensures Inv(Next(s, op, ready), ready, fires) && !Next(s, op, ready).dispatching
    ensures Next(s, op, ready).now == if op.Tick? then s.now + 1 else s.now
  {
    match op
    case Do(a) => ActKeepsInv(s, a, ready, fires);
    case Tick(react) =>
      TickBegins(s, ready, fires);
      DispatchKeepsInv(Later(s), ready, fires, react);
  }

  lemma {:induction false} RunsKeepInv(s: State, ops: seq<Op>, ready: Readiness, fires: Timer -> nat, s': State)
    requires Clock(ready, fires) && Inv(s, ready, fires) && !s.dispatching && Runs(s, ops, ready, s')
    ensures Inv(s', ready, fires) && !s'.dispatching
    decreases |ops|
  {
    if ops != [] {
      NextKeepsInv(s, ops[0], ready, fires);
      RunsKeepInv(Next(s, ops[0], ready), ops[1..], ready, fires, s');
    }
  }

  function FiringTicks(slots: nat): Timer -> nat {
    (t: Timer) => if 0 < slots && t.born < t.due then FiresWhen(t, slots) else 0
  }

  lemma WheelClock(slots: nat)
    requires 0 < slots && W % slots == 0
    ensures Clock(Wheel(slots), FiringTicks(slots))
  {
    forall t | Armed(t)
      ensures FirstAt(t, Wheel(slots), FiringTicks(slots))
    {
      FirstReady(t, slots);
    }
  }

  lemma InitInv(callable: seq<bool>, slots: nat)
    requires 0 < slots
    ensures Inv(Init(callable), Wheel(slots), FiringTicks(slots))
  {
  }

  // Exactness, over every run whose dispatches end: a timer fires once, at
  // FiresWhen, unless it is cancelled before. That is the tick at which it was
  // armed exactly when a callback armed it and it was ready at once, and
  // otherwise FiresAt; and that is its due tick exactly when it is on time.
  lemma TimersExact(callable: seq<bool>, ops: seq<Op>, slots: nat, s: State, k: nat)
    requires 0 < slots && W % slots == 0 && Runs(Init(callable), ops, Wheel(slots), s)
    requires k < |s.issued|
    ensures var t := s.issued[k];
            && k < |s.outcome| && t.born < t.due && t.born <= s.now
            && (s.outcome[k].Waiting? ==> s.now < FiresWhen(t, slots))
            && (s.outcome[k].Fired? ==> s.outcome[k].at == FiresWhen(t, slots))
            && (s.outcome[k].Cancelled? ==> s.outcome[k].at <= FiresWhen(t, slots))
            && (FiresWhen(t, slots) == t.born <==> t.inside && Ready(t, t.born, slots))
            && (FiresWhen(t, slots) != t.born ==> FiresWhen(t, slots) == FiresAt(t, slots))
            && (OnTime(t, slots) <==> FiresAt(t, slots) == t.due)
            && (k in s.log <==> s.outcome[k].Fired?)
  {
    WheelClock(slots);
    InitInv(callable, slots);
    RunsKeepInv(Init(callable), ops, Wheel(slots), FiringTicks(slots), s);
    assert Timely(s, k, Wheel(slots), FiringTicks(slots));
    FirstReady(s.issued[k], slots);
  }

  // Timers fire in the order of their ticks and, at the same tick, in the
  // order they were armed; so none fires twice.
  lemma FiringOrder(callable: seq<bool>, ops: seq<Op>, slots: nat, s: State, i: nat, j: nat)
    requires 0 < slots && W % slots == 0 && Runs(Init(callable), ops, Wheel(slots), s)
    requires i < j < |s.log|
    ensures s.log[i] != s.log[j] && s.log[i] < |s.issued| && s.log[j] < |s.issued|
    ensures var t, u := s.issued[s.log[i]], s.issued[s.log[j]];
            && t.born < t.due && u.born < u.due
            && FiresWhen(t, slots) <= FiresWhen(u, slots)
            && (FiresWhen(t, slots) == FiresWhen(u, slots) ==> s.log[i] < s.log[j])
  {
    WheelClock(slots);
    InitInv(callable, slots);
    RunsKeepInv(Init(callable), ops, Wheel(slots), FiringTicks(slots), s);
    assert Precedes(s, s.log[i], s.log[j]);
    assert Timely(s, s.log[i], Wheel(slots), FiringTicks(slots));
    assert Timely(s, s.log[j], Wheel(slots), FiringTicks(slots));
  }

  // ---- A timer that fires early ----

  // Callbacks that do nothing.
  function Passive(): React {
    heard => []
  }

  // A passive dispatch arms and cancels nothing.
  ghost predicate Undisturbed(s: State, s': State) {
    && s'.callable == s.callable && s'.issued == s.issued && |s'.outcome| == |s.outcome| && s'.now == s.now
    && forall k :: 0 <= k < |s.outcome| && !s.outcome[k].Cancelled? ==> !s'.outcome[k].Cancelled?
  }

  lemma {:induction false} PassiveFirings(s: State, ready: Readiness, n: nat)
    requires Sized(s)
    ensures Undisturbed(s, Firings(s, ready, Passive(), n))
    decreases n
  {
    if n > 0 {
      if Idle(s, ready) {
        IdleDispatch(s, ready, Passive(), n);
      } else {
        var s1 := FireEarliest(s, ready, Passive());
        assert s1 == MarkFired(s, Earliest(s, ready));
        PassiveFirings(s1, ready, n - 1);
      }
    }
  }

  lemma PassiveTick(s: State, ready: Readiness)
    requires Sized(s)
    ensures Ends(Later(s), ready, Passive()) && Undisturbed(Later(s), Ticked(s, ready, Passive()))
  {
    var n := CalmEnds(Later(s), ready, Passive());
    DispatchedAfter(Later(s), ready, Passive(), n);
    PassiveFirings(Later(s), ready, n);
  }

  // n more ticks of a run, without actions.
  lemma {:induction false} PassiveTicks(s0: State, ops: seq<Op>, ready: Readiness, s: State, n: nat) returns (ops': seq<Op>, s': State)
    requires Runs(s0, ops, ready, s) && Sized(s) && !s.dispatching
    ensures Runs(s0, ops', ready, s') && !s'.dispatching
    ensures Undisturbed(s.(now := s.now + n), s')
    decreases n
  {
    if n == 0 {
      ops', s' := ops, s;
    } else {
      var ops1, s1 := PassiveTicks(s0, ops, ready, s, n - 1);
      var tick := Op.Tick(Passive());
      PassiveTick(s1, ready);
      RunsAppend(s0, ops1, ready, s1, tick);
      ops', s' := ops1 + [tick], Next(s1, tick, ready);
    }
  }

  // On a wheel of 16 slots, a timer armed 32 ticks before the count wraps, for
  // 48 ticks on, fires after 16: here is the run.
  lemma EarlyExample() returns (ops: seq<Op>, s: State)
    ensures Runs(Init([true]), ops, Wheel(16), s)
    ensures s.issued == [Timer(0, 0xFFFF_FFE0, 0x1_0000_0010, false)] && s.outcome == [Fired(0xFFFF_FFF0)]
  {
    var s0, ready := Init([true]), Wheel(16);
    var ops1, s1 := PassiveTicks(s0, [], ready, s0, 0xFFFF_FFE0);
    var arm := Do(Schedule(0, 48));
    RunsAppend(s0, ops1, ready, s1, arm);
    var s2 := Next(s1, arm, ready);
    assert s2.issued == [Timer(0, 0xFFFF_FFE0, 0x1_0000_0010, false)] && s2.outcome == [Waiting];
    ops, s := PassiveTicks(s0, ops1 + [arm], ready, s2, 16);
    TimersExact([true], ops, 16, s, 0);
    assert FiresWhen(s.issued[0], 16) == 0xFFFF_FFF0;
  }

  // ---- Callbacks that rearm at once ----

  // The callback of one node arms it again; others do nothing.
  function Rearm(id: nat, period: Uint32): React {
    heard => if heard != [] && heard[|heard| - 1] == id then [Schedule(id, period)] else []
  }

  // The node's timer waits and is ready.
  predicate ReadyNode(s: State, id: nat, ready: Readiness) {
    var k := TimerOf(s, id);
    k < |s.issued| && ready(s.issued[k], s.now)
  }

  ghost predicate Dispatching(s: State, id: nat) {
    Sized(s) && OneTimerPerNode(s) && s.dispatching && id < |s.callable| && s.callable[id]
  }

  lemma ReadyNodeAt(s: State, id: nat, ready: Readiness, k: nat)
    requires OneTimerPerNode(s) && Waits(s, k) && s.issued[k].id == id
    ensures TimerOf(s, id) == k && (ReadyNode(s, id, ready) <==> ready(s.issued[k], s.now))
  {
  }

  // One firing, of that node or of another one.
  lemma RearmFires(s: State, id: nat, period: Uint32, ready: Readiness)
    requires Dispatching(s, id) && period > 0 && !Idle(s, ready)
    ensures var k := Earliest(s, ready);
            var s', fired := FireEarliest(s, ready, Rearm(id, period)), MarkFired(s, k);
            s' == if s.issued[k].id == id then Act(fired, Schedule(id, period)) else fired
  {
    var k := Earliest(s, ready);
    var act, fired := Schedule(id, period), MarkFired(s, k);
    var heard := Heard(fired);
    assert heard[|heard| - 1] == s.issued[k].id;
    assert [act][1..] == [];
    assert ActAll(fired, [act]) == ActAll(Act(fired, act), []) == Act(fired, act);
  }

  lemma RearmStep(s: State, id: nat, period: Uint32, ready: Readiness)
    requires Dispatching(s, id) && period > 0 && !Idle(s, ready)
    ensures var k, s' := Earliest(s, ready), FireEarliest(s, ready, Rearm(id, period));
            && Dispatching(s', id) && s'.now == s.now && s'.log == s.log + [k] && s.issued <= s'.issued
            && (ReadyNode(s', id, ready) <==>
                if s.issued[k].id == id then Immediate(Schedule(id, period), s.now, ready) else ReadyNode(s, id, ready))
  {
    var k := Earliest(s, ready);
    var fired, s' := MarkFired(s, k), FireEarliest(s, ready, Rearm(id, period));
    RearmFires(s, id, period, ready);
    assert forall i :: Waits(fired, i) <==> Waits(s, i) && i != k;
    if s.issued[k].id == id {
      assert TimerOf(fired, id) == |fired.issued|;
      ActKeepsOne(fired, Schedule(id, period));
      ReadyNodeAt(s', id, ready, |s.issued|);
    } else if TimerOf(s, id) < |s.issued| {
      ReadyNodeAt(fired, id, ready, TimerOf(s, id));
    }
  }

  // Whether the node's timer has fired since the log had a given length.
  predicate FiredSince(s: State, from: nat, id: nat) {
    exists i :: from <= i < |s.log| && s.log[i] < |s.issued| && s.issued[s.log[i]].id == id
  }

  // What firings leave as it was.
  ghost predicate Continues(s: State, s': State, id: nat, ready: Readiness) {
    && Dispatching(s', id) && s'.now == s.now && s.log <= s'.log && s.issued <= s'.issued
    && (!ReadyNode(s, id, ready) ==> !ReadyNode(s', id, ready))
  }

  lemma RearmContinues(s: State, id: nat, period: Uint32, ready: Readiness)
    requires Dispatching(s, id) && period > 0 && !Idle(s, ready)
    ensures Continues(s, FireEarliest(s, ready, Rearm(id, period)), id, ready)
  {
    RearmStep(s, id, period, ready);
    if !ReadyNode(s, id, ready) {
      NotTheNode(s, id, ready);
    }
  }

  lemma {:induction false} RearmFirings(s: State, id: nat, period: Uint32, ready: Readiness, n: nat)
    requires Dispatching(s, id) && period > 0
    ensures Continues(s, Firings(s, ready, Rearm(id, period), n), id, ready)
    decreases n
  {
    if n > 0 {
      if Idle(s, ready) {
        IdleDispatch(s, ready, Rearm(id, period), n);
      } else {
        RearmContinues(s, id, period, ready);
        RearmFirings(FireEarliest(s, ready, Rearm(id, period)), id, period, ready, n - 1);
      }
    }
  }

  // A node that is not ready does not fire.
  lemma NotTheNode(s: State, id: nat, ready: Readiness)
    requires OneTimerPerNode(s) && !Idle(s, ready) && !ReadyNode(s, id, ready)
    ensures s.issued[Earliest(s, ready)].id != id
  {
    var k := Earliest(s, ready);
    if s.issued[k].id == id {
      ReadyNodeAt(s, id, ready, k);
    }
  }

  // The first of the firings is on record.
  lemma FirstOnRecord(s: State, id: nat, period: Uint32, ready: Readiness, n: nat)
    requires Dispatching(s, id) && period > 0 && !Idle(s, ready) && n > 0
    ensures var s' := Firings(s, ready, Rearm(id, period), n);
            FiredSince(s', |s.log|, id) <==> s.issued[Earliest(s, ready)].id == id || FiredSince(s', |s.log| + 1, id)
  {
    var k, s1 := Earliest(s, ready), FireEarliest(s, ready, Rearm(id, period));
    var s' := Firings(s, ready, Rearm(id, period), n);
    RearmStep(s, id, period, ready);
    RearmFirings(s1, id, period, ready, n - 1);
    assert s'.log[|s.log|] == s1.log[|s.log|] == k && s'.issued[k] == s.issued[k];
    FiredNext(s', |s.log|, id);
  }

  // The node is still ready in s' exactly when it has not fired since s or its
  // period is immediate.
  ghost predicate StillReadyIff(s: State, s': State, id: nat, period: Uint32, ready: Readiness) {
    ReadyNode(s', id, ready) <==> Immediate(Schedule(id, period), s.now, ready) || !FiredSince(s', |s.log|, id)
  }

  lemma FirstThenRest(s: State, s': State, id: nat, period: Uint32, ready: Readiness, n: nat)
    requires Dispatching(s, id) && period > 0 && !Idle(s, ready) && ReadyNode(s, id, ready) && n > 0
    requires s' == Firings(s, ready, Rearm(id, period), n)
    requires var s1 := FireEarliest(s, ready, Rearm(id, period));
             if ReadyNode(s1, id, ready) then StillReadyIff(s1, s', id, period, ready) else !ReadyNode(s', id, ready)
    ensures StillReadyIff(s, s', id, period, ready)
  {
    RearmStep(s, id, period, ready);
    FirstOnRecord(s, id, period, ready, n);
  }

  // What is claimed of n firings that lead from s to s'.
  ghost predicate Rearming(s: State, s': State, id: nat, period: Uint32, ready: Readiness, n: nat) {
    && Dispatching(s, id) && period > 0 && ReadyNode(s, id, ready)
    && s' == Firings(s, ready, Rearm(id, period), n)
  }

  // No further firing of the node follows.
  lemma RearmLast(s: State, s1: State, s': State, id: nat, period: Uint32, ready: Readiness, n: nat)
    requires Rearming(s, s', id, period, ready, n) && n > 0 && s1 == FireEarliest(s, ready, Rearm(id, period))
    requires Dispatching(s1, id) && !ReadyNode(s1, id, ready)
    ensures StillReadyIff(s, s', id, period, ready)
  {
    RearmFirings(s1, id, period, ready, n - 1);
    FirstThenRest(s, s', id, period, ready, n);
  }

  // The state after the first firing.
  lemma RearmFirst(s: State, id: nat, period: Uint32, ready: Readiness) returns (s1: State)
    requires Dispatching(s, id) && period > 0 && ReadyNode(s, id, ready)
    ensures s1 == FireEarliest(s, ready, Rearm(id, period)) && Dispatching(s1, id)
  {
    s1 := FireEarliest(s, ready, Rearm(id, period));
    RearmStep(s, id, period, ready);
  }

  lemma RearmNext(s: State, s': State, id: nat, period: Uint32, ready: Readiness, n: nat) returns (s1: State, again: bool)
    requires Rearming(s, s', id, period, ready, n)
    ensures again ==> n > 0 && Rearming(s1, s', id, period, ready, n - 1)
    ensures again && StillReadyIff(s1, s', id, period, ready) ==> StillReadyIff(s, s', id, period, ready)
    ensures !again ==> StillReadyIff(s, s', id, period, ready)
  {
    if n == 0 {
      NothingFired(s, id, period, ready);
      return s, false;
    }
    s1 := RearmFirst(s, id, period, ready);
    again := ReadyNode(s1, id, ready);
    if !again {
      RearmLast(s, s1, s', id, period, ready, n);
    } else if StillReadyIff(s1, s', id, period, ready) {
      FirstThenRest(s, s', id, period, ready, n);
    }
  }

  lemma NothingFired(s: State, id: nat, period: Uint32, ready: Readiness)
    requires ReadyNode(s, id, ready)
    ensures StillReadyIff(s, s, id, period, ready)
  {
  }

  // After any number of firings of a dispatch.
  lemma {:induction false} PeriodicDispatch(s: State, s': State, id: nat, period: Uint32, ready: Readiness, n: nat)
    requires Rearming(s, s', id, period, ready, n)
    ensures StillReadyIff(s, s', id, period, ready)
    decreases n
  {
    var s1, again := RearmNext(s, s', id, period, ready, n);
    if again {
      PeriodicDispatch(s1, s', id, period, ready, n - 1);
    }
  }

  lemma FiredNext(s: State, from: nat, id: nat)
    requires from < |s.log| && s.log[from] < |s.issued|
    ensures FiredSince(s, from, id) <==> s.issued[s.log[from]].id == id || FiredSince(s, from + 1, id)
  {
  }

  // So the dispatch ends exactly when the node is not ready or its period is not
  // immediate, whatever other timers wait.
  lemma PeriodicEnds(s: State, id: nat, period: Uint32, ready: Readiness)
    requires Dispatching(s, id) && period > 0
    ensures Ends(s, ready, Rearm(id, period)) <==> !(ReadyNode(s, id, ready) && Immediate(Schedule(id, period), s.now, ready))
  {
    if !Immediate(Schedule(id, period), s.now, ready) {
      var n := CalmEnds(s, ready, Rearm(id, period));
    } else if !ReadyNode(s, id, ready) {
      var n := UnreadyEnds(s, id, period, ready);
    } else {
      forall n: nat
        ensures !Idle(Firings(s, ready, Rearm(id, period), n), ready)
      {
        PeriodicDispatch(s, Firings(s, ready, Rearm(id, period), n), id, period, ready, n);
      }
    }
  }

  // A firing of another node leaves fewer timers ready.
  lemma UnreadyStep(s: State, id: nat, period: Uint32, ready: Readiness)
    requires Dispatching(s, id) && period > 0 && !ReadyNode(s, id, ready) && !Idle(s, ready)
    ensures var s' := FireEarliest(s, ready, Rearm(id, period));
            && Dispatching(s', id) && !ReadyNode(s', id, ready)
            && ReadyCount(s', ready, |s'.issued|) < ReadyCount(s, ready, |s.issued|)
  {
    var k := Earliest(s, ready);
    NotTheNode(s, id, ready);
    RearmFires(s, id, period, ready);
    RearmStep(s, id, period, ready);
    CountDrops(s, MarkFired(s, k), ready, |s.issued|, k);
  }

  lemma {:induction false} UnreadyEnds(s: State, id: nat, period: Uint32, ready: Readiness) returns (n: nat)
    requires Dispatching(s, id) && period > 0 && !ReadyNode(s, id, ready)
    ensures Idle(Firings(s, ready, Rearm(id, period), n), ready)
    decreases ReadyCount(s, ready, |s.issued|)
  {
    if Idle(s, ready) {
      n := 0;
    } else {
      UnreadyStep(s, id, period, ready);
      var m := UnreadyEnds(FireEarliest(s, ready, Rearm(id, period)), id, period, ready);
      n := m + 1;
    }
  }

  // On a wheel, a period is immediate exactly when it is a whole number of
  // rounds and carries the deadline past 2^32.
  lemma ImmediateIff(id: nat, period: Uint32, now: nat, slots: nat)
    requires 0 < slots && W % slots == 0
    ensures Immediate(Schedule(id, period), now, Wheel(slots)) <==> period > 0 && period % slots == 0 && now % W + period >= W
  {
    SlotOfDeadline(now + period, slots);
    WholeRounds(period, now, slots);
    if period > 0 {
      PastTheEnd(period, now);
    }
  }

  lemma WholeRounds(period: nat, now: nat, slots: nat)
    requires 0 < slots
    ensures (now + period) % slots == now % slots <==> period % slots == 0
  {
    if (now + period) % slots == now % slots {
      DivModUnique(period, slots, (now + period) / slots - now / slots, 0);
    }
    if period % slots == 0 {
      AddMod(period, now, slots);
    }
  }

  lemma PastTheEnd(period: Uint32, now: nat)
    requires period > 0
    ensures (now + period) % W <= now % W <==> now % W + period >= W
  {
  }
}
