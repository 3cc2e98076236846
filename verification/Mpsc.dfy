/** The multi-producer, single-consumer queue as interleaved atomic steps.

    Every step of a thread is one atomic access, or the begin or end of a
    payload copy, which takes time and leaves the payload torn in between. A
    schedule is any sequence of steps of any threads. */
module Mpsc {
  import opened Common
  import opened Modular

  // The sequence number and the payload of a cell. A payload that is None was
  // never written, is being written, or has been moved out.
  datatype Cell<V> = Cell(seqno: nat, data: Option<V>)

  // Where a producer is inside push; `spins` loads remain before it gives up.
  datatype Producer<V> =
    | Idle
    | Spinning(pos: nat, value: V, spins: nat)
    | Copying(pos: nat, value: V)
    | Copied(pos: nat, value: V)

  // Where the consumer is inside pop.
  datatype Consumer<V> =
    | Resting
    | Seeking(spins: nat)
    | Checking(spins: nat)
    | Moving
    | Moved(value: V)
    | Released(value: V)

  // What became of a ticket: still held by a producer, published, or given up.
  datatype Fate = Held(tid: nat) | Done | Abandoned

  datatype State<V> = State(
    cells: seq<Cell<V>>,
    enqueuePos: nat,
    dequeuePos: nat,
    producers: seq<Producer<V>>,
    consumer: Consumer<V>,
    // history: the value and the fate of each ticket, and the values popped
    claimed: seq<V>,
    fate: seq<Fate>,
    popped: seq<V>)

  datatype Action<V> =
    | Push(tid: nat, value: V, maxSpins: nat)   // fetch_add on the enqueue position
    | Load(tid: nat)                            // load the cell's sequence number
    | EndCopy(tid: nat)                         // the payload is in place
    | Publish(tid: nat)                         // store pos + 1, return ok
    | GiveUp(tid: nat)                          // return full
    | Pop(maxSpins: nat)                        // enter pop
    | Seek                                      // load the cell's sequence number
    | Check                                     // load the enqueue position
    | EndMove                                   // the payload has been moved out
    | Release                                   // store pos + capacity
    | Advance                                   // store the dequeue position, return ok
    | GiveUpPop                                 // return full

  datatype Response<V> = Nothing | PushOk(ticket: nat) | PushFull(ticket: nat) | PopOk(value: V) | PopEmpty | PopFull

  function Slot<V>(s: State<V>, pos: nat): (i: nat)
    requires s.cells != []
    ensures i < |s.cells|
  {
    pos % |s.cells|
  }

  function WithCell<V>(s: State<V>, pos: nat, c: Cell<V>): State<V>
    requires s.cells != []
  {
    s.(cells := s.cells[Slot(s, pos) := c])
  }

  function Init<V>(capacity: nat, producers: nat): State<V> {
    State(seq(capacity, i requires 0 <= i => Cell(i, None)), 0, 0, seq(producers, _ => Idle), Resting, [], [], [])
  }

  // One step; an action whose thread is elsewhere changes nothing.
  function Step<V>(s: State<V>, a: Action<V>): (State<V>, Response<V>)
    requires s.cells != []
  {
    match a
    case Push(t, v, n) =>
      if t < |s.producers| && s.producers[t].Idle? then
        (s.(enqueuePos := s.enqueuePos + 1, claimed := s.claimed + [v], fate := s.fate + [Held(t)],
            producers := s.producers[t := Spinning(s.enqueuePos, v, n)]), Nothing)
      else (s, Nothing)
    case Load(t) =>
      if t < |s.producers| && s.producers[t].Spinning? && s.producers[t].spins > 0 then
        var p := s.producers[t];
        var c := s.cells[Slot(s, p.pos)];
        if c.seqno == p.pos then
          (WithCell(s, p.pos, c.(data := None)).(producers := s.producers[t := Copying(p.pos, p.value)]), Nothing)
        else (s.(producers := s.producers[t := p.(spins := p.spins - 1)]), Nothing)
      else (s, Nothing)
    case EndCopy(t) =>
      if t < |s.producers| && s.producers[t].Copying? then
        var p := s.producers[t];
        var c := s.cells[Slot(s, p.pos)];
        (WithCell(s, p.pos, c.(data := Some(p.value))).(producers := s.producers[t := Copied(p.pos, p.value)]), Nothing)
      else (s, Nothing)
    case Publish(t) =>
      if t < |s.producers| && s.producers[t].Copied? && s.producers[t].pos < |s.fate| then
        var p := s.producers[t];
        var c := s.cells[Slot(s, p.pos)];
        (WithCell(s, p.pos, c.(seqno := p.pos + 1)).(producers := s.producers[t := Idle], fate := s.fate[p.pos := Done]), PushOk(p.pos))
      else (s, Nothing)
    case GiveUp(t) =>
      if t < |s.producers| && s.producers[t].Spinning? && s.producers[t].spins == 0 && s.producers[t].pos < |s.fate| then
        var p := s.producers[t];
        (s.(producers := s.producers[t := Idle], fate := s.fate[p.pos := Abandoned]), PushFull(p.pos))
      else (s, Nothing)
    case Pop(n) =>
      if s.consumer.Resting? then (s.(consumer := Seeking(n)), Nothing) else (s, Nothing)
    case Seek =>
      if s.consumer.Seeking? && s.consumer.spins > 0 then
        var seqno := s.cells[Slot(s, s.dequeuePos)].seqno;
        if seqno == s.dequeuePos + 1 then (s.(consumer := Moving), Nothing)
        else if seqno == s.dequeuePos then (s.(consumer := Checking(s.consumer.spins)), Nothing)
        else (s.(consumer := Seeking(s.consumer.spins - 1)), Nothing)
      else (s, Nothing)
    case Check =>
      if s.consumer.Checking? then
        if s.enqueuePos == s.dequeuePos then (s.(consumer := Resting), PopEmpty)
        else (s.(consumer := Seeking(if s.consumer.spins > 0 then s.consumer.spins - 1 else 0)), Nothing)
      else (s, Nothing)
    case EndMove =>
      var c := s.cells[Slot(s, s.dequeuePos)];
      if s.consumer.Moving? && c.data.Some? then
        (WithCell(s, s.dequeuePos, c.(data := None)).(consumer := Moved(c.data.value)), Nothing)
      else (s, Nothing)
    case Release =>
      if s.consumer.Moved? then
        var c := s.cells[Slot(s, s.dequeuePos)];
        (WithCell(s, s.dequeuePos, c.(seqno := s.dequeuePos + |s.cells|)).(consumer := Released(s.consumer.value)), Nothing)
      else (s, Nothing)
    case Advance =>
      if s.consumer.Released? then
        (s.(dequeuePos := s.dequeuePos + 1, consumer := Resting, popped := s.popped + [s.consumer.value]), PopOk(s.consumer.value))
      else (s, Nothing)
    case GiveUpPop =>
      if s.consumer.Seeking? && s.consumer.spins == 0 then (s.(consumer := Resting), PopFull) else (s, Nothing)
  }

  function Run<V>(s: State<V>, schedule: seq<Action<V>>): State<V>
    requires s.cells != []
    ensures Run(s, schedule).cells != []
    decreases |schedule|
  {
    if schedule == [] then s else Run(Step(s, schedule[0]).0, schedule[1..])
  }

  // ---- The invariant ----

  predicate Holds<V>(p: Producer<V>, pos: nat) {
    !p.Idle? && p.pos == pos
  }

  // Tickets below the base have been popped and their cells released.
  function Base<V>(s: State<V>): nat {
    if s.consumer.Released? then s.dequeuePos + 1 else s.dequeuePos
  }

  predicate Published<V>(s: State<V>, t: nat) {
    t < |s.fate| && s.fate[t] == Done
  }

  // One round of cells awaits the tickets from the base on.
  predicate Awaited<V>(s: State<V>, t: nat) {
    Base(s) <= t < Base(s) + |s.cells|
  }

  ghost predicate Tickets<V>(s: State<V>) {
    && |s.claimed| == |s.fate| == s.enqueuePos
    && Base(s) <= s.enqueuePos
    && (forall t :: 0 <= t < Base(s) ==> s.fate[t] == Done)
    && (forall t :: Base(s) + |s.cells| <= t < |s.fate| ==> s.fate[t] != Done)
    && (forall t :: 0 <= t < |s.fate| && s.fate[t].Held? ==>
          s.fate[t].tid < |s.producers| && Holds(s.producers[s.fate[t].tid], t))
    && (forall i :: 0 <= i < |s.producers| && !s.producers[i].Idle? ==>
          var p := s.producers[i];
          p.pos < |s.fate| && s.fate[p.pos] == Held(i) && s.claimed[p.pos] == p.value)
  }

  ghost predicate Cells<V>(s: State<V>) {
    && (forall t: nat {:trigger Awaited(s, t)} :: Awaited(s, t) ==>
          s.cells[Slot(s, t)].seqno == if Published(s, t) then t + 1 else t)
    && (forall t: nat {:trigger Awaited(s, t)} :: Awaited(s, t) && Published(s, t) && !(s.consumer.Moved? && t == s.dequeuePos) ==>
          t < |s.claimed| && s.cells[Slot(s, t)].data == Some(s.claimed[t]))
    && (forall i :: 0 <= i < |s.producers| && (s.producers[i].Copying? || s.producers[i].Copied?) ==>
          Awaited(s, s.producers[i].pos))
    && (forall i :: 0 <= i < |s.producers| && s.producers[i].Copied? ==>
          s.cells[Slot(s, s.producers[i].pos)].data == Some(s.producers[i].value))
  }

  ghost predicate Consuming<V>(s: State<V>) {
    && |s.popped| == s.dequeuePos <= |s.claimed|
    && s.popped == s.claimed[..s.dequeuePos]
    && (s.consumer.Moving? || s.consumer.Moved? || s.consumer.Released? ==> Published(s, s.dequeuePos))
    && (s.consumer.Moved? || s.consumer.Released? ==>
          s.dequeuePos < |s.claimed| && s.consumer.value == s.claimed[s.dequeuePos])
  }

  ghost predicate Inv<V>(s: State<V>) {
    2 <= |s.cells| && Tickets(s) && Cells(s) && Consuming(s)
  }

  // Awaited tickets are for different cells.
  lemma SlotsApart<V>(s: State<V>, t: nat, u: nat)
    requires s.cells != [] && Awaited(s, t) && Awaited(s, u) && t != u
    ensures Slot(s, t) != Slot(s, u)
  {
    if t < u {
      WindowApart(|s.cells|, t, u);
    } else {
      WindowApart(|s.cells|, u, t);
    }
  }

  lemma SlotsDistinct<V>(s: State<V>)
    requires s.cells != []
    ensures forall t: nat, u: nat {:trigger Awaited(s, t), Awaited(s, u)} ::
              Awaited(s, t) && Awaited(s, u) && t != u ==> Slot(s, t) != Slot(s, u)
  {
    forall t: nat, u: nat {:trigger Awaited(s, t), Awaited(s, u)} | Awaited(s, t) && Awaited(s, u) && t != u
      ensures Slot(s, t) != Slot(s, u)
    {
      SlotsApart(s, t, u);
    }
  }

  // The awaited ticket that uses the same cell as a given later one.
  lemma AwaitedHere<V>(s: State<V>, pos: nat) returns (t: nat)
    requires s.cells != [] && Base(s) <= pos
    ensures Awaited(s, t) && Slot(s, t) == Slot(s, pos)
    ensures t == pos || t + |s.cells| <= pos
  {
    t := FirstOfRound(Base(s), pos, |s.cells|);
  }

  // A producer sees its own number in its cell exactly when its ticket is
  // less than one round ahead of the consumer.
  lemma LoadMatches<V>(s: State<V>, tid: nat)
    requires Inv(s) && tid < |s.producers| && !s.producers[tid].Idle?
    ensures var pos := s.producers[tid].pos;
            s.cells[Slot(s, pos)].seqno == pos <==> pos < Base(s) + |s.cells|
    ensures Base(s) <= s.producers[tid].pos
  {
    var pos := s.producers[tid].pos;
    assert s.fate[pos] == Held(tid);
    var t := AwaitedHere(s, pos);
  }

  lemma PushKeepsInv<V>(s: State<V>, tid: nat, value: V, maxSpins: nat)
    requires Inv(s)
    ensures Inv(Step(s, Push(tid, value, maxSpins)).0)
  {
    var s' := Step(s, Push(tid, value, maxSpins)).0;
    if s' != s {
      PushKeepsCells(s, tid, value, maxSpins);
      assert s'.claimed[..s.dequeuePos] == s.claimed[..s.dequeuePos];
    }
  }

  lemma PushKeepsCells<V>(s: State<V>, tid: nat, value: V, maxSpins: nat)
    requires Inv(s) && tid < |s.producers| && s.producers[tid].Idle?
    ensures Cells(Step(s, Push(tid, value, maxSpins)).0)
  {
    var s' := Step(s, Push(tid, value, maxSpins)).0;
    assert forall t: nat :: Awaited(s', t) == Awaited(s, t) && Published(s', t) == Published(s, t) && Slot(s', t) == Slot(s, t);
  }

  lemma LoadKeepsInv<V>(s: State<V>, tid: nat)
    requires Inv(s)
    ensures Inv(Step(s, Load(tid)).0)
  {
    var s' := Step(s, Load(tid)).0;
    if s' != s {
      LoadKeepsCells(s, tid);
    }
  }

  lemma LoadKeepsCells<V>(s: State<V>, tid: nat)
    requires Inv(s) && tid < |s.producers| && s.producers[tid].Spinning?
    ensures Cells(Step(s, Load(tid)).0)
  {
    var s' := Step(s, Load(tid)).0;
    LoadMatches(s, tid);
    SlotsDistinct(s);
    assert forall t: nat :: Awaited(s', t) == Awaited(s, t) && Published(s', t) == Published(s, t) && Slot(s', t) == Slot(s, t);
  }

  lemma EndCopyKeepsInv<V>(s: State<V>, tid: nat)
    requires Inv(s)
    ensures Inv(Step(s, EndCopy(tid)).0)
  {
    var s' := Step(s, EndCopy(tid)).0;
    if s' != s {
      EndCopyKeepsCells(s, tid);
    }
  }

  lemma EndCopyKeepsCells<V>(s: State<V>, tid: nat)
    requires Inv(s) && tid < |s.producers| && s.producers[tid].Copying?
    ensures Cells(Step(s, EndCopy(tid)).0)
  {
    var s' := Step(s, EndCopy(tid)).0;
    SlotsDistinct(s);
    assert forall t: nat :: Awaited(s', t) == Awaited(s, t) && Published(s', t) == Published(s, t) && Slot(s', t) == Slot(s, t);
  }

  lemma PublishKeepsInv<V>(s: State<V>, tid: nat)
    requires Inv(s)
    ensures Inv(Step(s, Publish(tid)).0)
  {
    var s' := Step(s, Publish(tid)).0;
    if s' != s {
      PublishKeepsCells(s, tid);
    }
  }

  lemma PublishKeepsCells<V>(s: State<V>, tid: nat)
    requires Inv(s) && tid < |s.producers| && s.producers[tid].Copied?
    ensures Cells(Step(s, Publish(tid)).0)
  {
    var s', pos := Step(s, Publish(tid)).0, s.producers[tid].pos;
    SlotsDistinct(s);
    assert forall t: nat :: Awaited(s', t) == Awaited(s, t) && Slot(s', t) == Slot(s, t);
    assert forall t: nat :: Published(s', t) == (Published(s, t) || t == pos);
  }

  lemma GiveUpKeepsInv<V>(s: State<V>, tid: nat)
    requires Inv(s)
    ensures Inv(Step(s, GiveUp(tid)).0)
  {
    var s' := Step(s, GiveUp(tid)).0;
    if s' != s {
      assert forall t: nat :: Awaited(s', t) == Awaited(s, t) && Published(s', t) == Published(s, t) && Slot(s', t) == Slot(s, t);
    }
  }

  lemma ConsumerKeepsInv<V>(s: State<V>, a: Action<V>)
    requires Inv(s) && (a.Pop? || a.Seek? || a.Check? || a.GiveUpPop?)
    ensures Inv(Step(s, a).0)
  {
    var s' := Step(s, a).0;
    ConsumerKeepsCells(s, a);
    if a.Seek? && s.consumer.Seeking? {
      assert Awaited(s, s.dequeuePos);
    }
  }

  lemma ConsumerKeepsCells<V>(s: State<V>, a: Action<V>)
    requires Inv(s) && (a.Pop? || a.Seek? || a.Check? || a.GiveUpPop?)
    ensures Cells(Step(s, a).0)
  {
    var s' := Step(s, a).0;
    assert forall t: nat :: Awaited(s', t) == Awaited(s, t) && Published(s', t) == Published(s, t) && Slot(s', t) == Slot(s, t);
  }

  lemma EndMoveKeepsInv<V>(s: State<V>)
    requires Inv(s)
    ensures Inv(Step(s, EndMove).0)
  {
    var s' := Step(s, EndMove).0;
    if s' != s {
      SlotsDistinct(s);
      assert Awaited(s, s.dequeuePos);
      assert forall t: nat :: Awaited(s', t) == Awaited(s, t) && Published(s', t) == Published(s, t) && Slot(s', t) == Slot(s, t);
    }
  }

  lemma ReleaseKeepsInv<V>(s: State<V>)
    requires Inv(s)
    ensures Inv(Step(s, Release).0)
  {
    var s' := Step(s, Release).0;
    if s' != s {
      ReleaseKeepsCells(s);
      assert Awaited(s, s.dequeuePos);
    }
  }

  lemma ReleaseKeepsCells<V>(s: State<V>)
    requires Inv(s) && s.consumer.Moved?
    ensures Cells(Step(s, Release).0)
  {
    var s', n, deq := Step(s, Release).0, |s.cells|, s.dequeuePos;
    SlotsDistinct(s);
    NextRound(deq, n);
    assert Awaited(s, deq);
    assert forall t: nat :: Awaited(s', t) <==> (Awaited(s, t) && t != deq) || t == deq + n;
    assert forall t: nat :: Published(s', t) == Published(s, t) && Slot(s', t) == Slot(s, t);
  }

  lemma AdvanceKeepsInv<V>(s: State<V>)
    requires Inv(s)
    ensures Inv(Step(s, Advance).0)
  {
    var s' := Step(s, Advance).0;
    if s' != s {
      assert forall t: nat :: Awaited(s', t) == Awaited(s, t) && Published(s', t) == Published(s, t) && Slot(s', t) == Slot(s, t);
      assert s.claimed[..s.dequeuePos + 1] == s.claimed[..s.dequeuePos] + [s.claimed[s.dequeuePos]];
    }
  }

  lemma StepKeepsInv<V>(s: State<V>, a: Action<V>)
    requires Inv(s)
    ensures Inv(Step(s, a).0)
  {
    match a
    case Push(t, v, n) => PushKeepsInv(s, t, v, n);
    case Load(t) => LoadKeepsInv(s, t);
    case EndCopy(t) => EndCopyKeepsInv(s, t);
    case Publish(t) => PublishKeepsInv(s, t);
    case GiveUp(t) => GiveUpKeepsInv(s, t);
    case EndMove => EndMoveKeepsInv(s);
    case Release => ReleaseKeepsInv(s);
    case Advance => AdvanceKeepsInv(s);
    case _ => ConsumerKeepsInv(s, a);
  }

  lemma InitInv<V>(capacity: nat, producers: nat)
    requires 2 <= capacity
    ensures Inv(Init<V>(capacity, producers))
  {
    var s := Init<V>(capacity, producers);
    forall t: nat | Awaited(s, t)
      ensures s.cells[Slot(s, t)].seqno == t
    {
      DivModUnique(t, capacity, 0, t);
    }
  }

  lemma {:induction false} RunKeepsInv<V>(s: State<V>, schedule: seq<Action<V>>)
    requires Inv(s)
    ensures Inv(Run(s, schedule))
    decreases |schedule|
  {
    if schedule != [] {
      StepKeepsInv(s, schedule[0]);
      RunKeepsInv(Step(s, schedule[0]).0, schedule[1..]);
    }
  }

  // ---- Safety over all schedules ----

  // The thread that is inside a payload copy of a cell: a producer between the
  // matching load and the publishing store, or the consumer (thread -1)
  // between its matching load and the releasing store.
  predicate Accesses<V>(s: State<V>, thread: int, cell: nat)
    requires s.cells != []
  {
    if thread == -1 then
      (s.consumer.Moving? || s.consumer.Moved?) && Slot(s, s.dequeuePos) == cell
    else
      && 0 <= thread < |s.producers|
      && (s.producers[thread].Copying? || s.producers[thread].Copied?)
      && Slot(s, s.producers[thread].pos) == cell
  }

  lemma ExclusiveIn<V>(s: State<V>, cell: nat, a: int, b: int)
    requires Inv(s) && Accesses(s, a, cell) && Accesses(s, b, cell)
    ensures a == b
  {
    SlotsDistinct(s);
    if a == -1 || b == -1 {
      assert Awaited(s, s.dequeuePos);
    }
  }

  // No cell ever has two threads in a copy of its payload.
  lemma MutualExclusion<V>(capacity: nat, producers: nat, schedule: seq<Action<V>>, cell: nat, a: int, b: int)
    requires 2 <= capacity
    requires var s := Run(Init<V>(capacity, producers), schedule);
             Accesses(s, a, cell) && Accesses(s, b, cell)
    ensures a == b
  {
    InitInv<V>(capacity, producers);
    RunKeepsInv(Init<V>(capacity, producers), schedule);
    ExclusiveIn(Run(Init<V>(capacity, producers), schedule), cell, a, b);
  }

  // The values popped are those of tickets 0, 1, 2, ... in ticket order, each
  // once, and every one of these tickets belongs to a completed push.
  lemma PopsInTicketOrder<V>(capacity: nat, producers: nat, schedule: seq<Action<V>>)
    requires 2 <= capacity
    ensures var s := Run(Init<V>(capacity, producers), schedule);
            && s.popped <= s.claimed
            && |s.popped| == s.dequeuePos <= s.enqueuePos == |s.claimed| == |s.fate|
            && forall t :: 0 <= t < |s.popped| ==> s.fate[t] == Done
  {
    InitInv<V>(capacity, producers);
    RunKeepsInv(Init<V>(capacity, producers), schedule);
  }

  // Histories only grow, and a ticket given up or completed stays so.
  ghost predicate Extends<V>(s: State<V>, s': State<V>) {
    && s.claimed <= s'.claimed && s.popped <= s'.popped
    && |s.fate| <= |s'.fate|
    && forall t :: 0 <= t < |s.fate| && !s.fate[t].Held? ==> s'.fate[t] == s.fate[t]
  }

  lemma StepExtends<V>(s: State<V>, a: Action<V>)
    requires Inv(s)
    ensures Extends(s, Step(s, a).0)
  {
  }

  lemma {:induction false} RunExtends<V>(s: State<V>, schedule: seq<Action<V>>)
    requires Inv(s)
    ensures Extends(s, Run(s, schedule))
    decreases |schedule|
  {
    if schedule != [] {
      var s' := Step(s, schedule[0]).0;
      StepKeepsInv(s, schedule[0]);
      StepExtends(s, schedule[0]);
      RunExtends(s', schedule[1..]);
    }
  }

  // A push that timed out keeps its ticket: the consumer never passes it, in
  // any continuation, so at most the earlier tickets are ever popped.
  lemma AbandonedTicketBlocks<V>(s: State<V>, t: nat, schedule: seq<Action<V>>)
    requires Inv(s) && t < |s.fate| && s.fate[t] == Abandoned
    ensures var s' := Run(s, schedule);
            t < |s'.fate| && s'.fate[t] == Abandoned && |s'.popped| == s'.dequeuePos <= t
  {
    RunKeepsInv(s, schedule);
    RunExtends(s, schedule);
  }

  // What the answers mean, at the instant they are given.
  lemma Answers<V>(s: State<V>, a: Action<V>)
    requires Inv(s)
    ensures var (s', r) := Step(s, a);
            match r
            case Nothing => s'.popped == s.popped
            case PushOk(t) => t < |s.fate| && s.fate[t].Held? && s'.fate == s.fate[t := Done] && s'.popped == s.popped
            case PushFull(t) => t < |s.fate| && s.fate[t].Held? && s'.fate == s.fate[t := Abandoned] && s'.popped == s.popped
            case PopOk(v) => s'.popped == s.popped + [v] && |s.popped| < |s.claimed| && v == s.claimed[|s.popped|]
            case PopEmpty => s.enqueuePos == s.dequeuePos && s.popped == s.claimed && s' == s.(consumer := Resting)
            case PopFull => s.consumer == Seeking(0) && s' == s.(consumer := Resting)
  {
    if Step(s, a).1.PopEmpty? {
      assert s.claimed[..s.dequeuePos] == s.claimed;
    }
    if Step(s, a).1.PopOk? {
      assert s.popped == s.claimed[..s.dequeuePos];
    }
  }

  // The consumer's load finds the next value exactly when the push that holds
  // the next ticket has completed: neither earlier nor, once completed, later.
  lemma SeekFinds<V>(s: State<V>, spins: nat)
    requires Inv(s) && s.consumer == Seeking(spins) && spins > 0
    ensures Step(s, Seek).0.consumer == Moving <==> s.dequeuePos < s.enqueuePos && s.fate[s.dequeuePos] == Done
  {
    assert Awaited(s, s.dequeuePos);
  }

  // A producer's load admits it exactly when fewer than a round of tickets
  // before its own are still to be released by the consumer.
  lemma LoadAdmits<V>(s: State<V>, tid: nat)
    requires Inv(s) && tid < |s.producers| && s.producers[tid].Spinning? && s.producers[tid].spins > 0
    ensures Step(s, Load(tid)).0.producers[tid].Copying? <==> s.producers[tid].pos < Base(s) + |s.cells|
  {
    LoadMatches(s, tid);
  }

  // No thread is ever stuck: the payload the consumer has admitted itself to
  // is complete, so its move ends, and a producer's copy can be published.
  lemma NeverStuck<V>(s: State<V>, tid: nat)
    requires Inv(s)
    ensures s.consumer.Moving? ==> s.dequeuePos < |s.claimed| && Step(s, EndMove).0.consumer == Moved(s.claimed[s.dequeuePos])
    ensures tid < |s.producers| && s.producers[tid].Copied? ==> Step(s, Publish(tid)).1 == PushOk(s.producers[tid].pos)
    ensures tid < |s.producers| && s.producers[tid].Spinning? && s.producers[tid].spins == 0 ==>
              Step(s, GiveUp(tid)).1 == PushFull(s.producers[tid].pos)
  {
    if s.consumer.Moving? {
      assert Awaited(s, s.dequeuePos);
    }
  }

  // ---- What callers pass and get ----

  // A push takes a ticket when its thread is not inside another push.
  predicate Enters<V>(s: State<V>, a: Action<V>) {
    a.Push? && a.tid < |s.producers| && s.producers[a.tid].Idle?
  }

  // The values passed to the pushes of a schedule, in the order they enter.
  function Passed<V>(s: State<V>, schedule: seq<Action<V>>): seq<V>
    requires s.cells != []
    decreases |schedule|
  {
    if schedule == [] then []
    else (if Enters(s, schedule[0]) then [schedule[0].value] else []) + Passed(Step(s, schedule[0]).0, schedule[1..])
  }

  // One push: it enters with a new ticket, its value and all its loads; keeps
  // ticket and value; and leaves exactly with an answer.
  lemma PushLifetime<V>(s: State<V>, a: Action<V>, tid: nat)
    requires Inv(s) && tid < |s.producers|
    ensures var (s', r) := Step(s, a);
            |s'.producers| == |s.producers| &&
            var p, p' := s.producers[tid], s'.producers[tid];
            if p.Idle? && a.Push? && a.tid == tid then
              && p' == Spinning(s.enqueuePos, a.value, a.maxSpins) && s'.enqueuePos == s.enqueuePos + 1
              && s'.claimed == s.claimed + [a.value] && s'.fate == s.fate + [Held(tid)] && r == Nothing
            else if p.Idle? then p' == Idle
            else if r == PushOk(p.pos) || r == PushFull(p.pos) then p' == Idle
            else !p'.Idle? && p'.pos == p.pos && p'.value == p.value
  {
  }

  lemma StepClaims<V>(s: State<V>, a: Action<V>)
    requires s.cells != []
    ensures var s' := Step(s, a).0;
            |s'.producers| == |s.producers| && s'.claimed == s.claimed + if Enters(s, a) then [a.value] else []
  {
  }

  lemma {:induction false} ClaimedPassed<V>(s: State<V>, schedule: seq<Action<V>>)
    requires s.cells != []
    ensures Run(s, schedule).claimed == s.claimed + Passed(s, schedule)
    ensures |Run(s, schedule).producers| == |s.producers|
    decreases |schedule|
  {
    if schedule != [] {
      var a, s' := schedule[0], Step(s, schedule[0]).0;
      StepClaims(s, a);
      ClaimedPassed(s', schedule[1..]);
      var here: seq<V> := if Enters(s, a) then [a.value] else [];
      assert s.claimed + (here + Passed(s', schedule[1..])) == (s.claimed + here) + Passed(s', schedule[1..]);
    }
  }

  // In every interleaving, what is popped are the first of the values that
  // callers have passed, in the order in which their pushes entered.
  lemma PopsWhatIsPassed<V>(capacity: nat, producers: nat, schedule: seq<Action<V>>)
    requires 2 <= capacity
    ensures var s0 := Init<V>(capacity, producers);
            var s := Run(s0, schedule);
            && s.claimed == Passed(s0, schedule) && s.popped <= Passed(s0, schedule)
            && |s0.cells| == capacity && |s0.producers| == |s.producers| == producers && forall t :: 0 <= t < producers ==> s0.producers[t].Idle?
  {
    ClaimedPassed(Init<V>(capacity, producers), schedule);
    PopsInTicketOrder(capacity, producers, schedule);
  }

  // ---- How often a push and a pop look ----

  predicate SpinsAt<V>(s: State<V>, tid: nat, pos: nat) {
    tid < |s.producers| && s.producers[tid].Spinning? && s.producers[tid].pos == pos
  }

  function LoadsOf<V>(schedule: seq<Action<V>>, tid: nat): nat {
    if schedule == [] then 0 else (if schedule[0] == Load(tid) then 1 else 0) + LoadsOf(schedule[1..], tid)
  }

  lemma PositionsGrow<V>(s: State<V>, a: Action<V>)
    requires s.cells != []
    ensures s.enqueuePos <= Step(s, a).0.enqueuePos
  {
  }

  lemma StepSpins<V>(s: State<V>, a: Action<V>, tid: nat, pos: nat)
    requires s.cells != [] && pos < s.enqueuePos && SpinsAt(Step(s, a).0, tid, pos)
    ensures SpinsAt(s, tid, pos) && s.enqueuePos <= Step(s, a).0.enqueuePos
    ensures Step(s, a).0.producers[tid].spins ==
            if a == Load(tid) && s.producers[tid].spins > 0 then s.producers[tid].spins - 1 else s.producers[tid].spins
  {
  }

  // As long as a push waits for its cell, each of its loads uses up one of its
  // spins; so it gives up after as many loads as it may make, and not before.
  lemma {:induction false} SpinsUsed<V>(s: State<V>, schedule: seq<Action<V>>, tid: nat, pos: nat)
    requires s.cells != [] && pos < s.enqueuePos && SpinsAt(Run(s, schedule), tid, pos)
    ensures SpinsAt(s, tid, pos)
    ensures var left := s.producers[tid].spins - LoadsOf(schedule, tid);
            Run(s, schedule).producers[tid].spins == if left > 0 then left else 0
    decreases |schedule|
  {
    if schedule != [] {
      var s' := Step(s, schedule[0]).0;
      PositionsGrow(s, schedule[0]);
      SpinsUsed(s', schedule[1..], tid, pos);
      StepSpins(s, schedule[0], tid, pos);
    }
  }

  lemma GivesUpAfter<V>(s: State<V>, tid: nat, value: V, maxSpins: nat, schedule: seq<Action<V>>)
    requires Inv(s) && Enters(s, Push(tid, value, maxSpins))
    ensures var s1 := Step(s, Push(tid, value, maxSpins)).0;
            var s2 := Run(s1, schedule);
            SpinsAt(s2, tid, s.enqueuePos) ==>
              (Step(s2, GiveUp(tid)).1 == PushFull(s.enqueuePos) <==> LoadsOf(schedule, tid) >= maxSpins)
  {
    var s1 := Step(s, Push(tid, value, maxSpins)).0;
    StepKeepsInv(s, Push(tid, value, maxSpins));
    PushLifetime(s, Push(tid, value, maxSpins), tid);
    RunKeepsInv(s1, schedule);
    if SpinsAt(Run(s1, schedule), tid, s.enqueuePos) {
      SpinsUsed(s1, schedule, tid, s.enqueuePos);
    }
  }

  // A pop with no other thread at work, from the moment it begins. It delivers
  // the next value if there is one; finds an empty queue empty; and otherwise
  // waits for the push that holds the next ticket, with one spin a round, until
  // it answers full.
  lemma PopDelivers<V>(s: State<V>, maxSpins: nat)
    requires Inv(s) && s.consumer.Resting? && maxSpins > 0 && Published(s, s.dequeuePos)
    ensures var s1 := Step(Step(s, Pop(maxSpins)).0, Seek).0;
            var s2 := Step(Step(s1, EndMove).0, Release).0;
            s.dequeuePos < |s.claimed| && Step(s2, Advance).1 == PopOk(s.claimed[s.dequeuePos])
  {
    assert Awaited(s, s.dequeuePos);
    TakesCell(s, s.claimed[s.dequeuePos], maxSpins);
  }

  lemma TakesCell<V>(s: State<V>, v: V, maxSpins: nat)
    requires s.cells != [] && s.consumer.Resting? && maxSpins > 0
    requires s.cells[Slot(s, s.dequeuePos)] == Cell(s.dequeuePos + 1, Some(v))
    ensures var s1 := Step(Step(s, Pop(maxSpins)).0, Seek).0;
            var s2 := Step(Step(s1, EndMove).0, Release).0;
            Step(s2, Advance).1 == PopOk(v)
  {
  }

  // The cell of the next ticket, while its push has not completed.
  predicate NextUnready<V>(s: State<V>) {
    s.cells != [] && s.cells[Slot(s, s.dequeuePos)].seqno == s.dequeuePos
  }

  lemma UnpublishedUnready<V>(s: State<V>)
    requires Inv(s) && !s.consumer.Released? && !Published(s, s.dequeuePos)
    ensures NextUnready(s)
  {
    assert Awaited(s, s.dequeuePos);
  }

  lemma PopFindsEmpty<V>(s: State<V>, maxSpins: nat)
    requires Inv(s) && s.consumer.Resting? && maxSpins > 0 && s.enqueuePos == s.dequeuePos
    ensures Step(Step(Step(s, Pop(maxSpins)).0, Seek).0, Check) == (s, PopEmpty)
  {
    UnpublishedUnready(s);
  }

  // One round of a pop: a load, and a look whether the queue is empty.
  function Round<V>(s: State<V>): State<V>
    requires s.cells != []
  {
    Step(Step(s, Seek).0, Check).0
  }

  function Rounds<V>(s: State<V>, n: nat): State<V>
    requires s.cells != []
    ensures Rounds(s, n).cells != []
    decreases n
  {
    if n == 0 then s else Rounds(Round(s), n - 1)
  }

  lemma {:induction false} RoundsWait<V>(s: State<V>, spins: nat, n: nat)
    requires NextUnready(s) && s.dequeuePos < s.enqueuePos && s.consumer == Seeking(spins) && n <= spins
    ensures Rounds(s, n) == s.(consumer := Seeking(spins - n))
    decreases n
  {
    if n > 0 {
      var s' := Round(s);
      assert s' == s.(consumer := Seeking(spins - 1));
      RoundsWait(s', spins - 1, n - 1);
    }
  }

  lemma PopWaits<V>(s: State<V>, maxSpins: nat, n: nat)
    requires Inv(s) && s.consumer.Resting? && n <= maxSpins
    requires s.dequeuePos < s.enqueuePos && !Published(s, s.dequeuePos)
    ensures var s' := Rounds(Step(s, Pop(maxSpins)).0, n);
            && s' == s.(consumer := Seeking(maxSpins - n))
            && Step(s', GiveUpPop) == if n == maxSpins then (s, PopFull) else (s', Nothing)
  {
    UnpublishedUnready(s);
    RoundsWait(Step(s, Pop(maxSpins)).0, maxSpins, n);
  }
}
