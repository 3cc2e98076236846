/** The single-producer, single-consumer queue as interleaved atomic steps.

    Each of the two threads owns one position and reads the other's; with the
    overwrite policy the producer also stores the consumer's. As in the
    multi-producer queue, an element copy takes time: it begins with one step
    and ends with another, and the slot holds no value in between. */
module Spsc {
  import opened Common
  import opened Modular

  // A producer that found the queue full, with the overwrite policy, has loaded
  // the head at which it writes.
  datatype Producer<V> =
    | Idle
    | Copying(value: V)
    | Copied(value: V)
    | Loaded(head: nat, value: V)
    | Moving(head: nat, value: V)
    | Written(head: nat, value: V)
    | Stored(value: V)

  // The consumer loads the head, and then the tail. keep tells a peek, which
  // copies the element and leaves it in its slot.
  datatype Consumer<V> = Resting | Looking(at: nat, keep: bool) | Reading(at: nat, keep: bool) | Read(at: nat, keep: bool, value: V)

  datatype State<V> = State(
    overwrite: bool,
    slots: seq<Option<V>>,
    head: nat,
    tail: nat,
    producer: Producer<V>,
    consumer: Consumer<V>,
    // history: every value pushed; and what was popped at each position below
    // the head, or None if it was written over
    pushed: seq<V>,
    gone: seq<Option<V>>)

  datatype Action<V> =
    | Push(value: V)     // load the head; begin the copy if there is room
    | EndCopy            // the element is in its slot
    | BeginMove          // destroy the oldest element and begin to write over it
    | EndMove            // the element is in its slot
    | StoreHead          // store the head after the one loaded
    | Publish            // store the tail, return ok
    | Pop(keep: bool)    // load the head
    | SeeTail            // load the tail; begin the copy if there is an element
    | EndRead            // the element has been moved or copied out
    | Retire             // store the head after the one loaded, return ok

  datatype Response<V> = Nothing | PushOk | PushFull | PopOk(value: V) | PeekOk(value: V) | PopEmpty

  function Slot<V>(s: State<V>, pos: nat): (i: nat)
    requires s.slots != []
    ensures i < |s.slots|
  {
    pos % |s.slots|
  }

  function WithSlot<V>(s: State<V>, pos: nat, v: Option<V>): State<V>
    requires s.slots != []
  {
    s.(slots := s.slots[Slot(s, pos) := v])
  }

  function Init<V>(capacity: nat, overwrite: bool): State<V> {
    State(overwrite, seq(capacity, _ => None), 0, 0, Idle, Resting, [], [])
  }

  // What is on record once the head is stored as h + 1, with g at position h.
  function Recorded<V>(gone: seq<Option<V>>, h: nat, g: Option<V>): seq<Option<V>> {
    if h <= |gone| then gone[..h] + [g] else gone
  }

  // One step; an action whose thread is elsewhere changes nothing.
  function Step<V>(s: State<V>, a: Action<V>): (State<V>, Response<V>)
    requires s.slots != []
  {
    match a
    case Push(v) =>
      if !s.producer.Idle? then (s, Nothing)
      else if s.tail - s.head >= |s.slots| then
        if s.overwrite then (s.(producer := Loaded(s.head, v)), Nothing) else (s, PushFull)
      else (WithSlot(s, s.tail, None).(producer := Copying(v)), Nothing)
    case EndCopy =>
      if s.producer.Copying? then
        (WithSlot(s, s.tail, Some(s.producer.value)).(producer := Copied(s.producer.value)), Nothing)
      else (s, Nothing)
    case BeginMove =>
      if s.producer.Loaded? then
        (WithSlot(s, s.producer.head, None).(producer := Moving(s.producer.head, s.producer.value)), Nothing)
      else (s, Nothing)
    case EndMove =>
      if s.producer.Moving? then
        (WithSlot(s, s.producer.head, Some(s.producer.value)).(producer := Written(s.producer.head, s.producer.value)), Nothing)
      else (s, Nothing)
    case StoreHead =>
      if s.producer.Written? then
        var h := s.producer.head;
        var kept := if h < |s.gone| then s.gone[h] else None;
        (s.(head := h + 1, gone := Recorded(s.gone, h, kept), producer := Stored(s.producer.value)), Nothing)
      else (s, Nothing)
    case Publish =>
      if s.producer.Copied? || s.producer.Stored? then
        (s.(tail := s.tail + 1, producer := Idle, pushed := s.pushed + [s.producer.value]), PushOk)
      else (s, Nothing)
    case Pop(keep) =>
      if s.consumer.Resting? then (s.(consumer := Looking(s.head, keep)), Nothing) else (s, Nothing)
    case SeeTail =>
      if !s.consumer.Looking? then (s, Nothing)
      else if s.consumer.at == s.tail then (s.(consumer := Resting), PopEmpty)
      else (s.(consumer := Reading(s.consumer.at, s.consumer.keep)), Nothing)
    case EndRead =>
      if s.consumer.Reading? && s.slots[Slot(s, s.consumer.at)].Some? then
        var at, keep := s.consumer.at, s.consumer.keep;
        var value := s.slots[Slot(s, at)].value;
        ((if keep then s else WithSlot(s, at, None)).(consumer := Read(at, keep, value)), Nothing)
      else (s, Nothing)
    case Retire =>
      if !s.consumer.Read? then (s, Nothing)
      else if s.consumer.keep then (s.(consumer := Resting), PeekOk(s.consumer.value))
      else
        var at := s.consumer.at;
        (s.(head := at + 1, gone := Recorded(s.gone, at, Some(s.consumer.value)), consumer := Resting), PopOk(s.consumer.value))
  }

  function Run<V>(s: State<V>, schedule: seq<Action<V>>): State<V>
    requires s.slots != []
    ensures Run(s, schedule).slots != []
    decreases |schedule|
  {
    if schedule == [] then s else Run(Step(s, schedule[0]).0, schedule[1..])
  }

  // ---- The invariant ----

  // The producer is writing over the slot of this position.
  predicate WritesOver<V>(s: State<V>, pos: nat) {
    (s.producer.Moving? || s.producer.Written?) && s.producer.head == pos
  }

  // The consumer has taken the element of this position out of its slot.
  predicate TakenOut<V>(s: State<V>, pos: nat) {
    s.consumer.Read? && !s.consumer.keep && s.consumer.at == pos
  }

  predicate HasLoaded<V>(s: State<V>) {
    s.producer.Loaded? || s.producer.Moving? || s.producer.Written?
  }

  // Positions that hold an element.
  predicate Filled<V>(s: State<V>, pos: nat) {
    s.head <= pos < s.tail && !TakenOut(s, pos) && !WritesOver(s, pos)
  }

  // Positions whose slots hold none.
  predicate Free<V>(s: State<V>, pos: nat) {
    s.tail <= pos < s.head + |s.slots| && (pos == s.tail ==> s.producer.Idle? || s.producer.Loaded?)
  }

  ghost predicate History<V>(s: State<V>) {
    && |s.gone| == s.head <= s.tail == |s.pushed|
    && (forall i :: 0 <= i < |s.gone| && s.gone[i].Some? ==> s.gone[i].value == s.pushed[i])
    && (!s.overwrite ==> forall i :: 0 <= i < |s.gone| ==> s.gone[i].Some?)
  }

  ghost predicate Slots<V>(s: State<V>)
    requires s.slots != []
  {
    && (forall pos: nat {:trigger Filled(s, pos)} :: Filled(s, pos) ==> pos < |s.pushed| && s.slots[Slot(s, pos)] == Some(s.pushed[pos]))
    && (forall pos: nat {:trigger Free(s, pos)} :: Free(s, pos) ==> s.slots[Slot(s, pos)] == None)
    && (TakenOut(s, s.head) && !WritesOver(s, s.head) ==> s.slots[Slot(s, s.head)] == None)
  }

  ghost predicate Producing<V>(s: State<V>)
    requires s.slots != []
  {
    match s.producer
    case Idle => true
    case Copying(_) => s.tail < s.head + |s.slots|
    case Copied(v) => s.tail < s.head + |s.slots| && s.slots[Slot(s, s.tail)] == Some(v)
    case Loaded(h, _) => s.overwrite && s.tail == h + |s.slots| && h <= s.head
    case Moving(h, _) => s.overwrite && s.tail == h + |s.slots| && h <= s.head
    case Written(h, v) => s.overwrite && s.tail == h + |s.slots| && h <= s.head && s.slots[Slot(s, h)] == Some(v)
    case Stored(v) => s.overwrite && s.tail < s.head + |s.slots| && s.slots[Slot(s, s.tail)] == Some(v)
  }

  // The consumer reads at the head and not where the producer writes over it,
  // and what it stores does not lie behind the head.
  ghost predicate Consuming<V>(s: State<V>) {
    match s.consumer
    case Resting => true
    case Looking(at, _) => at <= s.head && (at == s.head || s.overwrite)
    case Reading(at, _) => at == s.head < s.tail && !WritesOver(s, at)
    case Read(at, keep, v) =>
      && at < |s.pushed| && v == s.pushed[at]
      && (s.head == at || (s.overwrite && (keep || Overtaken(s, at))))
  }

  // While the consumer was busy the producer has stored the same head for it.
  predicate Overtaken<V>(s: State<V>, at: nat) {
    s.head == at + 1 && (HasLoaded(s) ==> s.producer.head == s.head)
  }

  ghost predicate Inv<V>(s: State<V>) {
    && 0 < |s.slots|
    && s.tail <= s.head + |s.slots|
    && History(s) && Slots(s) && Producing(s) && Consuming(s)
  }

  // The steps at which an overwriting push and the consumer collide: the element
  // is being read that is to be destroyed; reading begins at what is no longer
  // the head, or where the producer writes; or the head stored lies behind one that the consumer has stored or,
  // with the one the consumer is about to store, ahead of it.
  predicate Races<V>(s: State<V>, a: Action<V>) {
    match a
    case BeginMove => s.producer.Loaded? && s.consumer.Reading? && s.consumer.at == s.producer.head
    case SeeTail => s.consumer.Looking? && s.consumer.at < s.tail && (s.consumer.at < s.head || WritesOver(s, s.consumer.at))
    case StoreHead =>
      && s.producer.Written?
      && (s.head > s.producer.head + 1 || (s.consumer.Read? && !s.consumer.keep && s.consumer.at < s.producer.head))
    case _ => false
  }

  // Positions less than a round apart have different slots.
  lemma SlotsApart<V>(s: State<V>, at: nat)
    requires s.slots != []
    ensures forall pos: nat {:trigger Filled(s, pos)} :: Filled(s, pos) && pos != at && pos < at + |s.slots| && at < pos + |s.slots| ==>
              Slot(s, pos) != Slot(s, at)
    ensures forall pos: nat {:trigger Free(s, pos)} :: Free(s, pos) && pos != at && pos < at + |s.slots| && at < pos + |s.slots| ==>
              Slot(s, pos) != Slot(s, at)
  {
    forall pos: nat | pos != at && pos < at + |s.slots| && at < pos + |s.slots|
      ensures Slot(s, pos) != Slot(s, at)
    {
      if pos < at {
        WindowApart(|s.slots|, pos, at);
      } else {
        WindowApart(|s.slots|, at, pos);
      }
    }
  }

  lemma TwoApart<V>(s: State<V>, pos: nat, at: nat)
    requires s.slots != [] && pos < at < pos + |s.slots|
    ensures Slot(s, pos) != Slot(s, at)
  {
    WindowApart(|s.slots|, pos, at);
  }

  // A round later it is the same slot.
  lemma RoundLater<V>(s: State<V>, pos: nat)
    requires s.slots != []
    ensures Slot(s, pos + |s.slots|) == Slot(s, pos)
  {
    NextRound(pos, |s.slots|);
  }

  // ---- The producer's steps ----

  lemma PushKeepsInv<V>(s: State<V>, v: V)
    requires Inv(s)
    ensures Inv(Step(s, Push(v)).0)
  {
    var s' := Step(s, Push(v)).0;
    if s' != s {
      assert forall pos: nat :: Slot(s', pos) == Slot(s, pos) && Filled(s', pos) == Filled(s, pos) && (Free(s', pos) ==> Free(s, pos));
      assert s'.producer.Copying? ==> Free(s, s.tail);
      assert s'.producer.Copying? ==> s'.slots == s.slots;
    }
  }

  lemma EndCopyKeepsInv<V>(s: State<V>)
    requires Inv(s)
    ensures Inv(Step(s, EndCopy).0)
  {
    var s' := Step(s, EndCopy).0;
    if s' != s {
      SlotsApart(s, s.tail);
      assert forall pos: nat :: Slot(s', pos) == Slot(s, pos) && Filled(s', pos) == Filled(s, pos) && Free(s', pos) == Free(s, pos);
      if s.head < s.tail {
        TwoApart(s, s.head, s.tail);
      }
    }
  }

  lemma PublishKeepsInv<V>(s: State<V>)
    requires Inv(s)
    ensures Inv(Step(s, Publish).0)
  {
    var s' := Step(s, Publish).0;
    if s' != s {
      assert forall pos: nat :: Slot(s', pos) == Slot(s, pos);
      assert forall pos: nat :: Filled(s', pos) ==> Filled(s, pos) || pos == s.tail;
      assert forall pos: nat :: Free(s', pos) ==> Free(s, pos);
    }
  }

  // Writing the slot at which an overwriting push aims.
  lemma MoveKeepsInv<V>(s: State<V>, a: Action<V>)
    requires Inv(s) && (a.BeginMove? || a.EndMove?) && !Races(s, a)
    ensures Inv(Step(s, a).0)
  {
    var s' := Step(s, a).0;
    if s' != s {
      MoveKeepsSlots(s, a);
    }
  }

  lemma MoveKeepsSlots<V>(s: State<V>, a: Action<V>)
    requires Inv(s) && ((a.BeginMove? && s.producer.Loaded?) || (a.EndMove? && s.producer.Moving?))
    ensures Slots(Step(s, a).0)
  {
    var s', h := Step(s, a).0, s.producer.head;
    SlotsApart(s, h);
    assert forall pos: nat :: Slot(s', pos) == Slot(s, pos);
    assert forall pos: nat :: Filled(s', pos) ==> Filled(s, pos) && pos != h;
    MoveKeepsFree(s, a);
    if h < s.head < h + |s.slots| {
      TwoApart(s, h, s.head);
    }
  }

  lemma MoveKeepsFree<V>(s: State<V>, a: Action<V>)
    requires Inv(s) && ((a.BeginMove? && s.producer.Loaded?) || (a.EndMove? && s.producer.Moving?))
    ensures var s' := Step(s, a).0;
            forall pos: nat {:trigger Free(s', pos)} :: Free(s', pos) ==> s'.slots[Slot(s', pos)] == None
  {
    var s' := Step(s, a).0;
    SlotsApart(s, s.tail);
    RoundLater(s, s.producer.head);
    assert forall pos: nat :: Slot(s', pos) == Slot(s, pos);
    assert forall pos: nat :: Free(s', pos) ==> Free(s, pos) && s.tail < pos;
  }

  lemma StoreHeadKeepsInv<V>(s: State<V>)
    requires Inv(s) && !Races(s, StoreHead)
    ensures Inv(Step(s, StoreHead).0)
  {
    var s' := Step(s, StoreHead).0;
    if s' != s {
      RoundLater(s, s.producer.head);
      assert forall pos: nat :: Slot(s', pos) == Slot(s, pos);
      assert forall pos: nat :: Filled(s', pos) ==> Filled(s, pos);
      assert forall pos: nat :: Free(s', pos) ==> Free(s, pos);
      assert s'.gone == if s.head == s.producer.head then s.gone + [None] else s.gone;
    }
  }

  // ---- The consumer's steps ----

  lemma LookKeepsInv<V>(s: State<V>, a: Action<V>)
    requires Inv(s) && (a.Pop? || a.SeeTail?) && !Races(s, a)
    ensures Inv(Step(s, a).0)
  {
    var s' := Step(s, a).0;
    assert forall pos: nat :: Slot(s', pos) == Slot(s, pos) && Filled(s', pos) == Filled(s, pos) && Free(s', pos) == Free(s, pos);
  }

  lemma EndReadKeepsInv<V>(s: State<V>)
    requires Inv(s)
    ensures Inv(Step(s, EndRead).0)
  {
    var s' := Step(s, EndRead).0;
    if s' != s {
      assert Filled(s, s.consumer.at);
      EndReadKeepsSlots(s);
      if s.tail < s.consumer.at + |s.slots| {
        TwoApart(s, s.consumer.at, s.tail);
      }
      if s.producer.Written? {
        TwoApart(s, s.producer.head, s.consumer.at);
      }
    }
  }

  lemma EndReadKeepsSlots<V>(s: State<V>)
    requires Inv(s) && s.consumer.Reading?
    ensures Slots(Step(s, EndRead).0)
  {
    var s', at := Step(s, EndRead).0, s.consumer.at;
    SlotsApart(s, at);
    assert forall pos: nat :: Slot(s', pos) == Slot(s, pos) && Free(s', pos) == Free(s, pos);
    assert forall pos: nat :: Filled(s', pos) ==> Filled(s, pos) && (s.consumer.keep || pos != at);
  }

  lemma RetireKeepsInv<V>(s: State<V>)
    requires Inv(s)
    ensures Inv(Step(s, Retire).0)
  {
    if s.consumer.Read? {
      RetireKeepsSlots(s);
    }
  }

  lemma RetireKeepsSlots<V>(s: State<V>)
    requires Inv(s) && s.consumer.Read?
    ensures Slots(Step(s, Retire).0)
  {
    var s', at := Step(s, Retire).0, s.consumer.at;
    RoundLater(s, at);
    assert forall pos: nat :: Slot(s', pos) == Slot(s, pos);
    assert forall pos: nat :: Filled(s', pos) ==> Filled(s, pos);
    assert forall pos: nat :: Free(s', pos) ==> Free(s, pos) || (pos == at + |s.slots| && s.head == at && !s.consumer.keep);
  }

  // ---- Exactly when a step is safe ----

  lemma RaceBreaks<V>(s: State<V>, a: Action<V>)
    requires Inv(s) && Races(s, a)
    ensures !Inv(Step(s, a).0)
  {
    var s' := Step(s, a).0;
    if a.StoreHead? && s.head > s.producer.head + 1 {
      // the head moves back to an element that has been taken
      var h := s.producer.head;
      assert Free(s, s.tail + 1);
      RoundLater(s, h + 1);
      assert Filled(s', h + 1) && Slot(s', h + 1) == Slot(s, h + 1);
    }
  }

  // A step keeps the queue sound exactly when it is not one at which an
  // overwriting push and the consumer collide.
  lemma StepKeepsInv<V>(s: State<V>, a: Action<V>)
    requires Inv(s)
    ensures Inv(Step(s, a).0) <==> !Races(s, a)
  {
    if Races(s, a) {
      RaceBreaks(s, a);
    } else {
      match a
      case Push(v) => PushKeepsInv(s, v);
      case EndCopy => EndCopyKeepsInv(s);
      case Publish => PublishKeepsInv(s);
      case StoreHead => StoreHeadKeepsInv(s);
      case Pop(_) => LookKeepsInv(s, a);
      case SeeTail => LookKeepsInv(s, a);
      case EndRead => EndReadKeepsInv(s);
      case Retire => RetireKeepsInv(s);
      case _ => MoveKeepsInv(s, a);
    }
  }

  lemma InitInv<V>(capacity: nat, overwrite: bool)
    requires 0 < capacity
    ensures Inv(Init<V>(capacity, overwrite))
  {
  }

  // Every state of the run is sound.
  ghost predicate SoundThroughout<V>(s: State<V>, schedule: seq<Action<V>>)
    requires s.slots != []
    decreases |schedule|
  {
    Inv(s) && (schedule != [] ==> SoundThroughout(Step(s, schedule[0]).0, schedule[1..]))
  }

  predicate RaceFree<V>(s: State<V>, schedule: seq<Action<V>>)
    requires s.slots != []
    decreases |schedule|
  {
    schedule != [] ==> !Races(s, schedule[0]) && RaceFree(Step(s, schedule[0]).0, schedule[1..])
  }

  lemma {:induction false} SoundIffRaceFree<V>(s: State<V>, schedule: seq<Action<V>>)
    requires Inv(s)
    ensures SoundThroughout(s, schedule) <==> RaceFree(s, schedule)
    ensures RaceFree(s, schedule) ==> Inv(Run(s, schedule))
    decreases |schedule|
  {
    if schedule != [] {
      StepKeepsInv(s, schedule[0]);
      if !Races(s, schedule[0]) {
        SoundIffRaceFree(Step(s, schedule[0]).0, schedule[1..]);
      }
    }
  }

  // Without the overwrite policy nothing collides, whatever the schedule.
  lemma {:induction false} RefusingIsRaceFree<V>(s: State<V>, schedule: seq<Action<V>>)
    requires Inv(s) && !s.overwrite
    ensures RaceFree(s, schedule) && !Run(s, schedule).overwrite
    decreases |schedule|
  {
    if schedule != [] {
      StepKeepsInv(s, schedule[0]);
      RefusingIsRaceFree(Step(s, schedule[0]).0, schedule[1..]);
    }
  }

  // ---- Safety over all schedules ----

  // Without the overwrite policy the positions stay within one round of each
  // other, what has been popped is a prefix of what has been pushed, and the
  // slot being written is never the one being read.
  lemma Safety<V>(capacity: nat, schedule: seq<Action<V>>)
    requires 0 < capacity
    ensures var s := Run(Init<V>(capacity, false), schedule);
            && s.head <= s.tail <= s.head + |s.slots|
            && |s.gone| == s.head && |s.pushed| == s.tail
            && (forall i :: 0 <= i < s.head ==> s.gone[i] == Some(s.pushed[i]))
            && (!s.producer.Idle? && (s.consumer.Reading? || s.consumer.Read?) ==> Slot(s, s.tail) != Slot(s, s.head))
  {
    var s0 := Init<V>(capacity, false);
    InitInv<V>(capacity, false);
    RefusingIsRaceFree(s0, schedule);
    SoundIffRaceFree(s0, schedule);
    var s := Run(s0, schedule);
    if !s.producer.Idle? && s.head < s.tail {
      TwoApart(s, s.head, s.tail);
    }
  }

  // With it the same holds of the schedules without a collision, but for the
  // elements written over.
  lemma OverwritingSafety<V>(capacity: nat, schedule: seq<Action<V>>)
    requires 0 < capacity && RaceFree(Init<V>(capacity, true), schedule)
    ensures var s := Run(Init<V>(capacity, true), schedule);
            && s.head <= s.tail <= s.head + |s.slots|
            && |s.gone| == s.head && |s.pushed| == s.tail
            && (forall i :: 0 <= i < s.head ==> s.gone[i] == None || s.gone[i] == Some(s.pushed[i]))
            && (s.consumer.Reading? ==> !WritesOver(s, s.consumer.at))
  {
    InitInv<V>(capacity, true);
    SoundIffRaceFree(Init<V>(capacity, true), schedule);
  }

  // What the answers mean, at the instant they are given.
  lemma Answers<V>(s: State<V>, a: Action<V>)
    requires Inv(s)
    ensures var (s', r) := Step(s, a);
            match r
            case Nothing => s'.pushed == s.pushed
            case PushOk => a.Publish? && (s.producer.Copied? || s.producer.Stored?) && s'.pushed == s.pushed + [s.producer.value] && s'.gone == s.gone
            case PushFull => s' == s && !s.overwrite && |s.pushed| == |s.gone| + |s.slots|
            case PopOk(v) => s.consumer.Read? && s'.pushed == s.pushed && s.consumer.at < |s.pushed| && v == s.pushed[s.consumer.at]
                             && s'.gone == s.gone[..s.consumer.at] + [Some(v)]
            case PeekOk(v) => s.consumer.Read? && s.consumer.at < |s.pushed| && v == s.pushed[s.consumer.at] && s' == s.(consumer := Resting)
            case PopEmpty => s' == s.(consumer := Resting) && |s.gone| == |s.pushed|
  {
  }

  // Neither thread is ever stuck once admitted: a copy in progress ends, and
  // then its answer is ok.
  lemma NeverStuck<V>(s: State<V>)
    requires Inv(s)
    ensures s.producer.Copying? ==> Step(Step(s, EndCopy).0, Publish).1 == PushOk
    ensures s.producer.Moving? ==> Step(Step(Step(s, EndMove).0, StoreHead).0, Publish).1 == PushOk
    ensures s.consumer.Reading? ==>
              var v := s.pushed[s.consumer.at];
              Step(Step(s, EndRead).0, Retire).1 == if s.consumer.keep then PeekOk(v) else PopOk(v)
  {
    if s.consumer.Reading? {
      assert Filled(s, s.consumer.at);
    }
  }

  // ---- What callers pass and get ----

  // A push is admitted when its thread is not inside another one and there is
  // room, or it overwrites.
  predicate Admits<V>(s: State<V>, a: Action<V>) {
    a.Push? && s.producer.Idle? && (s.overwrite || s.tail < s.head + |s.slots|)
  }

  // The values of the pushes that a schedule admits, in order.
  function Passed<V>(s: State<V>, schedule: seq<Action<V>>): seq<V>
    requires s.slots != []
    decreases |schedule|
  {
    if schedule == [] then []
    else (if Admits(s, schedule[0]) then [schedule[0].value] else []) + Passed(Step(s, schedule[0]).0, schedule[1..])
  }

  // The value of the push that is under way.
  function InFlight<V>(s: State<V>): seq<V> {
    if s.producer.Idle? then [] else [s.producer.value]
  }

  // One push: it is admitted or answers full; keeps its value; and leaves with ok.
  lemma PushLifetime<V>(s: State<V>, a: Action<V>)
    requires s.slots != []
    ensures var (s', r) := Step(s, a);
            s'.overwrite == s.overwrite && |s'.slots| == |s.slots| &&
            if s.producer.Idle? && a.Push? then
              if Admits(s, a) then InFlight(s') == [a.value] && s'.pushed == s.pushed && r == Nothing
              else r == PushFull && s' == s
            else if s.producer.Idle? then s'.producer.Idle? && s'.pushed == s.pushed
            else if r == PushOk then s'.producer.Idle? && s'.pushed == s.pushed + InFlight(s)
            else InFlight(s') == InFlight(s) && s'.pushed == s.pushed
  {
  }

  lemma StepPasses<V>(s: State<V>, a: Action<V>)
    requires s.slots != []
    ensures var s' := Step(s, a).0;
            s'.pushed + InFlight(s') == (s.pushed + InFlight(s)) + if Admits(s, a) then [a.value] else []
  {
    PushLifetime(s, a);
  }

  lemma {:induction false} PushedPassed<V>(s: State<V>, schedule: seq<Action<V>>)
    requires s.slots != []
    ensures var s' := Run(s, schedule);
            s'.pushed + InFlight(s') == (s.pushed + InFlight(s)) + Passed(s, schedule)
    decreases |schedule|
  {
    if schedule != [] {
      var a, s1 := schedule[0], Step(s, schedule[0]).0;
      StepPasses(s, a);
      PushedPassed(s1, schedule[1..]);
      Regroup(s.pushed + InFlight(s), if Admits(s, a) then [a.value] else [], Passed(s1, schedule[1..]));
    }
  }

  lemma Regroup<T>(a: seq<T>, b: seq<T>, c: seq<T>)
    ensures (a + b) + c == a + (b + c)
  {
  }

  // In every interleaving, for every policy, what has been pushed are the values
  // that callers have passed, in order, without the one under way; so without
  // the overwrite policy what has been popped are the first of them.
  lemma PopsWhatIsPassed<V>(capacity: nat, overwrite: bool, schedule: seq<Action<V>>)
    requires 0 < capacity
    ensures var s0 := Init<V>(capacity, overwrite);
            var s := Run(s0, schedule);
            && |s0.slots| == capacity && s.pushed + InFlight(s) == Passed(s0, schedule) && s.pushed <= Passed(s0, schedule)
            && (!overwrite ==> |s.gone| <= |Passed(s0, schedule)|
                               && forall i :: 0 <= i < |s.gone| ==> s.gone[i] == Some(Passed(s0, schedule)[i]))
  {
    PushedPassed(Init<V>(capacity, overwrite), schedule);
    if !overwrite {
      Safety(capacity, schedule);
    }
  }

  // A push with room for it, and no other thread at work, answers ok and appends
  // its value; without room and without the overwrite policy it answers full.
  lemma PushAnswers<V>(s: State<V>, v: V)
    requires Inv(s) && s.producer.Idle?
    ensures var copying := Step(Step(s, Push(v)).0, EndCopy).0;
            var (s', r) := Step(copying, Publish);
            |s.pushed| - |s.gone| < |s.slots| ==> r == PushOk && s'.pushed == s.pushed + [v] && s'.gone == s.gone && s'.producer.Idle?
    ensures |s.pushed| - |s.gone| == |s.slots| && !s.overwrite ==> Step(s, Push(v)) == (s, PushFull)
  {
  }

  // A pop or a peek of which only the consumer takes steps yields the next value,
  // or finds the queue empty.
  lemma PopAnswers<V>(s: State<V>, keep: bool)
    requires Inv(s) && s.consumer.Resting? && !WritesOver(s, s.head)
    ensures var s1 := Step(s, Pop(keep)).0;
            if s.head == s.tail then Step(s1, SeeTail) == (s, PopEmpty)
            else
              s.head < |s.pushed| && Step(Step(Step(s1, SeeTail).0, EndRead).0, Retire).1
                == if keep then PeekOk(s.pushed[s.head]) else PopOk(s.pushed[s.head])
  {
    if s.head < s.tail {
      assert Filled(s, s.head);
    }
  }

  // ---- Overwriting ----

  function Contents<V>(s: State<V>): seq<V>
    requires s.head <= |s.pushed|
  {
    s.pushed[s.head..]
  }

  ghost predicate Quiet<V>(s: State<V>) {
    Inv(s) && s.producer.Idle? && s.consumer.Resting?
  }

  // A push with no step of the consumer in between.
  function WholePush<V>(s: State<V>, v: V): State<V>
    requires s.slots != []
  {
    var s1 := Step(s, Push(v)).0;
    if s1.producer.Loaded? then Step(Step(Step(Step(s1, BeginMove).0, EndMove).0, StoreHead).0, Publish).0
    else Step(Step(s1, EndCopy).0, Publish).0
  }

  // It keeps the last `capacity` elements.
  lemma OverwriteKeepsNewest<V>(s: State<V>, v: V)
    requires Quiet(s) && s.overwrite
    ensures var s', all := WholePush(s, v), Contents(s) + [v];
            Quiet(s') && Contents(s') == if |all| > |s.slots| then all[1..] else all
  {
    var s' := WholePush(s, v);
    WholePushQuiet(s, v);
    WholePushMoves(s, v);
    SliceNext(s.pushed, s.head, v);
  }

  lemma SliceNext<T>(xs: seq<T>, k: nat, x: T)
    requires k <= |xs|
    ensures (xs + [x])[k..] == xs[k..] + [x]
    ensures (xs + [x])[k + 1..] == (xs[k..] + [x])[1..]
  {
  }

  lemma WholePushMoves<V>(s: State<V>, v: V)
    requires s.slots != [] && s.producer.Idle? && s.overwrite && s.head <= s.tail == |s.pushed|
    ensures var s' := WholePush(s, v);
            && s'.pushed == s.pushed + [v] && s'.tail == s.tail + 1
            && s'.head == if s.tail - s.head >= |s.slots| then s.head + 1 else s.head
  {
  }

  lemma WholePushQuiet<V>(s: State<V>, v: V)
    requires Quiet(s) && s.overwrite
    ensures Quiet(WholePush(s, v))
  {
    StepKeepsInv(s, Push(v));
    var s1 := Step(s, Push(v)).0;
    if s1.producer.Loaded? {
      LoadedQuiet(s1);
    } else {
      StepKeepsInv(s1, EndCopy);
      StepKeepsInv(Step(s1, EndCopy).0, Publish);
    }
  }

  lemma LoadedQuiet<V>(s: State<V>)
    requires Inv(s) && s.producer.Loaded? && s.producer.head == s.head && s.consumer.Resting?
    ensures Quiet(Step(Step(Step(Step(s, BeginMove).0, EndMove).0, StoreHead).0, Publish).0)
  {
    var s2 := Step(s, BeginMove).0;
    MoveKeepsInv(s, BeginMove);
    MoveKeepsInv(s2, EndMove);
    StoreHeadKeepsInv(Step(s2, EndMove).0);
    PublishKeepsInv(Step(Step(s2, EndMove).0, StoreHead).0);
  }

  // ---- Collisions ----

  lemma {:induction false} RunConcat<V>(s: State<V>, a: seq<Action<V>>, b: seq<Action<V>>)
    requires s.slots != []
    ensures Run(s, a + b) == Run(Run(s, a), b)
    decreases |a|
  {
    if a == [] {
      assert a + b == b;
    } else {
      assert (a + b)[1..] == a[1..] + b;
      RunConcat(Step(s, a[0]).0, a[1..], b);
    }
  }

  lemma RunFirst<V>(s: State<V>, a: Action<V>, rest: seq<Action<V>>)
    requires s.slots != []
    ensures Run(s, [a] + rest) == Run(Step(s, a).0, rest)
  {
    assert ([a] + rest)[1..] == rest;
  }

  lemma RunTwo<V>(s: State<V>, a: Action<V>, b: Action<V>)
    requires s.slots != []
    ensures Run(s, [a, b]) == Step(Step(s, a).0, b).0
  {
    var none: seq<Action<V>> := [];
    assert [a, b] == [a] + [b] && [b] == [b] + none;
    RunFirst(s, a, [b]);
    RunFirst(Step(s, a).0, b, none);
  }

  lemma RunThree<V>(s: State<V>, a: Action<V>, b: Action<V>, c: Action<V>)
    requires s.slots != []
    ensures Run(s, [a, b, c]) == Step(Step(Step(s, a).0, b).0, c).0
  {
    assert [a, b, c] == [a] + [b, c];
    RunFirst(s, a, [b, c]);
    RunTwo(Step(s, a).0, b, c);
  }

  const FILL_TWO: seq<Action<int>> := [Push(1), EndCopy, Publish, Push(2), EndCopy, Publish]

  function FullOfTwo(): State<int> {
    State(true, [Some(1), Some(2)], 0, 2, Idle, Resting, [1, 2], [])
  }

  lemma FillTwo()
    ensures Run(Init<int>(2, true), FILL_TWO) == FullOfTwo()
  {
    var one: seq<Action<int>>, two: seq<Action<int>> := [Push(1), EndCopy, Publish], [Push(2), EndCopy, Publish];
    var s0 := Init<int>(2, true);
    assert FILL_TWO == one + two;
    RunConcat(s0, one, two);
    PushedOne();
    PushedTwo();
  }

  function HalfOfTwo(): State<int> {
    State(true, [Some(1), None], 0, 1, Idle, Resting, [1], [])
  }

  lemma PushedOne()
    ensures Run(Init<int>(2, true), [Push(1), EndCopy, Publish]) == HalfOfTwo()
  {
    RunThree(Init<int>(2, true), Push(1), EndCopy, Publish);
  }

  lemma PushedTwo()
    ensures Run(HalfOfTwo(), [Push(2), EndCopy, Publish]) == FullOfTwo()
  {
    RunThree(HalfOfTwo(), Push(2), EndCopy, Publish);
  }

  // A queue of two that holds 1 and 2 is overwritten with 3 while the consumer
  // pops: what comes out is 3, which is still in the queue.
  lemma TornExample()
    ensures var s := Run(Init<int>(2, true), FILL_TWO + ([Push(3), Pop(false), SeeTail] + [BeginMove, EndMove, EndRead]));
            s.pushed == [1, 2] && s.consumer == Read(0, false, 3)
  {
    var begin: seq<Action<int>>, end: seq<Action<int>> := [Push(3), Pop(false), SeeTail], [BeginMove, EndMove, EndRead];
    FillTwo();
    RunConcat(Init<int>(2, true), FILL_TWO, begin + end);
    RunConcat(FullOfTwo(), begin, end);
    RunThree(FullOfTwo(), Push(3), Pop(false), SeeTail);
    var s1 := FullOfTwo().(producer := Loaded(0, 3), consumer := Reading(0, false));
    assert Run(FullOfTwo(), begin) == s1;
    RunThree(s1, BeginMove, EndMove, EndRead);
  }

  const POP_ONE: seq<Action<int>> := [Pop(false)] + [SeeTail, EndRead, Retire]

  lemma PopsOne(s: State<int>)
    requires s.slots != []
    ensures Run(s, POP_ONE) == Step(Step(Step(Step(s, Pop(false)).0, SeeTail).0, EndRead).0, Retire).0
  {
    RunFirst(s, Pop(false), [SeeTail, EndRead, Retire]);
    RunThree(Step(s, Pop(false)).0, SeeTail, EndRead, Retire);
  }

  // The queue of two, once a push of 3 has loaded the head and the consumer has
  // popped n elements.
  function PoppedBeside(n: nat): State<int>
    requires n <= 2
  {
    var slots: seq<Option<int>> := if n == 0 then [Some(1), Some(2)] else if n == 1 then [None, Some(2)] else [None, None];
    var gone: seq<Option<int>> := [Some(1), Some(2)];
    State(true, slots, n, 2, Loaded(0, 3), Resting, [1, 2], gone[..n])
  }

  lemma PopsBeside(n: nat)
    requires n < 2
    ensures Run(PoppedBeside(n), POP_ONE) == PoppedBeside(n + 1)
  {
    PopsOne(PoppedBeside(n));
  }

  lemma BothPopped()
    ensures Run(FullOfTwo(), [Push(3)] + (POP_ONE + POP_ONE)) == PoppedBeside(2)
  {
    RunFirst(FullOfTwo(), Push(3), POP_ONE + POP_ONE);
    RunConcat(PoppedBeside(0), POP_ONE, POP_ONE);
    PopsBeside(0);
    PopsBeside(1);
  }

  // Then the push goes on, and the head goes back from 2 to 1, where there is no
  // element any more.
  lemma HeadGoesBackExample()
    ensures var before := FILL_TWO + ([Push(3)] + (POP_ONE + POP_ONE));
            var s, s' := Run(Init<int>(2, true), before), Run(Init<int>(2, true), before + [BeginMove, EndMove, StoreHead]);
            && s.head == 2 && s.gone == [Some(1), Some(2)]
            && s'.head == 1 && s'.slots == [Some(3), None] && s'.gone == [Some(1)]
  {
    var rest: seq<Action<int>>, store: seq<Action<int>> := [Push(3)] + (POP_ONE + POP_ONE), [BeginMove, EndMove, StoreHead];
    FillTwo();
    BothPopped();
    RunConcat(Init<int>(2, true), FILL_TWO, rest);
    RunConcat(Init<int>(2, true), FILL_TWO + rest, store);
  }
}
