/** When the multi-producer queue still delivers: which tickets can be popped. */
module MpscProgress {
  import opened Mpsc

  // A ticket that will never be published: given up, or held by a push that
  // has used up its spins.
  predicate Doomed<V>(s: State<V>, t: nat) {
    && t < |s.fate|
    && match s.fate[t]
       case Done => false
       case Abandoned => true
       case Held(h) => h < |s.producers| && s.producers[h].Spinning? && s.producers[h].spins == 0
  }

  // No ticket up to t stands in the way.
  ghost predicate Clear<V>(s: State<V>, t: nat) {
    forall u: nat :: s.dequeuePos <= u <= t ==> !Doomed(s, u)
  }

  ghost predicate Poppable<V(!new)>(s: State<V>, t: nat)
    requires s.cells != []
  {
    exists schedule :: |Run(s, schedule).popped| > t
  }

  // ---- A doomed ticket is never popped ----

  lemma DoomedStays<V>(s: State<V>, t: nat, a: Action<V>)
    requires Inv(s) && Doomed(s, t)
    ensures Doomed(Step(s, a).0, t)
  {
  }

  lemma {:induction false} DoomedNeverPopped<V>(s: State<V>, t: nat, schedule: seq<Action<V>>)
    requires Inv(s) && Doomed(s, t)
    ensures Inv(Run(s, schedule)) && |Run(s, schedule).popped| <= t
    decreases |schedule|
  {
    if schedule != [] {
      StepKeepsInv(s, schedule[0]);
      DoomedStays(s, t, schedule[0]);
      DoomedNeverPopped(Step(s, schedule[0]).0, t, schedule[1..]);
    }
  }

  // ---- Otherwise some schedule pops it ----

  // The step that brings the next pop closer.
  function Helpful<V>(s: State<V>): Action<V>
    requires s.dequeuePos < |s.fate|
  {
    match s.consumer
    case Moving => EndMove
    case Moved(_) => Release
    case Released(_) => Advance
    case Checking(_) => Check
    case Resting => Awaiting(s, Pop(1))
    case Seeking(spins) => if spins == 0 then GiveUpPop else Awaiting(s, Seek)
  }

  // The next ticket's push has to complete first.
  function Awaiting<V>(s: State<V>, ready: Action<V>): Action<V>
    requires s.dequeuePos < |s.fate|
  {
    match s.fate[s.dequeuePos]
    case Held(h) =>
      if h >= |s.producers| then ready
      else
        (match s.producers[h]
         case Spinning(_, _, _) => Load(h)
         case Copying(_, _) => EndCopy(h)
         case _ => Publish(h))
    case _ => ready
  }

  // How many helpful steps remain until the next pop.
  function Rank<V>(s: State<V>): nat
    requires s.dequeuePos < |s.fate|
  {
    ConsumerRank(s.consumer) + match s.fate[s.dequeuePos]
    case Held(h) =>
      if h >= |s.producers| then 0
      else
        (match s.producers[h]
         case Spinning(_, _, _) => 3
         case Copying(_, _) => 2
         case _ => 1)
    case _ => 0
  }

  function ConsumerRank<V>(c: Consumer<V>): nat {
    match c
    case Released(_) => 1
    case Moved(_) => 2
    case Moving => 3
    case Seeking(spins) => if spins == 0 then 6 else 4
    case Resting => 5
    case Checking(_) => 7
  }

  lemma HelpfulLoad<V>(s: State<V>)
    requires Inv(s) && s.dequeuePos < s.enqueuePos && s.fate[s.dequeuePos].Held? && !Doomed(s, s.dequeuePos)
    ensures var h := s.fate[s.dequeuePos].tid;
            && h < |s.producers| && Holds(s.producers[h], s.dequeuePos) && Base(s) == s.dequeuePos
            && (s.producers[h].Spinning? ==> Step(s, Load(h)).0.producers[h].Copying?)
  {
    var h := s.fate[s.dequeuePos].tid;
    if s.producers[h].Spinning? {
      LoadAdmits(s, h);
    }
  }

  lemma HelpfulClear<V>(s: State<V>, t: nat)
    requires Inv(s) && s.dequeuePos <= t < s.enqueuePos && Clear(s, t)
    requires s.fate[s.dequeuePos].Held? ==>
               var h := s.fate[s.dequeuePos].tid;
               h < |s.producers| && (s.producers[h].Spinning? ==> Step(s, Load(h)).0.producers[h].Copying?)
    ensures Clear(Step(s, Helpful(s)).0, t)
  {
    var s' := Step(s, Helpful(s)).0;
    forall u: nat | s'.dequeuePos <= u <= t
      ensures !Doomed(s', u)
    {
      assert !Doomed(s, u);
    }
  }

  // The producer that holds the next ticket makes progress ...
  lemma HolderStep<V>(s: State<V>)
    requires Inv(s) && s.dequeuePos < s.enqueuePos && s.fate[s.dequeuePos].Held? && !Doomed(s, s.dequeuePos)
    requires s.consumer.Resting? || (s.consumer.Seeking? && s.consumer.spins > 0)
    ensures var s' := Step(s, Helpful(s)).0;
            s'.enqueuePos == s.enqueuePos && s'.dequeuePos == s.dequeuePos && Rank(s') < Rank(s)
  {
    HelpfulLoad(s);
  }

  // ... or the consumer does.
  lemma ConsumerStep<V>(s: State<V>)
    requires Inv(s) && s.dequeuePos < s.enqueuePos
    requires s.consumer.Resting? || (s.consumer.Seeking? && s.consumer.spins > 0) ==> s.fate[s.dequeuePos].Done?
    ensures var s' := Step(s, Helpful(s)).0;
            && s'.enqueuePos == s.enqueuePos && s'.fate == s.fate && s'.producers == s.producers
            && (s'.dequeuePos == s.dequeuePos + 1 ||
                (s'.dequeuePos == s.dequeuePos && ConsumerRank(s'.consumer) < ConsumerRank(s.consumer)))
  {
    if s.consumer.Moving? {
      NeverStuck(s, 0);
    } else if s.consumer.Seeking? && s.consumer.spins > 0 {
      SeekFinds(s, s.consumer.spins);
    }
  }

  lemma HelpfulStep<V>(s: State<V>, t: nat)
    requires Inv(s) && s.dequeuePos <= t < s.enqueuePos && Clear(s, t)
    ensures var s' := Step(s, Helpful(s)).0;
            && Inv(s') && Clear(s', t) && s'.enqueuePos == s.enqueuePos
            && (s'.dequeuePos == s.dequeuePos + 1 || (s'.dequeuePos == s.dequeuePos && Rank(s') < Rank(s)))
  {
    StepKeepsInv(s, Helpful(s));
    assert !Doomed(s, s.dequeuePos);
    if s.fate[s.dequeuePos].Held? {
      HelpfulLoad(s);
    }
    HelpfulClear(s, t);
    if s.fate[s.dequeuePos].Held? && (s.consumer.Resting? || (s.consumer.Seeking? && s.consumer.spins > 0)) {
      HolderStep(s);
    } else {
      assert s.fate[s.dequeuePos] != Abandoned;
      ConsumerStep(s);
    }
  }

  lemma {:induction false} Drive<V>(s: State<V>, t: nat) returns (schedule: seq<Action<V>>)
    requires Inv(s) && t < s.enqueuePos && Clear(s, t)
    ensures |Run(s, schedule).popped| > t
    decreases if t < s.dequeuePos then 0 else t + 1 - s.dequeuePos, if t < s.dequeuePos then 0 else Rank(s)
  {
    if t < s.dequeuePos {
      schedule := [];
    } else {
      HelpfulStep(s, t);
      var a := Helpful(s);
      var rest := Drive(Step(s, a).0, t);
      schedule := [a] + rest;
      assert schedule[1..] == rest;
    }
  }

  // A ticket that has been taken can still be popped exactly when no ticket
  // from the next one up to it has been given up or is out of spins.
  lemma PoppableIff<V(!new)>(s: State<V>, t: nat)
    requires Inv(s) && t < s.enqueuePos
    ensures Poppable(s, t) <==> Clear(s, t)
  {
    if Clear(s, t) {
      var schedule := Drive(s, t);
    } else {
      var u: nat :| s.dequeuePos <= u <= t && Doomed(s, u);
      forall schedule
        ensures |Run(s, schedule).popped| <= t
      {
        DoomedNeverPopped(s, u, schedule);
      }
    }
  }

  // ---- The caller's view ----

  // Whether some push of the run answered full.
  predicate SomeFull<V>(s: State<V>, schedule: seq<Action<V>>)
    requires s.cells != []
    decreases |schedule|
  {
    schedule != [] && (Step(s, schedule[0]).1.PushFull? || SomeFull(Step(s, schedule[0]).0, schedule[1..]))
  }

  lemma {:induction false} FullIsAbandoned<V>(s: State<V>, schedule: seq<Action<V>>)
    requires Inv(s)
    ensures Abandoned in Run(s, schedule).fate <==> Abandoned in s.fate || SomeFull(s, schedule)
    decreases |schedule|
  {
    if schedule != [] {
      var (s', r) := Step(s, schedule[0]);
      StepKeepsInv(s, schedule[0]);
      StepAbandons(s, schedule[0]);
      FullIsAbandoned(s', schedule[1..]);
    }
  }

  lemma StepAbandons<V>(s: State<V>, a: Action<V>)
    requires Inv(s)
    ensures Abandoned in Step(s, a).0.fate <==> Abandoned in s.fate || Step(s, a).1.PushFull?
  {
    var (s', r) := Step(s, a);
    if a.GiveUp? && r.PushFull? {
      assert s'.fate[r.ticket] == Abandoned;
    }
    if i :| 0 <= i < |s.fate| && s.fate[i] == Abandoned {
      assert s'.fate[i] == Abandoned;
    }
    if a.Push? && s' != s {
      assert s'.fate == s.fate + [Held(a.tid)];
    }
  }

  // Some continuation pops everything that has been pushed.
  ghost predicate DeliversAll<V(!new)>(s: State<V>)
    requires s.cells != []
  {
    exists schedule :: |Run(s, schedule).popped| >= |s.claimed|
  }

  // Once all pushes have returned, everything pushed can still be popped
  // exactly when none of them answered full.
  lemma DeliversAllIff<V(!new)>(capacity: nat, producers: nat, schedule: seq<Action<V>>)
    requires 2 <= capacity
    requires var s := Run(Init<V>(capacity, producers), schedule);
             forall i :: 0 <= i < |s.producers| ==> s.producers[i].Idle?
    ensures DeliversAll(Run(Init<V>(capacity, producers), schedule)) <==> !SomeFull(Init<V>(capacity, producers), schedule)
  {
    var s0 := Init<V>(capacity, producers);
    var s := Run(s0, schedule);
    InitInv<V>(capacity, producers);
    RunKeepsInv(s0, schedule);
    FullIsAbandoned(s0, schedule);
    assert s0.fate == [];
    if s.enqueuePos == 0 {
      var none: seq<Action<V>> := [];
      assert |Run(s, none).popped| >= |s.claimed|;
    } else {
      PoppableIff(s, s.enqueuePos - 1);
      IdleClear(s);
      DeliversAtLeast(s);
    }
  }

  lemma IdleClear<V>(s: State<V>)
    requires Tickets(s) && s.enqueuePos > 0 && forall i :: 0 <= i < |s.producers| ==> s.producers[i].Idle?
    ensures Clear(s, s.enqueuePos - 1) <==> Abandoned !in s.fate
  {
    if Abandoned in s.fate {
      var i :| 0 <= i < |s.fate| && s.fate[i] == Abandoned;
      assert Doomed(s, i) && s.dequeuePos <= i;
    }
  }

  lemma DeliversAtLeast<V(!new)>(s: State<V>)
    requires s.cells != [] && |s.claimed| > 0
    ensures DeliversAll(s) <==> Poppable(s, |s.claimed| - 1)
  {
    if DeliversAll(s) {
      var schedule :| |Run(s, schedule).popped| >= |s.claimed|;
      assert |Run(s, schedule).popped| > |s.claimed| - 1;
    }
    if Poppable(s, |s.claimed| - 1) {
      var schedule :| |Run(s, schedule).popped| > |s.claimed| - 1;
      assert |Run(s, schedule).popped| >= |s.claimed|;
    }
  }

  // One push that may not spin is enough: it gives up its ticket on an empty
  // queue, and nothing pushed later is ever popped.
  lemma OneGiveUpStopsAll(schedule: seq<Action<int>>)
    ensures var s := Run(Init<int>(2, 1), [Push(0, 7, 0), GiveUp(0)]);
            && s.fate == [Abandoned] && s.popped == [] && s.consumer == Resting
            && |Run(s, schedule).popped| == 0
  {
    var s0 := Init<int>(2, 1);
    var push: Action<int>, giveUp: Action<int> := Push(0, 7, 0), GiveUp(0);
    var s1 := Step(s0, push).0;
    var s := Step(s1, giveUp).0;
    assert [push, giveUp][1..] == [giveUp] && [giveUp][1..] == [];
    assert Run(s0, [push, giveUp]) == Run(s1, [giveUp]) == Run(s, []);
    InitInv<int>(2, 1);
    StepKeepsInv(s0, push);
    StepKeepsInv(s1, giveUp);
    AbandonedTicketBlocks(s, 0, schedule);
  }
}
