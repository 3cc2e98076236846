/** The handle pool: slots named by an index and a 16-bit generation. */
module HandlePool {
  import opened Common
  import opened Links
  import opened Modular

  const INVALID_HANDLE := 0
  const INDEX_LIMIT: nat := 0x1_0000
  // Generations cycle through 1 .. PERIOD.
  const PERIOD: nat := 0xFFFF

  function MakeHandle(index: nat, generation: nat): nat {
    generation * INDEX_LIMIT + index
  }

  function HandleIndex(handle: nat): nat {
    handle % INDEX_LIMIT
  }

  function HandleGeneration(handle: nat): nat {
    handle / INDEX_LIMIT
  }

  lemma HandleParts(index: nat, generation: nat)
    requires index < INDEX_LIMIT
    ensures HandleIndex(MakeHandle(index, generation)) == index
    ensures HandleGeneration(MakeHandle(index, generation)) == generation
  {
  }

  // What release, get and valid accept.
  predicate Accepts(generations: seq<nat>, handle: nat) {
    && handle != INVALID_HANDLE
    && HandleIndex(handle) < |generations|
    && generations[HandleIndex(handle)] == HandleGeneration(handle)
  }

  // The generation of a slot once it has been acquired.
  function Begun(generation: nat): nat {
    if generation == 0 then 1 else generation
  }

  function Bumped(generation: nat): nat {
    if generation == PERIOD then 1 else generation + 1
  }

  // The generation of a slot that has been released r times and acquired.
  function Generation(r: nat): nat {
    1 + r % PERIOD
  }

  lemma GenerationBumps(r: nat)
    ensures Bumped(Generation(r)) == Generation(r + 1)
    ensures Bumped(0xFFFF) == 1 && forall g: nat :: g < 0xFFFF ==> Bumped(g) == g + 1
  {
    if r % PERIOD == PERIOD - 1 {
      DivModUnique(r + 1, PERIOD, r / PERIOD + 1, 0);
    } else {
      DivModUnique(r + 1, PERIOD, r / PERIOD, r % PERIOD + 1);
    }
  }

  lemma SameGeneration(r: nat, s: nat)
    requires r <= s
    ensures Generation(r) == Generation(s) <==> (s - r) % PERIOD == 0
  {
    if r % PERIOD == s % PERIOD {
      DivModUnique(s - r, PERIOD, s / PERIOD - r / PERIOD, 0);
    }
    if (s - r) % PERIOD == 0 {
      AddMod(s - r, r, PERIOD);
      AddMod(r, 0, PERIOD);
    }
  }

  // An acquisition: the slot, and how often it had been released by then.
  datatype Ticket = Ticket(index: nat, at: nat)

  function HandleOf(t: Ticket): nat {
    MakeHandle(t.index, Generation(t.at))
  }

  // The history of the slots.
  datatype History = History(releases: seq<nat>, live: seq<bool>)

  // Between any two releases of a slot lies one acquisition.
  predicate Issued(h: History, t: Ticket) {
    && t.index < |h.releases| && t.index < |h.live|
    && (t.at < h.releases[t.index] || (t.at == h.releases[t.index] && h.live[t.index]))
  }

  ghost predicate Tracks(generations: seq<nat>, h: History) {
    && |h.releases| == |h.live| == |generations| <= INDEX_LIMIT
    && forall i :: 0 <= i < |generations| ==>
         generations[i] == Generation(h.releases[i]) || (generations[i] == 0 == h.releases[i] && !h.live[i])
  }

  // An issued handle is accepted exactly when the releases of its slot since
  // then are a multiple of 65535: until its own release and not again for the
  // next 65534.
  lemma IssuedAccepted(generations: seq<nat>, h: History, t: Ticket)
    requires Tracks(generations, h) && Issued(h, t)
    ensures Accepts(generations, HandleOf(t)) <==> (h.releases[t.index] - t.at) % PERIOD == 0
    ensures h.releases[t.index] - t.at < PERIOD ==> (Accepts(generations, HandleOf(t)) <==> t.at == h.releases[t.index])
  {
    HandleParts(t.index, Generation(t.at));
    SameGeneration(t.at, h.releases[t.index]);
    if h.releases[t.index] - t.at < PERIOD {
      DivModUnique(h.releases[t.index] - t.at, PERIOD, 0, h.releases[t.index] - t.at);
    }
  }

  // ---- Runs ----

  // What acquire and release do to the history.
  datatype Event = Acquired(index: nat) | Released(index: nat)

  // Callers release live slots only, and acquire takes free ones.
  predicate Allowed(h: History, e: Event) {
    e.index < |h.releases| == |h.live| && h.live[e.index] == e.Released?
  }

  function Next(h: History, e: Event): History
    requires Allowed(h, e)
  {
    match e
    case Acquired(i) => h.(live := h.live[i := true])
    case Released(i) => History(h.releases[i := h.releases[i] + 1], h.live[i := false])
  }

  ghost predicate Runs(h: History, events: seq<Event>, h': History)
    decreases |events|
  {
    if events == [] then h' == h
    else Allowed(h, events[0]) && Runs(Next(h, events[0]), events[1..], h')
  }

  function ReleasesOf(events: seq<Event>, index: nat): nat {
    if events == [] then 0
    else (if events[0] == Released(index) then 1 else 0) + ReleasesOf(events[1..], index)
  }

  lemma {:induction false} RunCountsReleases(h: History, events: seq<Event>, h': History, t: Ticket)
    requires Runs(h, events, h') && Issued(h, t)
    ensures Issued(h', t) && h'.releases[t.index] == h.releases[t.index] + ReleasesOf(events, t.index)
    decreases |events|
  {
    if events != [] {
      RunCountsReleases(Next(h, events[0]), events[1..], h', t);
    }
  }

  // Over every run after an acquisition: the handle is accepted until the slot
  // is released, and then not before it has been released 65535 times.
  lemma HandleLifetime(h: History, events: seq<Event>, h': History, generations: seq<nat>, t: Ticket)
    requires Runs(h, events, h') && Tracks(generations, h')
    requires Issued(h, t) && t.at == h.releases[t.index]
    ensures Accepts(generations, HandleOf(t)) <==> ReleasesOf(events, t.index) % PERIOD == 0
    ensures t.index < |h'.live| && (ReleasesOf(events, t.index) == 0 ==> h'.live[t.index])
    ensures 0 < ReleasesOf(events, t.index) < PERIOD ==> !Accepts(generations, HandleOf(t))
  {
    RunCountsReleases(h, events, h', t);
    IssuedAccepted(generations, h', t);
  }

  // Validity compares generations only. Of the handles that name a slot, one is
  // accepted, live or not, unless it is the invalid handle.
  lemma OneAccepted(generations: seq<nat>, index: nat, handle: nat)
    requires index < |generations| <= INDEX_LIMIT && HandleIndex(handle) == index
    ensures Accepts(generations, handle) <==> handle == MakeHandle(index, generations[index]) && handle != INVALID_HANDLE
  {
    HandleParts(index, generations[index]);
  }

  // For a free slot that one handle has been issued before exactly when the
  // slot has been released 65535 times.
  lemma UnissuedAccepted(generations: seq<nat>, h: History, index: nat)
    requires Tracks(generations, h) && index < |generations| && !h.live[index]
    ensures (exists at: nat :: Issued(h, Ticket(index, at)) && HandleOf(Ticket(index, at)) == MakeHandle(index, generations[index]))
            <==> h.releases[index] >= PERIOD
  {
    var r := h.releases[index];
    if r >= PERIOD {
      DivModUnique(PERIOD, PERIOD, 1, 0);
      SameGeneration(r - PERIOD, r);
      assert Issued(h, Ticket(index, r - PERIOD)) && HandleOf(Ticket(index, r - PERIOD)) == MakeHandle(index, generations[index]);
    } else {
      forall at: nat | Issued(h, Ticket(index, at))
        ensures HandleOf(Ticket(index, at)) != MakeHandle(index, generations[index])
      {
        HandleParts(index, Generation(at));
        HandleParts(index, generations[index]);
        SameGeneration(at, r);
        DivModUnique(r - at, PERIOD, 0, r - at);
      }
    }
  }

  // So a caller who only presents handles issued to it names live slots, until
  // a slot has been released 65535 times.
  lemma IssuedNamesLive(generations: seq<nat>, h: History, t: Ticket)
    requires Tracks(generations, h) && Issued(h, t) && h.releases[t.index] < PERIOD
    ensures Accepts(generations, HandleOf(t)) ==> h.live[t.index]
  {
    IssuedAccepted(generations, h, t);
  }

  // An accepted handle names a live slot exactly when it is the one that the
  // latest acquisition of that slot issued, and not released since.
  lemma AcceptedIsCurrent(generations: seq<nat>, h: History, handle: nat)
    requires Tracks(generations, h) && Accepts(generations, handle)
    ensures var index := HandleIndex(handle);
            var t := Ticket(index, h.releases[index]);
            h.live[index] <==> Issued(h, t) && HandleOf(t) == handle
  {
  }

  // In a fresh pool of n slots, where none is live, the handles 1 .. n - 1 are
  // accepted.
  lemma FreshAccepts(n: nat, handle: nat)
    requires n <= INDEX_LIMIT
    ensures Accepts(seq(n, _ => 0), handle) <==> 0 < handle < n
  {
  }

  lemma TracksRelease(generations: seq<nat>, h: History, index: nat)
    requires Tracks(generations, h) && index < |generations|
    ensures h.live[index] ==> Tracks(generations[index := Bumped(generations[index])], Next(h, Released(index)))
  {
    GenerationBumps(h.releases[index]);
  }

  // ---- The pool ----

  // The free stack holds exactly the slots that are not live; where gives the
  // place of each.
  ghost predicate Stacked(stack: seq<nat>, freeCount: nat, live: seq<bool>, where: seq<nat>) {
    && |stack| == |live| == |where| && freeCount <= |stack|
    && (forall j :: 0 <= j < freeCount ==> stack[j] < |live| && !live[stack[j]] && where[stack[j]] == j)
    && (forall i :: 0 <= i < |live| && !live[i] ==> where[i] < freeCount && stack[where[i]] == i)
  }

  // What acquire relies on: the stack is in bounds and lists no slot twice.
  ghost predicate Sound(stack: seq<nat>, freeCount: nat) {
    && freeCount <= |stack|
    && (forall j :: 0 <= j < freeCount ==> stack[j] < |stack|)
    && (forall i, j :: 0 <= i < j < freeCount ==> stack[i] != stack[j])
  }

  // The stack is full exactly when no slot is live.
  lemma RoomIff(stack: seq<nat>, freeCount: nat, live: seq<bool>, where: seq<nat>)
    requires Stacked(stack, freeCount, live, where)
    ensures freeCount < |stack| <==> exists i :: 0 <= i < |live| && live[i]
  {
    if i :| 0 <= i < |live| && live[i] {
      var free := stack[..freeCount];
      assert forall j :: 0 <= j < freeCount ==> free[j] == stack[j] && !live[free[j]];
      Pigeonhole(free, |stack|);
      assert i !in free;
    } else if freeCount < |stack| {
      Pigeonhole(where, freeCount);
    }
  }

  // Pushing a slot leaves the stack sound exactly when the slot was live.
  lemma PushSound(stack: seq<nat>, freeCount: nat, live: seq<bool>, where: seq<nat>, index: nat)
    requires Stacked(stack, freeCount, live, where) && index < |live|
    ensures freeCount < |stack| && Sound(stack[freeCount := index], freeCount + 1) <==> live[index]
  {
    if live[index] {
      RoomIff(stack, freeCount, live, where);
    } else if freeCount < |stack| {
      var stack' := stack[freeCount := index];
      assert stack'[where[index]] == stack'[freeCount];
    }
  }

  // Popping takes a free slot, and the handle made for it is the one it issues.
  lemma PopsFree(generations: seq<nat>, stack: seq<nat>, freeCount: nat, h: History, where: seq<nat>)
    requires Tracks(generations, h) && Stacked(stack, freeCount, h.live, where) && freeCount > 0
    ensures var index := stack[freeCount - 1];
            && index < |generations| && Allowed(h, Acquired(index))
            && var h', generations' := Next(h, Acquired(index)), generations[index := Begun(generations[index])];
               var t := Ticket(index, h.releases[index]);
               && Tracks(generations', h') && Stacked(stack, freeCount - 1, h'.live, where)
               && Issued(h', t) && HandleOf(t) == MakeHandle(index, generations'[index]) != INVALID_HANDLE
               && Accepts(generations', HandleOf(t))
  {
    var index := stack[freeCount - 1];
    HandleParts(index, Begun(generations[index]));
  }

  // A free slot that is pushed again is listed twice, if there is room.
  lemma PushedTwice(stack: seq<nat>, freeCount: nat, live: seq<bool>, where: seq<nat>, index: nat)
    requires Stacked(stack, freeCount, live, where) && index < |live| && !live[index] && freeCount < |stack|
    ensures where[index] < freeCount
    ensures var stack' := stack[freeCount := index];
            && stack'[freeCount] == index && stack'[where[index]] == index
            && (forall j :: 0 <= j <= freeCount ==> stack'[j] < |stack|)
            && (forall j :: where[index] < j < freeCount ==> stack'[j] != index)
  {
  }

  class Pool {
    const capacity: nat
    const generations: array<nat>
    const freeStack: array<nat>
    var freeCount: nat
    var liveCount: nat

    ghost var history: History
    ghost var where: seq<nat>

    ghost predicate Shape()
      reads this
    {
      generations != freeStack && generations.Length == freeStack.Length == capacity <= INDEX_LIMIT
    }

    ghost predicate Valid()
      reads this, generations, freeStack
    {
      && Shape() && 0 < capacity
      && Tracks(generations[..], history) && Stacked(freeStack[..], freeCount, history.live, where)
      && liveCount + freeCount == capacity
    }

    // The part of it that does not speak of the history.
    ghost predicate Consistent()
      requires Shape()
      reads this, freeStack
    {
      Sound(freeStack[..], freeCount) && liveCount + freeCount == capacity
    }

    // The free and the live slots partition the pool.
    lemma Partition(index: nat)
      requires Valid() && index < capacity
      ensures index in freeStack[..freeCount] <==> !history.live[index]
      ensures forall i, j :: 0 <= i < j < freeCount ==> freeStack[i] != freeStack[j]
    {
      if !history.live[index] {
        assert freeStack[..freeCount][where[index]] == index;
      }
    }

    constructor (generations: array<nat>, freeStack: array<nat>)
      requires generations != freeStack && generations.Length == freeStack.Length && 0 < generations.Length <= INDEX_LIMIT
      modifies generations, freeStack
      ensures Valid() && capacity == generations.Length && liveCount == 0 && freeCount == capacity
      ensures forall i :: 0 <= i < capacity ==> generations[i] == 0 && freeStack[i] == capacity - 1 - i
      ensures this.generations == generations && this.freeStack == freeStack
      ensures history == History(seq(capacity, _ => 0), seq(capacity, _ => false))
    {
      var n := generations.Length;
      this.generations, this.freeStack, capacity := generations, freeStack, n;
      liveCount, freeCount := 0, n;
      history := History(seq(n, _ => 0), seq(n, _ => false));
      where := seq(n, i requires 0 <= i < n => n - 1 - i);
      new;
      ResetFreeList();
    }

    static method Init(generations: array<nat>, freeStack: array<nat>) returns (st: Status, pool: Pool?)
      requires generations != freeStack && generations.Length == freeStack.Length
      modifies generations, freeStack
      ensures st == if generations.Length == 0 || generations.Length - 1 > 0xFFFF then Invalid else Ok
      ensures st == Ok ==> pool != null && fresh(pool) && pool.generations == generations && pool.freeStack == freeStack
      ensures st == Ok ==>
                && pool.Valid() && pool.liveCount == 0 && pool.freeCount == pool.capacity == generations.Length
                && pool.history == History(seq(pool.capacity, _ => 0), seq(pool.capacity, _ => false))
                && forall i :: 0 <= i < pool.capacity ==> generations[i] == 0 && freeStack[i] == pool.capacity - 1 - i
    {
      var capacity := generations.Length;
      if capacity == 0 || capacity - 1 > 0xFFFF {
        return Invalid, null;
      }
      pool := new Pool(generations, freeStack);
      return Ok, pool;
    }

    method ResetFreeList()
      requires generations != freeStack && generations.Length == freeStack.Length == capacity
      modifies generations, freeStack
      ensures forall i :: 0 <= i < capacity ==> generations[i] == 0 && freeStack[i] == capacity - 1 - i
    {
      for i := 0 to capacity
        invariant forall j :: 0 <= j < i ==> generations[j] == 0 && freeStack[j] == capacity - 1 - j
      {
        generations[i] := 0;
        freeStack[i] := capacity - 1 - i;
      }
    }

    // A valid pool hands out a free slot. In any other state the stack may list
    // no slot, or be read past its end, where `beyond` lies.
    method Acquire(beyond: nat) returns (st: Status, index: nat, handle: nat, overread: bool, ghost t: Ticket)
      requires Shape()
      modifies `freeCount, `liveCount, `history, generations
      ensures st == if old(freeCount) == 0 then Full else if index >= capacity then Invalid else Ok
      ensures st == Full ==> !overread && unchanged(this) && freeCount == 0
      ensures st != Full ==> freeCount == old(freeCount) - 1 && overread == (freeCount >= capacity)
      ensures st != Full ==> index == if freeCount >= capacity then beyond else freeStack[freeCount]
      ensures st != Ok ==> handle == INVALID_HANDLE && unchanged(generations) && liveCount == old(liveCount) && history == old(history)
      ensures st == Ok ==>
                && generations[..] == old(generations[..])[index := Begun(old(generations[index]))]
                && handle == MakeHandle(index, generations[index]) && liveCount == Plus1(old(liveCount))
      ensures old(Valid()) ==> Valid() && st != Invalid && !overread && history.releases == old(history.releases)
      ensures old(Valid()) && st == Ok ==>
                && Allowed(old(history), Acquired(index)) && history == Next(old(history), Acquired(index))
                && index < |history.releases| && t == Ticket(index, history.releases[index]) && Issued(history, t)
                && handle == HandleOf(t) != INVALID_HANDLE && Accepts(generations[..], handle)
    {
      ghost var valid, before, count := Valid(), generations[..], freeCount;
      t := Ticket(0, 0);
      st, index, handle, overread := Take(beyond);
      if valid && st != Full {
        PopsFree(before, freeStack[..], count, history, where);
        history := Next(history, Acquired(index));
        t := Ticket(index, history.releases[index]);
      }
    }

    method Take(beyond: nat) returns (st: Status, index: nat, handle: nat, overread: bool)
      requires Shape()
      modifies `freeCount, `liveCount, generations
      ensures st == if old(freeCount) == 0 then Full else if index >= capacity then Invalid else Ok
      ensures st == Full ==> !overread && unchanged(this) && freeCount == 0
      ensures st != Full ==> freeCount == old(freeCount) - 1 && overread == (freeCount >= capacity)
      ensures st != Full ==> index == if freeCount >= capacity then beyond else freeStack[freeCount]
      ensures st != Ok ==> handle == INVALID_HANDLE && unchanged(generations) && liveCount == old(liveCount)
      ensures st == Ok ==>
                && generations[..] == old(generations[..])[index := Begun(old(generations[index]))]
                && handle == MakeHandle(index, generations[index]) && liveCount == Plus1(old(liveCount))
    {
      index, handle, overread := 0, INVALID_HANDLE, false;
      if freeCount == 0 {
        return Full, index, handle, overread;
      }
      freeCount := freeCount - 1;
      overread := freeCount >= capacity;
      index := if overread then beyond else freeStack[freeCount];
      if index >= capacity {
        return Invalid, index, handle, overread;
      }
      generations[index] := Begun(generations[index]);
      handle := MakeHandle(index, generations[index]);
      liveCount := Plus1(liveCount);
      return Ok, index, handle, overread;
    }

    // Nothing keeps an accepted handle from naming a free slot. Its index is then
    // pushed a second time, and past the end of the stack when no slot is live.
    method Release(handle: nat) returns (st: Status, overrun: bool)
      requires Shape()
      modifies `freeCount, `liveCount, `history, `where, generations, freeStack
      ensures st == if Accepts(old(generations[..]), handle) then Ok else Invalid
      ensures st == Invalid ==> !overrun && unchanged(this) && unchanged(generations) && unchanged(freeStack)
      ensures st == Ok ==>
                var index := HandleIndex(handle);
                && overrun == (old(freeCount) >= capacity)
                && generations[..] == old(generations[..])[index := Bumped(old(generations[index]))]
                && freeStack[..] == (if overrun then old(freeStack[..]) else old(freeStack[..])[old(freeCount) := index])
                && freeCount == Plus1(old(freeCount)) && liveCount == Less1(old(liveCount))
      ensures old(Valid()) ==>
                var index := HandleIndex(handle);
                && (Consistent() <==> st == Invalid || old(history.live[index]))
                && (Consistent() ==> Valid())
                && (Consistent() && st == Ok ==>
                      Allowed(old(history), Released(index)) && history == Next(old(history), Released(index)))
                && (overrun <==> st == Ok && forall i :: 0 <= i < capacity ==> !old(history.live[i]))
    {
      overrun := false;
      if handle == INVALID_HANDLE {
        return Invalid, overrun;
      }
      var index := HandleIndex(handle);
      var generation := HandleGeneration(handle);
      if index >= capacity || generations[index] != generation {
        return Invalid, overrun;
      }
      ghost var live := Valid() && history.live[index];
      if Valid() {
        PushSound(freeStack[..], freeCount, history.live, where, index);
        RoomIff(freeStack[..], freeCount, history.live, where);
        TracksRelease(generations[..], history, index);
      }
      overrun := GiveBack(index);
      if live {
        where := where[index := freeCount - 1];
        history := Next(history, Released(index));
      }
      return Ok, overrun;
    }

    method GiveBack(index: nat) returns (overrun: bool)
      requires Shape() && index < capacity
      modifies `freeCount, `liveCount, generations, freeStack
      ensures overrun == (old(freeCount) >= capacity)
      ensures generations[..] == old(generations[..])[index := Bumped(old(generations[index]))]
      ensures freeStack[..] == (if overrun then old(freeStack[..]) else old(freeStack[..])[old(freeCount) := index])
      ensures freeCount == Plus1(old(freeCount)) && liveCount == Less1(old(liveCount))
    {
      generations[index] := Bumped(generations[index]);
      overrun := freeCount >= capacity;
      if !overrun {
        freeStack[freeCount] := index;
      }
      freeCount := Plus1(freeCount);
      liveCount := Less1(liveCount);
    }

    method IsValid(handle: nat) returns (ok: bool)
      requires Shape()
      ensures ok == Accepts(generations[..], handle)
    {
      if handle == INVALID_HANDLE {
        return false;
      }
      var index := HandleIndex(handle);
      return index < capacity && generations[index] == HandleGeneration(handle);
    }
  }

  // Once a free slot has been released by a handle that is accepted, while some
  // slot is live, the next acquisition hands it out, and so does the one that
  // reaches its old place in the stack: `pops` acquisitions later the slot has
  // two owners with one and the same handle.
  method HandsOutTwice(pool: Pool, released: nat, beyond: nat) returns (first: nat, second: nat, pops: nat)
    requires pool.Valid() && Accepts(pool.generations[..], released)
    requires !pool.history.live[HandleIndex(released)]
    requires exists i :: 0 <= i < pool.capacity && pool.history.live[i]
    modifies pool, pool.generations, pool.freeStack
    ensures first == second == MakeHandle(HandleIndex(released), Bumped(HandleGeneration(released)))
    ensures Accepts(pool.generations[..], first)
    ensures pops == old(pool.freeCount) - old(pool.where[HandleIndex(released)]) > 0
    ensures pool.freeCount == old(pool.freeCount) - pops
  {
    var index := HandleIndex(released);
    ghost var top, place := pool.freeCount, pool.where[index];
    RoomIff(pool.freeStack[..], top, pool.history.live, pool.where);
    PushedTwice(pool.freeStack[..], top, pool.history.live, pool.where, index);
    var st, overrun := pool.Release(released);
    ghost var stack := pool.freeStack[..];
    var slot, overread;
    ghost var t;
    st, slot, first, overread, t := pool.Acquire(beyond);
    assert slot == index;
    HandleParts(index, pool.generations[index]);
    slot, second, pops := index + 1, 0, 0;
    while slot != index
      invariant pool.Shape() && pool.freeStack[..] == stack
      invariant 0 <= pops <= top - place && pool.freeCount == top - pops
      invariant pool.generations[index] == Bumped(HandleGeneration(released))
      invariant slot == index <==> pops == top - place
      invariant slot == index ==> second == first
      decreases pool.freeCount
    {
      st, slot, second, overread, t := pool.Acquire(beyond);
      pops := pops + 1;
    }
  }

  // A pool of two slots: one is acquired, and handle 1 names the free other
  // one. Its release is accepted, and two acquisitions yield handle 0x10001.
  method TwoOwnersExample() returns (first: nat, second: nat)
    ensures first == second == 0x1_0001
  {
    var generations, freeStack := new nat[2], new nat[2];
    var st, made := Pool.Init(generations, freeStack);
    var pool: Pool := made;
    var index, handle, overread;
    ghost var t;
    st, index, handle, overread, t := pool.Acquire(0);
    assert pool.history.live[0];
    HandleParts(1, 0);
    assert HandleIndex(1) == 1 && HandleGeneration(1) == 0;
    var pops;
    first, second, pops := HandsOutTwice(pool, 1, 0);
  }
}
