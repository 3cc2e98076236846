/** Open addressing with linear probing and tombstones, on the slot table.

    The functions say what one pass over the table does; the lemmas say when
    that is what a map does. */
module OpenSpec {
  import opened Common
  import opened Growth
  import opened Links
  import opened Modular

  // A deleted slot keeps the bytes of the entry that was removed.
  datatype Slot<K, V> = Vacant | Deleted(key: K, value: V) | Occupied(key: K, value: V)

  // How many steps lead from h to i.
  function Dist(h: nat, i: nat, n: nat): int {
    if h <= i then i - h else i - h + n
  }

  function SlotAt<K, V>(t: seq<Slot<K, V>>, h: nat, d: nat): Slot<K, V>
    requires h < |t| && d < |t|
  {
    t[Pos(h, d, |t|)]
  }

  predicate Matches<K(==), V>(s: Slot<K, V>, key: K) {
    s.Occupied? && s.key == key
  }

  predicate Stops<K(==), V>(s: Slot<K, V>, key: K) {
    s.Vacant? || Matches(s, key)
  }

  // The number of slots a probe from home h passes before it stops.
  function Reach<K(==), V>(t: seq<Slot<K, V>>, h: nat, key: K, d: nat): (r: nat)
    requires h < |t| && d <= |t|
    ensures d <= r <= |t|
    ensures forall e :: d <= e < r ==> !Stops(SlotAt(t, h, e), key)
    ensures r < |t| ==> Stops(SlotAt(t, h, r), key)
    decreases |t| - d
  {
    if d == |t| || Stops(SlotAt(t, h, d), key) then d else Reach(t, h, key, d + 1)
  }

  // The first tombstone among the slots passed, or r if there is none.
  function FirstDeleted<K, V>(t: seq<Slot<K, V>>, h: nat, r: nat, d: nat): (e: nat)
    requires h < |t| && d <= r <= |t|
    ensures d <= e <= r
    ensures forall f :: d <= f < e ==> !SlotAt(t, h, f).Deleted?
    ensures e < r ==> SlotAt(t, h, e).Deleted?
    decreases r - d
  {
    if d == r || SlotAt(t, h, d).Deleted? then d else FirstDeleted(t, h, r, d + 1)
  }

  // What a probe reports: whether its state is `occupied`, and an index. A
  // probe that has seen every slot reports `occupied`, too.
  function Probe<K(==), V>(t: seq<Slot<K, V>>, h: nat, key: K, forInsert: bool): (p: (bool, nat))
    requires h < |t|
    ensures p.1 < |t|
  {
    var r := Reach(t, h, key, 0);
    var e := FirstDeleted(t, h, r, 0);
    if r < |t| && SlotAt(t, h, r).Occupied? then (true, Pos(h, r, |t|))
    else (r == |t|, Pos(h, if forInsert && e < r then e else r, |t|))
  }

  datatype Table<K, V> = Table(slots: seq<Slot<K, V>>, size: nat)

  function Home<K>(hash: K -> nat, key: K, n: nat): (h: nat)
    requires 0 < n
    ensures h < n
  {
    hash(key) % n
  }

  function Put<K(==), V>(t: Table<K, V>, hash: K -> nat, key: K, value: V): (r: (Status, Table<K, V>))
    requires t.slots != []
    ensures |r.1.slots| == |t.slots|
  {
    var (occupied, i) := Probe(t.slots, Home(hash, key, |t.slots|), key, true);
    var s := t.slots[i];
    if occupied then
      if !s.Vacant? && s.key == key then
        (Ok, t.(slots := t.slots[i := s.(value := value)]))
      else
        (Full, t)
    else
      (Ok, Table(t.slots[i := Occupied(key, value)], t.size + 1))
  }

  // A put whose copies may fail. Replacing a value hides the failure; a new
  // entry whose value fails leaves its slot vacant.
  function TryPut<K(==), V>(t: Table<K, V>, hash: K -> nat, key: K, value: V, keyCopy: bool, valueCopy: bool): (r: (Status, Table<K, V>))
    requires t.slots != []
    ensures |r.1.slots| == |t.slots|
  {
    var (occupied, i) := Probe(t.slots, Home(hash, key, |t.slots|), key, true);
    var s := t.slots[i];
    if occupied then
      if !s.Vacant? && s.key == key && !valueCopy then (Ok, t) else Put(t, hash, key, value)
    else if !keyCopy then (CopyFailed, t)
    else if !valueCopy then (CopyFailed, t.(slots := t.slots[i := Vacant]))
    else Put(t, hash, key, value)
  }

  function Get<K(==), V>(t: Table<K, V>, hash: K -> nat, key: K): Option<V>
    requires t.slots != []
  {
    var (occupied, i) := Probe(t.slots, Home(hash, key, |t.slots|), key, false);
    if occupied && !t.slots[i].Vacant? then Some(t.slots[i].value) else None
  }

  function Contains<K(==), V>(t: Table<K, V>, hash: K -> nat, key: K): bool
    requires t.slots != []
  {
    Probe(t.slots, Home(hash, key, |t.slots|), key, false).0
  }

  function Remove<K(==), V>(t: Table<K, V>, hash: K -> nat, key: K): (r: (Status, Table<K, V>))
    requires t.slots != []
    ensures |r.1.slots| == |t.slots|
  {
    var (occupied, i) := Probe(t.slots, Home(hash, key, |t.slots|), key, false);
    var s := t.slots[i];
    if occupied && !s.Vacant? then
      (Ok, Table(t.slots[i := Deleted(s.key, s.value)], Less1(t.size)))
    else
      (NotFound, t)
  }

  // ---- The map a table stands for ----

  function Keys<K, V>(t: seq<Slot<K, V>>): set<K> {
    set i | 0 <= i < |t| && t[i].Occupied? :: t[i].key
  }

  ghost predicate Unique<K, V>(t: seq<Slot<K, V>>) {
    forall i, j :: 0 <= i < j < |t| && t[i].Occupied? && t[j].Occupied? ==> t[i].key != t[j].key
  }

  ghost function IndexOf<K, V>(t: seq<Slot<K, V>>, key: K): (i: nat)
    requires key in Keys(t)
    ensures i < |t| && Matches(t[i], key)
  {
    var i :| 0 <= i < |t| && Matches(t[i], key);
    i
  }

  ghost function Abs<K, V>(t: seq<Slot<K, V>>): map<K, V> {
    map k | k in Keys(t) :: t[IndexOf(t, k)].value
  }

  predicate HasVacant<K, V>(t: seq<Slot<K, V>>) {
    exists i :: 0 <= i < |t| && t[i].Vacant?
  }

  predicate NoTombstones<K, V>(t: seq<Slot<K, V>>) {
    forall i :: 0 <= i < |t| ==> !t[i].Deleted?
  }

  // Keys are unique, and no slot between a key's home and its slot is vacant.
  ghost predicate Inv<K, V>(t: seq<Slot<K, V>>, hash: K -> nat) {
    && t != []
    && Unique(t)
    && forall i {:trigger t[i].Occupied?} :: 0 <= i < |t| && t[i].Occupied? ==> PathTo(t, Home(hash, t[i].key, |t|), i)
  }

  ghost predicate PathTo<K, V>(t: seq<Slot<K, V>>, h: nat, i: nat)
    requires h < |t| && i < |t|
  {
    forall e: nat {:trigger SlotAt(t, h, e)} :: e < Dist(h, i, |t|) ==> !SlotAt(t, h, e).Vacant?
  }

  lemma PosDist(h: nat, i: nat, n: nat)
    requires h < n && i < n
    ensures 0 <= Dist(h, i, n) < n && Pos(h, Dist(h, i, n), n) == i
  {
  }

  lemma NextPos(h: nat, d: nat, n: nat)
    requires h < n && d < n
    ensures (Pos(h, d, n) + 1) % n == Pos(h, d + 1, n)
  {
    var i := Pos(h, d, n);
    if i + 1 < n {
      DivModUnique(i + 1, n, 0, i + 1);
    } else {
      DivModUnique(i + 1, n, 1, 0);
    }
  }

  lemma DistPos(h: nat, d: nat, n: nat)
    requires h < n && d < n
    ensures Pos(h, d, n) < n && Dist(h, Pos(h, d, n), n) == d
  {
  }

  lemma AbsAt<K, V>(t: seq<Slot<K, V>>, i: nat)
    requires Unique(t) && i < |t| && t[i].Occupied?
    ensures t[i].key in Abs(t) && Abs(t)[t[i].key] == t[i].value
  {
    assert t[i].key in Keys(t);
    var j := IndexOf(t, t[i].key);
  }

  // ---- A probe finds the key, or the end of its path ----

  lemma ProbeKey<K, V>(t: seq<Slot<K, V>>, hash: K -> nat, key: K, forInsert: bool)
    requires Inv(t, hash) && key in Abs(t)
    ensures var (occupied, i) := Probe(t, Home(hash, key, |t|), key, forInsert);
            occupied && t[i] == Occupied(key, Abs(t)[key])
  {
    var i, h, n := IndexOf(t, key), Home(hash, key, |t|), |t|;
    AbsAt(t, i);
    PosDist(h, i, n);
    var d: nat := Dist(h, i, n);
    assert PathTo(t, h, i);
    var r := Reach(t, h, key, 0);
    assert Stops(SlotAt(t, h, d), key);
    if r < d {
      DistPos(h, r, n);
      assert false;
    }
  }

  lemma ProbeAbsent<K, V>(t: seq<Slot<K, V>>, hash: K -> nat, key: K, forInsert: bool)
    requires Inv(t, hash) && key !in Abs(t)
    ensures var h := Home(hash, key, |t|);
            var (occupied, i) := Probe(t, h, key, forInsert);
            && occupied == !HasVacant(t)
            && (!occupied ==> !t[i].Occupied? && PathTo(t, h, i))
            && (occupied ==> !t[i].Vacant? && (t[i].Occupied? ==> t[i].key != key))
  {
    var h, n := Home(hash, key, |t|), |t|;
    var r := Reach(t, h, key, 0);
    var e := FirstDeleted(t, h, r, 0);
    assert forall j :: 0 <= j < n && t[j].Occupied? ==> t[j].key in Keys(t);
    if r == n {
      forall i | 0 <= i < n
        ensures !t[i].Vacant?
      {
        PosDist(h, i, n);
        assert !Stops(SlotAt(t, h, Dist(h, i, n)), key);
      }
    } else {
      assert SlotAt(t, h, r).Vacant?;
      DistPos(h, r, n);
      DistPos(h, e, n);
      assert forall d: nat :: d < r ==> !SlotAt(t, h, d).Vacant?;
    }
  }

  // In an empty table a key goes to the slot that its hash names, and one whose
  // slot is taken by another key to the slot behind it.
  lemma FirstAtHome<K, V>(n: nat, hash: K -> nat, key: K, value: V, other: K, value': V)
    requires 1 < n && other != key && hash(other) % n == hash(key) % n
    ensures var (h, i) := (hash(key) % n, (hash(key) + 1) % n);
            var (st, t) := Put(Table(Fresh(n), 0), hash, key, value);
            && h < n && i < n && (st, t) == (Ok, Table(Fresh<K, V>(n)[h := Occupied(key, value)], 1))
            && Put(t, hash, other, value') == (Ok, Table(t.slots[i := Occupied(other, value')], 2))
  {
    var h := hash(key) % n;
    var t := Table(Fresh<K, V>(n)[h := Occupied(key, value)], 1);
    assert SlotAt(Fresh<K, V>(n), h, 0).Vacant?;
    NextPos(h, 0, n);
    AddMod(hash(key), 1, n);
    assert !Stops(SlotAt(t.slots, h, 0), other) && SlotAt(t.slots, h, 1).Vacant?;
    assert Reach(t.slots, h, other, 1) == 1 && Reach(t.slots, h, other, 0) == 1;
  }

  // ---- How single slots change the map ----

  ghost predicate PathsKept<K, V>(t: seq<Slot<K, V>>, t': seq<Slot<K, V>>, i: nat) {
    i < |t| == |t'| && t' == t[i := t'[i]] && !t'[i].Vacant?
  }

  lemma InvKept<K, V>(t: seq<Slot<K, V>>, t': seq<Slot<K, V>>, hash: K -> nat, i: nat)
    requires Inv(t, hash) && PathsKept(t, t', i)
    requires t'[i].Occupied? ==> PathTo(t, Home(hash, t'[i].key, |t|), i)
    requires t'[i].Occupied? ==> t'[i].key !in Abs(t) || (t[i].Occupied? && t[i].key == t'[i].key)
    ensures Inv(t', hash)
  {
    assert forall j :: 0 <= j < |t| && t[j].Occupied? ==> t[j].key in Keys(t);
    forall j | 0 <= j < |t'| && t'[j].Occupied?
      ensures PathTo(t', Home(hash, t'[j].key, |t'|), j)
    {
      var h := Home(hash, t'[j].key, |t|);
      assert PathTo(t, h, j);
      forall e: nat | e < Dist(h, j, |t|)
        ensures !SlotAt(t', h, e).Vacant?
      {
        assert !SlotAt(t, h, e).Vacant?;
      }
    }
  }

  lemma AbsInsert<K, V>(t: seq<Slot<K, V>>, t': seq<Slot<K, V>>, i: nat)
    requires Unique(t) && Unique(t') && PathsKept(t, t', i) && t'[i].Occupied?
    requires !t[i].Occupied? || t[i].key == t'[i].key
    ensures Abs(t') == Abs(t)[t'[i].key := t'[i].value]
  {
    var m := Abs(t)[t'[i].key := t'[i].value];
    AbsAt(t', i);
    forall k
      ensures k in Abs(t') <==> k in m
      ensures k in m ==> Abs(t')[k] == m[k]
    {
      if k in Keys(t') {
        var j := IndexOf(t', k);
        if j != i {
          AbsAt(t, j);
        }
      }
      if k in Keys(t) {
        var j := IndexOf(t, k);
        if j != i {
          AbsAt(t', j);
        }
      }
    }
  }

  lemma AbsErase<K, V>(t: seq<Slot<K, V>>, t': seq<Slot<K, V>>, i: nat)
    requires Unique(t) && Unique(t') && PathsKept(t, t', i) && !t'[i].Occupied?
    ensures Abs(t') == if t[i].Occupied? then Abs(t) - {t[i].key} else Abs(t)
  {
    var m := if t[i].Occupied? then Abs(t) - {t[i].key} else Abs(t);
    forall k
      ensures k in Abs(t') <==> k in m
      ensures k in m ==> Abs(t')[k] == m[k]
    {
      if k in Keys(t') {
        AbsAt(t, IndexOf(t', k));
      }
      if k in Keys(t) && IndexOf(t, k) != i {
        AbsAt(t', IndexOf(t, k));
      }
    }
  }

  // ---- The operations on the map ----

  // The table and its size counter describe the same map.
  ghost predicate Exact<K, V>(t: Table<K, V>, hash: K -> nat) {
    Inv(t.slots, hash) && t.size == |Abs(t.slots)|
  }

  // A lookup is right exactly when the key is present or a slot is vacant:
  // a full table of other entries and tombstones answers for any key.
  lemma LookupExact<K, V>(t: Table<K, V>, hash: K -> nat, key: K)
    requires Inv(t.slots, hash)
    ensures var m := Abs(t.slots);
            var right := key in m || HasVacant(t.slots);
            && (Contains(t, hash, key) == (key in m) <==> right)
            && (Get(t, hash, key) == (if key in m then Some(m[key]) else None) <==> right)
  {
    if key in Abs(t.slots) {
      ProbeKey(t.slots, hash, key, false);
    } else {
      ProbeAbsent(t.slots, hash, key, false);
    }
  }

  // So is a removal. Where it is wrong it answers ok, and deletes the entry at
  // the absent key's home slot, if that slot is occupied.
  lemma RemoveExact<K, V>(t: Table<K, V>, hash: K -> nat, key: K)
    requires Inv(t.slots, hash)
    ensures var (st, t') := Remove(t, hash, key);
            var m := Abs(t.slots);
            && Inv(t'.slots, hash) && |t'.slots| == |t.slots|
            && (st == (if key in m then Ok else NotFound) && Abs(t'.slots) == m - {key}
                <==> key in m || HasVacant(t.slots))
            && (key in m || HasVacant(t.slots) ==> t.size == |m| ==> t'.size == |Abs(t'.slots)|)
            && (key !in m && !HasVacant(t.slots) ==>
                  var s := t.slots[Home(hash, key, |t.slots|)];
                  && Abs(t'.slots) == (if s.Occupied? then m - {s.key} else m)
                  && t'.size == Less1(t.size))
  {
    if key in Abs(t.slots) {
      RemovePresent(t, hash, key);
    } else {
      RemoveAbsent(t, hash, key);
    }
  }

  lemma RemovePresent<K, V>(t: Table<K, V>, hash: K -> nat, key: K)
    requires Inv(t.slots, hash) && key in Abs(t.slots)
    ensures var (st, t') := Remove(t, hash, key);
            && Inv(t'.slots, hash) && |t'.slots| == |t.slots|
            && st == Ok && Abs(t'.slots) == Abs(t.slots) - {key}
            && (t.size == |Abs(t.slots)| ==> t'.size == |Abs(t'.slots)|)
  {
    var (occupied, i) := Probe(t.slots, Home(hash, key, |t.slots|), key, false);
    var t' := Remove(t, hash, key).1;
    ProbeKey(t.slots, hash, key, false);
    InvKept(t.slots, t'.slots, hash, i);
    AbsErase(t.slots, t'.slots, i);
    var m := Abs(t.slots);
    assert m.Keys == (m - {key}).Keys + {key};
    assert |m.Keys| == |(m - {key}).Keys| + 1;
  }

  lemma RemoveAbsent<K, V>(t: Table<K, V>, hash: K -> nat, key: K)
    requires Inv(t.slots, hash) && key !in Abs(t.slots)
    ensures var (st, t') := Remove(t, hash, key);
            var s := t.slots[Home(hash, key, |t.slots|)];
            && Inv(t'.slots, hash) && |t'.slots| == |t.slots|
            && Abs(t.slots) - {key} == Abs(t.slots)
            && (HasVacant(t.slots) ==> st == NotFound && t' == t)
            && (!HasVacant(t.slots) ==>
                  && st == Ok && t'.size == Less1(t.size)
                  && Abs(t'.slots) == if s.Occupied? then Abs(t.slots) - {s.key} else Abs(t.slots))
  {
    var (occupied, i) := Probe(t.slots, Home(hash, key, |t.slots|), key, false);
    var t' := Remove(t, hash, key).1;
    ProbeAbsent(t.slots, hash, key, false);
    assert Abs(t.slots) - {key} == Abs(t.slots);
    if occupied {
      assert i == Home(hash, key, |t.slots|);
      InvKept(t.slots, t'.slots, hash, i);
      AbsErase(t.slots, t'.slots, i);
    }
  }

  // A put takes effect exactly when the key is present or a slot is vacant.
  // Otherwise it changes no entry, and answers full, unless the first
  // tombstone on its way still carries the very key: then it answers ok.
  lemma PutExact<K, V>(t: Table<K, V>, hash: K -> nat, key: K, value: V)
    requires Inv(t.slots, hash)
    ensures var (st, t') := Put(t, hash, key, value);
            var m := Abs(t.slots);
            && Inv(t'.slots, hash) && |t'.slots| == |t.slots|
            && (st == Ok && Abs(t'.slots) == m[key := value] <==> key in m || HasVacant(t.slots))
            && (key in m || HasVacant(t.slots) ==> t.size == |m| ==> t'.size == |Abs(t'.slots)|)
            && (key !in m && !HasVacant(t.slots) ==>
                  var (_, i) := Probe(t.slots, Home(hash, key, |t.slots|), key, true);
                  && st == (if t.slots[i].Deleted? && t.slots[i].key == key then Ok else Full)
                  && Abs(t'.slots) == m && t'.size == t.size)
  {
    var (occupied, i) := Probe(t.slots, Home(hash, key, |t.slots|), key, true);
    var t' := Put(t, hash, key, value).1;
    if key in Abs(t.slots) {
      ProbeKey(t.slots, hash, key, true);
      assert PathTo(t.slots, Home(hash, key, |t.slots|), i);
      InvKept(t.slots, t'.slots, hash, i);
      AbsInsert(t.slots, t'.slots, i);
      assert Abs(t'.slots).Keys == Abs(t.slots).Keys;
    } else {
      ProbeAbsent(t.slots, hash, key, true);
      if !occupied {
        InvKept(t.slots, t'.slots, hash, i);
        AbsInsert(t.slots, t'.slots, i);
      } else if t'.slots != t.slots {
        InvKept(t.slots, t'.slots, hash, i);
        AbsErase(t.slots, t'.slots, i);
      }
    }
  }

  // ---- A put whose value cannot be copied ----

  // The slot lies between some key's home and its slot.
  ghost predicate OnPath<K, V>(t: seq<Slot<K, V>>, hash: K -> nat, i: nat)
    requires i < |t|
  {
    exists j :: 0 <= j < |t| && t[j].Occupied? && Passes(t, hash, j, i)
  }

  predicate Passes<K, V>(t: seq<Slot<K, V>>, hash: K -> nat, j: nat, i: nat)
    requires i < |t| && j < |t| && t[j].Occupied?
  {
    var h := Home(hash, t[j].key, |t|);
    Dist(h, i, |t|) < Dist(h, j, |t|)
  }

  // Of a new entry whose key is copied and whose value is not, the map keeps
  // nothing; but a tombstone that it was to reuse becomes vacant. The table
  // stays sound exactly when no key's path led over that slot, and otherwise
  // some key is in the table and not found.
  lemma FailedPut<K(!new), V>(t: Table<K, V>, hash: K -> nat, key: K, value: V)
    requires Inv(t.slots, hash) && !(key in Abs(t.slots)) && HasVacant(t.slots)
    ensures var (st, t') := TryPut(t, hash, key, value, true, false);
            var (_, i) := Probe(t.slots, Home(hash, key, |t.slots|), key, true);
            && st == CopyFailed && t'.size == t.size && |t'.slots| == |t.slots| && Abs(t'.slots) == Abs(t.slots)
            && (Inv(t'.slots, hash) <==> !OnPath(t.slots, hash, i))
            && (OnPath(t.slots, hash, i) <==> exists k :: k in Abs(t'.slots) && !Contains(t', hash, k))
  {
    var (_, i) := Probe(t.slots, Home(hash, key, |t.slots|), key, true);
    var t' := TryPut(t, hash, key, value, true, false).1;
    ProbeAbsent(t.slots, hash, key, true);
    VacatedMap(t.slots, i);
    VacatedInv(t.slots, hash, i);
    if OnPath(t.slots, hash, i) {
      var j :| 0 <= j < |t.slots| && t.slots[j].Occupied? && Passes(t.slots, hash, j, i);
      AbsAt(t.slots, j);
      HiddenKey(t.slots, hash, i, j);
    } else {
      forall k | k in Abs(t'.slots)
        ensures Contains(t', hash, k)
      {
        ProbeKey(t'.slots, hash, k, false);
      }
    }
  }

  // A probe for the key of slot j ends at the vacated slot before it.
  lemma HiddenKey<K, V>(t: seq<Slot<K, V>>, hash: K -> nat, i: nat, j: nat)
    requires Inv(t, hash) && i < |t| && j < |t| && !t[i].Occupied? && t[j].Occupied? && Passes(t, hash, j, i)
    ensures !Probe(t[i := Vacant], Home(hash, t[j].key, |t|), t[j].key, false).0
  {
    var t', key, n := t[i := Vacant], t[j].key, |t|;
    var h := Home(hash, key, n);
    var r := Reach(t', h, key, 0);
    PosDist(h, i, n);
    PosDist(h, j, n);
    var d: nat := Dist(h, i, n);
    assert Stops(SlotAt(t', h, d), key);
    DistPos(h, r, n);
    assert SlotAt(t', h, r).Vacant?;
  }

  lemma VacatedInv<K, V>(t: seq<Slot<K, V>>, hash: K -> nat, i: nat)
    requires Inv(t, hash) && i < |t| && !t[i].Occupied?
    ensures Inv(t[i := Vacant], hash) <==> !OnPath(t, hash, i)
  {
    var t' := t[i := Vacant];
    if OnPath(t, hash, i) {
      var j :| 0 <= j < |t| && t[j].Occupied? && Passes(t, hash, j, i);
      VacatedPath(t, hash, i, j);
      assert t'[j].Occupied?;
    } else {
      forall j | 0 <= j < |t| && t'[j].Occupied?
        ensures PathTo(t', Home(hash, t'[j].key, |t|), j)
      {
        VacatedPath(t, hash, i, j);
      }
    }
  }

  lemma TryPutSound<K, V>(t: Table<K, V>, hash: K -> nat, key: K, value: V, keyCopy: bool, valueCopy: bool)
    requires Inv(t.slots, hash)
    ensures var (_, i) := Probe(t.slots, Home(hash, key, |t.slots|), key, true);
            Inv(TryPut(t, hash, key, value, keyCopy, valueCopy).1.slots, hash) <==>
            !(key !in Abs(t.slots) && HasVacant(t.slots) && keyCopy && !valueCopy && OnPath(t.slots, hash, i))
  {
    PutExact(t, hash, key, value);
    if key in Abs(t.slots) {
      ProbeKey(t.slots, hash, key, true);
    } else {
      ProbeAbsent(t.slots, hash, key, true);
      var (_, i) := Probe(t.slots, Home(hash, key, |t.slots|), key, true);
      if HasVacant(t.slots) && keyCopy && !valueCopy {
        VacatedInv(t.slots, hash, i);
      }
    }
  }

  // What a put into this table leaves, with every outcome of its copies: an
  // entry is stored exactly when its value is copied and, for a new key, the key
  // too and there is a vacant slot.
  ghost predicate PutInto<K, V>(t: Table<K, V>, hash: K -> nat, key: K, value: V, keyCopy: bool, valueCopy: bool, st: Status, t': Table<K, V>)
    requires t.slots != []
  {
    var m, m' := Abs(t.slots), Abs(t'.slots);
    var stored := valueCopy && (key in m || (keyCopy && HasVacant(t.slots)));
    && |t'.slots| == |t.slots|
    && m' == (if stored then m[key := value] else m)
    && t'.size == t.size + (if stored && key !in m then 1 else 0)
    && (key in m ==> st == Ok)
    && (key !in m && HasVacant(t.slots) ==> st == (if stored then Ok else CopyFailed) && (!keyCopy ==> t' == t))
    && (key !in m && !HasVacant(t.slots) ==> st == Full || st == Ok)
  }

  lemma TryPutExact<K, V>(t: Table<K, V>, hash: K -> nat, key: K, value: V, keyCopy: bool, valueCopy: bool)
    requires Inv(t.slots, hash)
    ensures var (st, t') := TryPut(t, hash, key, value, keyCopy, valueCopy);
            PutInto(t, hash, key, value, keyCopy, valueCopy, st, t')
  {
    var (_, i) := Probe(t.slots, Home(hash, key, |t.slots|), key, true);
    PutExact(t, hash, key, value);
    if key in Abs(t.slots) {
      ProbeKey(t.slots, hash, key, true);
    } else {
      ProbeAbsent(t.slots, hash, key, true);
      if HasVacant(t.slots) {
        VacatedMap(t.slots, i);
      }
    }
  }

  lemma VacatedMap<K, V>(t: seq<Slot<K, V>>, i: nat)
    requires Unique(t) && i < |t| && !t[i].Occupied?
    ensures Unique(t[i := Vacant]) && Abs(t[i := Vacant]) == Abs(t)
  {
    var t' := t[i := Vacant];
    forall k
      ensures k in Abs(t') <==> k in Abs(t)
      ensures k in Abs(t) ==> Abs(t')[k] == Abs(t)[k]
    {
      if k in Keys(t) {
        AbsAt(t', IndexOf(t, k));
      }
      if k in Keys(t') {
        AbsAt(t, IndexOf(t', k));
      }
    }
  }

  lemma VacatedPath<K, V>(t: seq<Slot<K, V>>, hash: K -> nat, i: nat, j: nat)
    requires Inv(t, hash) && i < |t| && j < |t| && !t[i].Occupied? && t[j].Occupied?
    ensures PathTo(t[i := Vacant], Home(hash, t[j].key, |t|), j) <==> !Passes(t, hash, j, i)
  {
    var t', h, n := t[i := Vacant], Home(hash, t[j].key, |t|), |t|;
    assert PathTo(t, h, j);
    PosDist(h, i, n);
    if Passes(t, hash, j, i) {
      assert SlotAt(t', h, Dist(h, i, n)).Vacant?;
    } else {
      forall e: nat | e < Dist(h, j, n)
        ensures !SlotAt(t', h, e).Vacant?
      {
        assert !SlotAt(t, h, e).Vacant?;
        PosDist(h, j, n);
        DistPos(h, e, n);
      }
    }
  }

  // One failed copy can hide another entry: 4 is put behind 0, 0 is removed,
  // and a put of 8 fails in its place; then 4 is not found, though the table
  // still holds it.
  lemma FailedPutHides()
    ensures var hash := (k: int) => if k >= 0 then k else 0;
            var t1 := Put(Put(Table(Fresh<int, bool>(4), 0), hash, 0, true).1, hash, 4, true).1;
            var t := TryPut(Remove(t1, hash, 0).1, hash, 8, true, true, false).1;
            Abs(t.slots) == map[4 := true] && !Contains(t, hash, 4)
  {
    var hash := (k: int) => if k >= 0 then k else 0;
    var t0 := Table(Fresh<int, bool>(4), 0);
    assert SlotAt(t0.slots, 0, 0).Vacant?;
    var ta := Put(t0, hash, 0, true).1;
    assert ta.slots == [Occupied(0, true), Vacant, Vacant, Vacant];
    assert !Stops(SlotAt(ta.slots, 0, 0), 4) && SlotAt(ta.slots, 0, 1).Vacant?;
    assert Reach(ta.slots, 0, 4, 1) == 1;
    var t1 := Put(ta, hash, 4, true).1;
    assert t1.slots == [Occupied(0, true), Occupied(4, true), Vacant, Vacant];
    var t2 := Remove(t1, hash, 0).1;
    assert t2.slots == [Deleted(0, true), Occupied(4, true), Vacant, Vacant];
    FailedPutHidesNext(t2, hash);
  }

  lemma FailedPutHidesNext(t: Table<int, bool>, hash: int -> nat)
    requires t.slots == [Deleted(0, true), Occupied(4, true), Vacant, Vacant] && hash(4) == 4 && hash(8) == 8
    ensures var t' := TryPut(t, hash, 8, true, true, false).1;
            Abs(t'.slots) == map[4 := true] && !Contains(t', hash, 4)
  {
    assert !Stops(SlotAt(t.slots, 0, 0), 8) && !Stops(SlotAt(t.slots, 0, 1), 8) && SlotAt(t.slots, 0, 2).Vacant?;
    assert Reach(t.slots, 0, 8, 2) == 2 && Reach(t.slots, 0, 8, 1) == 2;
    assert FirstDeleted(t.slots, 0, 2, 0) == 0;
    var t' := TryPut(t, hash, 8, true, true, false).1;
    assert t'.slots == [Vacant, Occupied(4, true), Vacant, Vacant];
    AbsAt(t'.slots, 1);
    assert Keys(t'.slots) == {4};
    assert Reach(t'.slots, 0, 4, 0) == 0;
  }

  // ---- Rehashing ----

  function Fresh<K, V>(n: nat): seq<Slot<K, V>> {
    seq(n, _ => Vacant)
  }

  // What the allocator and the policies will answer: whether a larger table is
  // granted, how many entries are copied there before a copy fails, if one does,
  // and whether the key and the value of a new entry are copied.
  datatype Outcomes = Outcomes(granted: bool, moved: Option<nat>, keyCopy: bool, valueCopy: bool)

  const FINE := Outcomes(true, None, true, true)

  function OneMoved(moved: Option<nat>): Option<nat> {
    if moved.Some? && moved.value > 0 then Some(moved.value - 1) else moved
  }

  // Put the occupied slots of the old table from index i on into a new table.
  function Reinsert<K(==), V>(source: seq<Slot<K, V>>, i: nat, t: Table<K, V>, hash: K -> nat, moved: Option<nat>): (Status, Table<K, V>)
    requires i <= |source| && t.slots != []
    decreases |source| - i
  {
    if i == |source| then (Ok, t)
    else if !source[i].Occupied? then Reinsert(source, i + 1, t, hash, moved)
    else
      var copied := moved != Some(0);
      var (st, t') := TryPut(t, hash, source[i].key, source[i].value, copied, copied);
      if st != Ok then (st, t) else Reinsert(source, i + 1, t', hash, OneMoved(moved))
  }

  // A failed put rolls the whole table back.
  function Rehash<K(==), V>(t: Table<K, V>, hash: K -> nat, n: nat, granted: bool, moved: Option<nat>): (Status, Table<K, V>)
    requires 0 < n
  {
    if !granted then (Oom, t)
    else
      var (st, t') := Reinsert(t.slots, 0, Table(Fresh(n), 0), hash, moved);
      if st == Ok then (Ok, t') else (st, t)
  }

  ghost predicate Clean<K, V>(t: Table<K, V>, hash: K -> nat) {
    Exact(t, hash) && NoTombstones(t.slots)
  }

  lemma FullTable<K, V>(t: seq<Slot<K, V>>)
    requires Unique(t) && forall i :: 0 <= i < |t| ==> t[i].Occupied?
    ensures |Abs(t)| == |t|
  {
    var keys := seq(|t|, i requires 0 <= i < |t| => t[i].key);
    DistinctCardinality(keys);
    assert Members(keys) == Keys(t) by {
      assert forall i :: 0 <= i < |t| ==> keys[i] == t[i].key && t[i].key in Keys(t);
    }
    assert Abs(t).Keys == Keys(t);
  }

  // Without tombstones, a table with fewer entries than slots has a vacant one.
  lemma CleanHasVacant<K, V>(t: seq<Slot<K, V>>)
    requires Unique(t) && NoTombstones(t) && |Abs(t)| < |t|
    ensures HasVacant(t)
  {
    if !HasVacant(t) {
      FullTable(t);
    }
  }

  lemma AbsSkip<K, V>(t: seq<Slot<K, V>>, i: nat)
    requires Unique(t) && i < |t| && !t[i].Occupied?
    ensures Abs(t[..i + 1]) == Abs(t[..i])
  {
    var a, b := t[..i], t[..i + 1];
    forall k
      ensures k in Abs(b) <==> k in Abs(a)
      ensures k in Abs(a) ==> Abs(b)[k] == Abs(a)[k]
    {
      if k in Keys(b) {
        AbsAt(a, IndexOf(b, k));
      }
      if k in Keys(a) {
        AbsAt(b, IndexOf(a, k));
      }
    }
  }

  lemma AbsNext<K, V>(t: seq<Slot<K, V>>, i: nat)
    requires Unique(t) && i < |t| && t[i].Occupied?
    ensures t[i].key !in Abs(t[..i]) && Abs(t[..i + 1]) == Abs(t[..i])[t[i].key := t[i].value]
    ensures |Abs(t[..i + 1])| == |Abs(t[..i])| + 1
  {
    var a, b := t[..i], t[..i + 1];
    var m := Abs(a)[t[i].key := t[i].value];
    AbsAt(b, i);
    forall k
      ensures k in Abs(b) <==> k in m
      ensures k in m ==> Abs(b)[k] == m[k]
    {
      if k in Keys(b) && IndexOf(b, k) != i {
        AbsAt(a, IndexOf(b, k));
      }
      if k in Keys(a) {
        AbsAt(b, IndexOf(a, k));
      }
    }
    assert m.Keys == Abs(a).Keys + {t[i].key};
  }

  lemma {:induction false} PrefixSize<K, V>(t: seq<Slot<K, V>>, i: nat)
    requires Unique(t) && i <= |t|
    ensures |Abs(t[..i])| <= |Abs(t)|
    decreases |t| - i
  {
    if i == |t| {
      assert t[..i] == t;
    } else {
      if t[i].Occupied? {
        AbsNext(t, i);
      } else {
        AbsSkip(t, i);
      }
      PrefixSize(t, i + 1);
    }
  }

  // The entries not yet moved when the copies run out.
  predicate Stuck(moved: Option<nat>, entries: int) {
    moved.Some? && moved.value < entries
  }

  lemma ReinsertOne<K, V>(source: seq<Slot<K, V>>, i: nat, t: Table<K, V>, hash: K -> nat)
    requires Unique(source) && i < |source| < |t.slots| && source[i].Occupied?
    requires Clean(t, hash) && t.size <= i && Abs(t.slots) == Abs(source[..i])
    ensures var (st, t') := Put(t, hash, source[i].key, source[i].value);
            && st == Ok && Clean(t', hash) && t'.size == t.size + 1 <= |Abs(source)|
            && |t'.slots| == |t.slots| && Abs(t'.slots) == Abs(source[..i + 1])
    ensures TryPut(t, hash, source[i].key, source[i].value, true, true) == Put(t, hash, source[i].key, source[i].value)
    ensures TryPut(t, hash, source[i].key, source[i].value, false, false).0 == CopyFailed
  {
    var key, value := source[i].key, source[i].value;
    AbsNext(source, i);
    CleanHasVacant(t.slots);
    PutExact(t, hash, key, value);
    ProbeAbsent(t.slots, hash, key, true);
    PutTombstones(t, hash, key, value);
    PrefixSize(source, i + 1);
  }

  // What comes of moving the entries of source that are not yet in t.
  ghost predicate Moves<K, V>(source: seq<Slot<K, V>>, t: Table<K, V>, hash: K -> nat, moved: Option<nat>, st: Status, t': Table<K, V>) {
    if Stuck(moved, |Abs(source)| - t.size) then st == CopyFailed
    else st == Ok && Clean(t', hash) && |t'.slots| == |t.slots| && Abs(t'.slots) == Abs(source)
  }

  lemma MovesNext<K, V>(source: seq<Slot<K, V>>, t: Table<K, V>, t1: Table<K, V>, hash: K -> nat, moved: Option<nat>, st: Status, t': Table<K, V>)
    requires moved != Some(0) && t1.size == t.size + 1 && |t1.slots| == |t.slots|
    requires Moves(source, t1, hash, OneMoved(moved), st, t')
    ensures Moves(source, t, hash, moved, st, t')
  {
  }

  lemma {:induction false} ReinsertKeepsMap<K, V>(source: seq<Slot<K, V>>, i: nat, t: Table<K, V>, hash: K -> nat, moved: Option<nat>)
    requires Unique(source) && i <= |source| < |t.slots|
    requires Clean(t, hash) && t.size <= i && Abs(t.slots) == Abs(source[..i])
    ensures var (st, t') := Reinsert(source, i, t, hash, moved);
            Moves(source, t, hash, moved, st, t')
    decreases |source| - i
  {
    if i == |source| {
      assert source[..i] == source;
    } else if !source[i].Occupied? {
      AbsSkip(source, i);
      ReinsertKeepsMap(source, i + 1, t, hash, moved);
    } else {
      ReinsertOne(source, i, t, hash);
      if moved != Some(0) {
        var t1 := Put(t, hash, source[i].key, source[i].value).1;
        ReinsertKeepsMap(source, i + 1, t1, hash, OneMoved(moved));
        var (st, t') := Reinsert(source, i + 1, t1, hash, OneMoved(moved));
        MovesNext(source, t, t1, hash, moved, st, t');
      }
    }
  }

  // Rehashing into more slots keeps the map, counts its entries afresh, and
  // leaves no tombstone and at least one vacant slot, unless the allocation is
  // refused or a copy fails; then the table is as it was.
  lemma RehashKeepsMap<K, V>(t: Table<K, V>, hash: K -> nat, n: nat, granted: bool, moved: Option<nat>)
    requires Inv(t.slots, hash) && |t.slots| < n
    ensures var (st, t') := Rehash(t, hash, n, granted, moved);
            if !granted then (st, t') == (Oom, t)
            else if Stuck(moved, |Abs(t.slots)|) then (st, t') == (CopyFailed, t)
            else
              && st == Ok && Clean(t', hash) && HasVacant(t'.slots)
              && |t'.slots| == n && Abs(t'.slots) == Abs(t.slots)
  {
    RehashMoves(t, hash, n, moved);
  }

  lemma FreshClean<K, V>(n: nat, hash: K -> nat)
    requires 0 < n
    ensures Clean(Table(Fresh<K, V>(n), 0), hash) && Abs<K, V>(Fresh(n)) == map[]
  {
  }

  lemma RehashMoves<K, V>(t: Table<K, V>, hash: K -> nat, n: nat, moved: Option<nat>)
    requires Inv(t.slots, hash) && |t.slots| < n
    ensures var (st, t') := Reinsert(t.slots, 0, Table(Fresh(n), 0), hash, moved);
            if Stuck(moved, |Abs(t.slots)|) then st == CopyFailed
            else
              && st == Ok && Clean(t', hash) && HasVacant(t'.slots)
              && |t'.slots| == n && Abs(t'.slots) == Abs(t.slots)
  {
    FreshClean<K, V>(n, hash);
    assert Abs(t.slots[..0]) == map[];
    ReinsertKeepsMap(t.slots, 0, Table(Fresh(n), 0), hash, moved);
    EntriesFit(t.slots);
    var (st, t') := Reinsert(t.slots, 0, Table(Fresh(n), 0), hash, moved);
    if st == Ok {
      CleanHasVacant(t'.slots);
    }
  }

  // A table has at most as many entries as slots.
  lemma EntriesFit<K, V>(t: seq<Slot<K, V>>)
    requires Unique(t)
    ensures |Abs(t)| <= |t|
  {
    PrefixFits(t, |t|);
    assert t[..|t|] == t;
  }

  lemma {:induction false} PrefixFits<K, V>(t: seq<Slot<K, V>>, i: nat)
    requires Unique(t) && i <= |t|
    ensures |Abs(t[..i])| <= i
  {
    if i > 0 {
      var n: nat := i - 1;
      PrefixFits(t, n);
      if t[n].Occupied? {
        AbsNext(t, n);
      } else {
        AbsSkip(t, n);
      }
    }
  }

  // ---- Growth ----

  // The map's put: grow first if the load demands it.
  function GrowingPut<K(==), V>(t: Table<K, V>, hash: K -> nat, growable: bool, o: Outcomes, key: K, value: V): (Status, Table<K, V>)
    requires t.slots != []
  {
    var n := |t.slots|;
    if !ShouldGrow(growable, t.size, n) then TryPut(t, hash, key, value, o.keyCopy, o.valueCopy)
    else if Grow(n) == n then (Full, t)
    else
      var (st, t') := Rehash(t, hash, Grow(n), o.granted, o.moved);
      if st != Ok || t'.slots == [] then (st, t') else TryPut(t', hash, key, value, o.keyCopy, o.valueCopy)
  }

  // A put spoils the table: the value of a new key cannot be copied into a
  // tombstone that some key's path leads over.
  ghost predicate Spoils<K, V>(t: Table<K, V>, hash: K -> nat, growable: bool, o: Outcomes, key: K)
    requires t.slots != []
  {
    && (!growable || 4 * (t.size + 1) < 3 * |t.slots|)
    && key !in Abs(t.slots) && HasVacant(t.slots) && o.keyCopy && !o.valueCopy
    && OnPath(t.slots, hash, Probe(t.slots, Home(hash, key, |t.slots|), key, true).1)
  }

  lemma GrowingPutSound<K, V>(t: Table<K, V>, hash: K -> nat, growable: bool, o: Outcomes, key: K, value: V)
    requires Inv(t.slots, hash)
    ensures Inv(GrowingPut(t, hash, growable, o, key, value).1.slots, hash) <==> !Spoils(t, hash, growable, o, key)
  {
    var n := |t.slots|;
    if !ShouldGrow(growable, t.size, n) {
      TryPutSound(t, hash, key, value, o.keyCopy, o.valueCopy);
    } else if Grow(n) != n {
      RehashKeepsMap(t, hash, Grow(n), o.granted, o.moved);
      var (st, t') := Rehash(t, hash, Grow(n), o.granted, o.moved);
      if st == Ok {
        CleanPutSound(t', hash, key, value, o.keyCopy, o.valueCopy);
      }
    }
  }

  // Put, whatever fails. A fixed map never takes a larger table, nor asks for
  // one. A growable one does so exactly when one more entry would not leave its
  // load below 3/4, and a refusal or a failed copy on the way changes nothing.
  ghost predicate GrowingOutcome<K, V>(t: Table<K, V>, hash: K -> nat, growable: bool, o: Outcomes, key: K, value: V, st: Status, t': Table<K, V>)
    requires t.slots != []
  {
    var n, m := |t.slots|, Abs(t.slots);
    if !growable || 4 * (t.size + 1) < 3 * n then PutInto(t, hash, key, value, o.keyCopy, o.valueCopy, st, t')
    else if n > SIZE_MAX / 2 then (st, t') == (Full, t)
    else if !o.granted then (st, t') == (Oom, t)
    else if Stuck(o.moved, |m|) then (st, t') == (CopyFailed, t)
    else
      var stored := o.valueCopy && (key in m || o.keyCopy);
      && |t'.slots| == 2 * n && t'.size == |m| + (if stored && key !in m then 1 else 0)
      && st == (if key in m || stored then Ok else CopyFailed)
      && Abs(t'.slots) == if stored then m[key := value] else m
  }

  lemma GrowingPutExact<K, V>(t: Table<K, V>, hash: K -> nat, growable: bool, o: Outcomes, key: K, value: V)
    requires Inv(t.slots, hash)
    ensures var (st, t') := GrowingPut(t, hash, growable, o, key, value);
            GrowingOutcome(t, hash, growable, o, key, value, st, t')
  {
    var n := |t.slots|;
    if !growable || 4 * (t.size + 1) < 3 * n {
      TryPutExact(t, hash, key, value, o.keyCopy, o.valueCopy);
    } else if n <= SIZE_MAX / 2 {
      RehashKeepsMap(t, hash, 2 * n, o.granted, o.moved);
      var (st, t') := Rehash(t, hash, 2 * n, o.granted, o.moved);
      if st == Ok {
        TryPutExact(t', hash, key, value, o.keyCopy, o.valueCopy);
      }
    }
  }

  // In a fixed map an allocator's answer does not matter, and with copies that
  // succeed a put takes effect exactly when the key is present or a slot vacant.
  lemma FixedPut<K, V>(t: Table<K, V>, hash: K -> nat, o: Outcomes, key: K, value: V)
    requires Inv(t.slots, hash)
    ensures var (st, t') := GrowingPut(t, hash, false, o, key, value);
            && |t'.slots| == |t.slots| && st != Oom
            && (st, t') == GrowingPut(t, hash, false, o.(granted := !o.granted, moved := None), key, value)
            && (o.keyCopy && o.valueCopy ==>
                  (st == Ok && Abs(t'.slots) == Abs(t.slots)[key := value] <==> key in Abs(t.slots) || HasVacant(t.slots)))
  {
    GrowingPutExact(t, hash, false, o, key, value);
    PutExact(t, hash, key, value);
  }

  // A fixed map of four slots with two entries takes a third one though no
  // memory is granted.
  lemma FixedExample()
    ensures var hash := (k: int) => if k >= 0 then k else 0;
            var t := Table([Occupied(0, true), Occupied(1, true), Vacant, Vacant], 2);
            var (st, t') := GrowingPut(t, hash, false, FINE.(granted := false), 2, true);
            st == Ok && |t'.slots| == 4 && t'.size == 3 && Abs(t'.slots) == Abs(t.slots)[2 := true]
  {
    var hash := (k: int) => if k >= 0 then k else 0;
    var t := Table([Occupied(0, true), Occupied(1, true), Vacant, Vacant], 2);
    TwoOfFour(t.slots, hash);
    GrowingPutExact(t, hash, false, FINE.(granted := false), 2, true);
  }

  lemma TwoOfFour(t: seq<Slot<int, bool>>, hash: int -> nat)
    requires t == [Occupied(0, true), Occupied(1, true), Vacant, Vacant] && hash(0) == 0 && hash(1) == 1
    ensures Inv(t, hash) && HasVacant(t) && 2 !in Abs(t)
  {
    assert t[3].Vacant?;
    assert forall i :: 0 <= i < 4 && t[i].Occupied? ==> t[i].key == i;
    assert 2 !in Keys(t);
  }

  lemma CleanPutSound<K, V>(t: Table<K, V>, hash: K -> nat, key: K, value: V, keyCopy: bool, valueCopy: bool)
    requires Clean(t, hash)
    ensures Inv(TryPut(t, hash, key, value, keyCopy, valueCopy).1.slots, hash)
  {
    TryPutSound(t, hash, key, value, keyCopy, valueCopy);
    if key !in Abs(t.slots) && HasVacant(t.slots) {
      CleanUnspoilt(t, hash, key);
    }
  }

  // Without tombstones, a put of a new key goes to a slot that is vacant.
  lemma CleanUnspoilt<K, V>(t: Table<K, V>, hash: K -> nat, key: K)
    requires Clean(t, hash) && key !in Abs(t.slots) && HasVacant(t.slots)
    ensures !OnPath(t.slots, hash, Probe(t.slots, Home(hash, key, |t.slots|), key, true).1)
  {
    var (_, i) := Probe(t.slots, Home(hash, key, |t.slots|), key, true);
    ProbeAbsent(t.slots, hash, key, true);
    assert t.slots[i].Vacant?;
    forall j | 0 <= j < |t.slots| && t.slots[j].Occupied?
      ensures !Passes(t.slots, hash, j, i)
    {
      var h, n := Home(hash, t.slots[j].key, |t.slots|), |t.slots|;
      assert PathTo(t.slots, h, j);
      PosDist(h, i, n);
      assert Dist(h, i, n) < Dist(h, j, n) ==> !SlotAt(t.slots, h, Dist(h, i, n)).Vacant?;
    }
  }

  // A growable map keeps its load below 3/4 through every put.
  lemma GrowthKeepsLoad<K, V>(t: Table<K, V>, hash: K -> nat, key: K, value: V)
    requires Inv(t.slots, hash) && t.size == |Abs(t.slots)|
    requires LoadOk(t.size, |t.slots|) && |t.slots| <= SIZE_MAX / 2
    ensures var (st, t') := GrowingPut(t, hash, true, FINE, key, value);
            && Inv(t'.slots, hash) && t'.size == |Abs(t'.slots)|
            && 4 * t'.size < 3 * |t'.slots|
            && (st == Ok && Abs(t'.slots) == Abs(t.slots)[key := value]
                <==> key in Abs(t.slots) || HasVacant(t.slots) || 4 * (t.size + 1) >= 3 * |t.slots|)
  {
    var n := |t.slots|;
    if ShouldGrow(true, t.size, n) {
      RehashKeepsMap(t, hash, Grow(n), true, None);
      var t' := Rehash(t, hash, Grow(n), true, None).1;
      PutExact(t', hash, key, value);
      PutSize(t', hash, key, value);
    } else {
      PutExact(t, hash, key, value);
      PutSize(t, hash, key, value);
    }
  }

  lemma PutSize<K, V>(t: Table<K, V>, hash: K -> nat, key: K, value: V)
    requires t.slots != []
    ensures t.size <= Put(t, hash, key, value).1.size <= t.size + 1
    ensures |Put(t, hash, key, value).1.slots| == |t.slots|
  {
  }

  // ---- Runs ----

  // A growable map that is only put to: `puts` in order, allocations granted.
  function PutAll<K(==), V>(n: nat, hash: K -> nat, puts: seq<(K, V)>): Table<K, V>
    requires 0 < n
    ensures PutAll(n, hash, puts).slots != []
  {
    if puts == [] then Table(Fresh(n), 0)
    else
      var (k, v) := puts[|puts| - 1];
      var t := PutAll(n, hash, puts[..|puts| - 1]);
      var t' := GrowingPut(t, hash, true, FINE, k, v).1;
      if t'.slots == [] then t else t'
  }

  function Assigned<K(==), V>(puts: seq<(K, V)>): map<K, V> {
    if puts == [] then map[]
    else Assigned(puts[..|puts| - 1])[puts[|puts| - 1].0 := puts[|puts| - 1].1]
  }

  lemma GrowingPutClean<K, V>(t: Table<K, V>, hash: K -> nat, key: K, value: V)
    requires Clean(t, hash) && LoadOk(t.size, |t.slots|)
    requires ShouldGrow(true, t.size, |t.slots|) ==> |t.slots| <= SIZE_MAX / 2
    ensures var (st, t') := GrowingPut(t, hash, true, FINE, key, value);
            && st == Ok && Clean(t', hash) && LoadOk(t'.size, |t'.slots|)
            && t.size <= t'.size <= t.size + 1
            && Abs(t'.slots) == Abs(t.slots)[key := value]
  {
    CleanHasVacant(t.slots);
    var n := |t.slots|;
    var u := if ShouldGrow(true, t.size, n) then Rehash(t, hash, Grow(n), true, None).1 else t;
    if ShouldGrow(true, t.size, n) {
      RehashKeepsMap(t, hash, Grow(n), true, None);
    }
    PutExact(u, hash, key, value);
    PutSize(u, hash, key, value);
    PutTombstones(u, hash, key, value);
  }

  lemma PutTombstones<K, V>(t: Table<K, V>, hash: K -> nat, key: K, value: V)
    requires t.slots != [] && NoTombstones(t.slots)
    ensures NoTombstones(Put(t, hash, key, value).1.slots)
  {
  }

  // Without removals, a growable open-addressing map is exactly a map: every
  // put succeeds, always some slot is vacant, and every lookup is right.
  lemma {:induction false} GrowableIsExact<K, V>(n: nat, hash: K -> nat, puts: seq<(K, V)>, key: K)
    requires 0 < n && 4 * (|puts| + 1) <= SIZE_MAX
    ensures var t, m := PutAll(n, hash, puts), Assigned(puts);
            && Clean(t, hash) && LoadOk(t.size, |t.slots|) && HasVacant(t.slots)
            && t.size <= |puts|
            && Abs(t.slots) == m
            && Contains(t, hash, key) == (key in m)
            && Get(t, hash, key) == if key in m then Some(m[key]) else None
  {
    var t := PutAll(n, hash, puts);
    if puts == [] {
      assert Abs<K, V>(Fresh(n)) == map[];
    } else {
      GrowableIsExact(n, hash, puts[..|puts| - 1], key);
      var (k, v) := puts[|puts| - 1];
      GrowingPutClean(PutAll(n, hash, puts[..|puts| - 1]), hash, k, v);
    }
    CleanHasVacant(t.slots);
    LookupExact(t, hash, key);
  }

  // ---- Runs with removals ----

  datatype Op<K, V> = Store(key: K, value: V) | Erase(key: K)

  function Step<K(==), V>(t: Table<K, V>, hash: K -> nat, op: Op<K, V>): (Status, Table<K, V>)
    requires t.slots != []
  {
    match op
    case Store(k, v) => GrowingPut(t, hash, true, FINE, k, v)
    case Erase(k) => Remove(t, hash, k)
  }

  function Applied<K, V>(m: map<K, V>, op: Op<K, V>): map<K, V> {
    match op
    case Store(k, v) => m[k := v]
    case Erase(k) => m - {k}
  }

  // How many slots an operation leaves vacant at least, of n slots of which
  // `room` are vacant: growing leaves all but the entries, otherwise a new key
  // takes one.
  function RoomAfter<K, V>(m: map<K, V>, n: nat, room: int, op: Op<K, V>): int {
    if op.Store? && ShouldGrow(true, |m|, n) then Grow(n) - |Applied(m, op)|
    else if op.Store? && op.key !in m then room - 1
    else room
  }

  function SlotsAfter<K, V>(m: map<K, V>, n: nat, op: Op<K, V>): nat {
    if op.Store? && ShouldGrow(true, |m|, n) then Grow(n) else n
  }

  // Since the table last grew, fewer new keys have been put than that left
  // vacant; and the table can grow when it has to.
  predicate Roomy<K(==), V(==)>(m: map<K, V>, n: nat, room: int, ops: seq<Op<K, V>>)
    decreases |ops|
  {
    ops != [] ==>
      var op := ops[0];
      && (op.Store? && ShouldGrow(true, |m|, n) ==> n <= SIZE_MAX / 2)
      && RoomAfter(m, n, room, op) > 0
      && Roomy(Applied(m, op), SlotsAfter(m, n, op), RoomAfter(m, n, room, op), ops[1..])
  }

  function RunFrom<K(==), V>(t: Table<K, V>, hash: K -> nat, ops: seq<Op<K, V>>): Table<K, V>
    requires t.slots != []
    decreases |ops|
  {
    if ops == [] then t
    else
      var t' := Step(t, hash, ops[0]).1;
      if t'.slots == [] then t else RunFrom(t', hash, ops[1..])
  }

  function AppliedAll<K, V>(m: map<K, V>, ops: seq<Op<K, V>>): map<K, V>
    decreases |ops|
  {
    if ops == [] then m else AppliedAll(Applied(m, ops[0]), ops[1..])
  }

  function Vacants<K, V>(t: seq<Slot<K, V>>): nat {
    if t == [] then 0 else Vacants(t[..|t| - 1]) + if t[|t| - 1].Vacant? then 1 else 0
  }

  lemma {:induction false} VacantsUpdate<K, V>(t: seq<Slot<K, V>>, i: nat, s: Slot<K, V>)
    requires i < |t|
    ensures Vacants(t[i := s]) == Vacants(t) - (if t[i].Vacant? then 1 else 0) + if s.Vacant? then 1 else 0
    decreases |t|
  {
    var n := |t| - 1;
    if i == n {
      assert t[i := s][..n] == t[..n];
    } else {
      assert t[i := s][..n] == t[..n][i := s];
      VacantsUpdate(t[..n], i, s);
    }
  }

  lemma {:induction false} VacantsPositive<K, V>(t: seq<Slot<K, V>>)
    ensures Vacants(t) > 0 <==> HasVacant(t)
  {
    if t != [] {
      var n := |t| - 1;
      VacantsPositive(t[..n]);
      assert HasVacant(t) <==> HasVacant(t[..n]) || t[n].Vacant? by {
        assert forall i :: 0 <= i < n ==> t[..n][i] == t[i];
      }
    }
  }

  lemma {:induction false} CleanVacants<K, V>(t: seq<Slot<K, V>>)
    requires Unique(t) && NoTombstones(t)
    ensures Vacants(t) == |t| - |Abs(t)|
  {
    if t == [] {
      assert Abs(t) == map[];
    } else {
      var n := |t| - 1;
      CleanVacants(t[..n]);
      assert t[..n + 1] == t;
      if t[n].Occupied? {
        AbsNext(t, n);
      } else {
        AbsSkip(t, n);
      }
    }
  }

  lemma PutVacants<K, V>(t: Table<K, V>, hash: K -> nat, key: K, value: V)
    requires Inv(t.slots, hash)
    ensures Vacants(Put(t, hash, key, value).1.slots) >= Vacants(t.slots) - if key in Abs(t.slots) then 0 else 1
  {
    var (occupied, i) := Probe(t.slots, Home(hash, key, |t.slots|), key, true);
    var t' := Put(t, hash, key, value).1;
    if key in Abs(t.slots) {
      ProbeKey(t.slots, hash, key, true);
    }
    VacantsUpdate(t.slots, i, t'.slots[i]);
    assert t'.slots == t.slots[i := t'.slots[i]];
  }

  ghost predicate Represents<K, V>(t: Table<K, V>, hash: K -> nat, m: map<K, V>, room: int) {
    Exact(t, hash) && Abs(t.slots) == m && Vacants(t.slots) >= room > 0
  }

  lemma StorePutKeeps<K, V>(t: Table<K, V>, hash: K -> nat, m: map<K, V>, room: int, key: K, value: V)
    requires Represents(t, hash, m, room)
    ensures var (st, t') := Put(t, hash, key, value);
            && st == Ok && Exact(t', hash) && Abs(t'.slots) == m[key := value] && |t'.slots| == |t.slots|
            && Vacants(t'.slots) >= if key in m then room else room - 1
  {
    VacantsPositive(t.slots);
    PutExact(t, hash, key, value);
    PutVacants(t, hash, key, value);
  }

  lemma GrownRepresents<K, V>(t: Table<K, V>, hash: K -> nat, n: nat)
    requires Inv(t.slots, hash) && |t.slots| < n
    ensures var (st, t') := Rehash(t, hash, n, true, None);
            st == Ok && |t'.slots| == n && Represents(t', hash, Abs(t.slots), n - |Abs(t.slots)|)
  {
    RehashKeepsMap(t, hash, n, true, None);
    var t' := Rehash(t, hash, n, true, None).1;
    CleanVacants(t'.slots);
    VacantsPositive(t'.slots);
  }

  lemma StoreKeeps<K, V>(t: Table<K, V>, hash: K -> nat, m: map<K, V>, room: int, key: K, value: V)
    requires Represents(t, hash, m, room) && RoomAfter(m, |t.slots|, room, Store(key, value)) > 0
    requires ShouldGrow(true, |m|, |t.slots|) ==> |t.slots| <= SIZE_MAX / 2
    ensures var op := Store(key, value);
            var (st, t') := Step(t, hash, op);
            && st == Ok && Represents(t', hash, Applied(m, op), RoomAfter(m, |t.slots|, room, op))
            && |t'.slots| == SlotsAfter(m, |t.slots|, op)
  {
    var n := |t.slots|;
    if ShouldGrow(true, |m|, n) {
      GrownRepresents(t, hash, Grow(n));
      StorePutKeeps(Rehash(t, hash, Grow(n), true, None).1, hash, m, Grow(n) - |m|, key, value);
    } else {
      StorePutKeeps(t, hash, m, room, key, value);
    }
  }

  lemma EraseKeeps<K, V>(t: Table<K, V>, hash: K -> nat, m: map<K, V>, room: int, key: K)
    requires Represents(t, hash, m, room)
    ensures var (st, t') := Remove(t, hash, key);
            && st == (if key in m then Ok else NotFound)
            && Represents(t', hash, m - {key}, room) && |t'.slots| == |t.slots|
  {
    VacantsPositive(t.slots);
    RemoveExact(t, hash, key);
    RemoveVacants(t, hash, key);
  }

  lemma StepKeeps<K, V>(t: Table<K, V>, hash: K -> nat, m: map<K, V>, room: int, op: Op<K, V>)
    requires Represents(t, hash, m, room) && RoomAfter(m, |t.slots|, room, op) > 0
    requires op.Store? && ShouldGrow(true, |m|, |t.slots|) ==> |t.slots| <= SIZE_MAX / 2
    ensures var (st, t') := Step(t, hash, op);
            && st == (if op.Erase? && op.key !in m then NotFound else Ok)
            && Represents(t', hash, Applied(m, op), RoomAfter(m, |t.slots|, room, op))
            && |t'.slots| == SlotsAfter(m, |t.slots|, op)
  {
    match op
    case Erase(k) => EraseKeeps(t, hash, m, room, k);
    case Store(k, v) => StoreKeeps(t, hash, m, room, k, v);
  }

  lemma RemoveVacants<K, V>(t: Table<K, V>, hash: K -> nat, key: K)
    requires t.slots != []
    ensures Vacants(Remove(t, hash, key).1.slots) == Vacants(t.slots)
  {
    var (occupied, i) := Probe(t.slots, Home(hash, key, |t.slots|), key, false);
    var t' := Remove(t, hash, key).1;
    VacantsUpdate(t.slots, i, t'.slots[i]);
    assert t'.slots == t.slots[i := t'.slots[i]];
  }

  // With removals, a growable map stays exact as long as fewer new keys are put
  // than the last growth left slots vacant: every operation answers as on a map,
  // and so does every lookup afterwards.
  lemma {:induction false} RoomyIsExact<K, V>(t: Table<K, V>, hash: K -> nat, m: map<K, V>, room: int, ops: seq<Op<K, V>>, key: K)
    requires Represents(t, hash, m, room) && Roomy(m, |t.slots|, room, ops)
    ensures var t', m' := RunFrom(t, hash, ops), AppliedAll(m, ops);
            && Exact(t', hash) && Abs(t'.slots) == m' && HasVacant(t'.slots)
            && Contains(t', hash, key) == (key in m')
            && Get(t', hash, key) == if key in m' then Some(m'[key]) else None
    decreases |ops|
  {
    if ops == [] {
      VacantsPositive(t.slots);
      LookupExact(t, hash, key);
    } else {
      StepKeeps(t, hash, m, room, ops[0]);
      RoomyIsExact(Step(t, hash, ops[0]).1, hash, Applied(m, ops[0]), RoomAfter(m, |t.slots|, room, ops[0]), ops[1..], key);
    }
  }

  // Beyond that it need not be: tombstones count neither towards the load nor
  // as vacant, so a growable map can be empty, claim to contain every key, and
  // refuse a new one.
  lemma TombstonesExhaust()
    ensures var hash := (k: int) => if k >= 0 then k else 0;
            var t1 := GrowingPut(Table(Fresh<int, bool>(2), 0), hash, true, FINE, 0, true).1;
            var t2 := Remove(t1, hash, 0).1;
            var t3 := GrowingPut(t2, hash, true, FINE, 1, true).1;
            var t := Remove(t3, hash, 1).1;
            && t.size == 0 && Abs(t.slots) == map[]
            && Contains(t, hash, 7)
            && GrowingPut(t, hash, true, FINE, 7, true) == (Full, t)
            && GrowingPut(t, hash, true, FINE, 0, true).0 == Ok
            && !(0 in Abs(GrowingPut(t, hash, true, FINE, 0, true).1.slots))
  {
    var hash := (k: int) => if k >= 0 then k else 0;
    var t0 := Table(Fresh<int, bool>(2), 0);
    assert Reach(t0.slots, 0, 0, 0) == 0;
    var t1 := GrowingPut(t0, hash, true, FINE, 0, true).1;
    assert t1 == Table([Occupied(0, true), Vacant], 1);
    var t2 := Remove(t1, hash, 0).1;
    assert t2 == Table([Deleted(0, true), Vacant], 0);
    assert SlotAt(t2.slots, 1, 0).Vacant?;
    var t3 := GrowingPut(t2, hash, true, FINE, 1, true).1;
    assert t3 == Table([Deleted(0, true), Occupied(1, true)], 1);
    var t := Remove(t3, hash, 1).1;
    assert t == Table([Deleted(0, true), Deleted(1, true)], 0);
    Exhausted(t, hash);
  }

  lemma Exhausted(t: Table<int, bool>, hash: int -> nat)
    requires t == Table([Deleted(0, true), Deleted(1, true)], 0) && hash(0) == 0 && hash(7) == 7
    ensures Abs(t.slots) == map[] && Contains(t, hash, 7)
    ensures GrowingPut(t, hash, true, FINE, 7, true) == (Full, t)
    ensures GrowingPut(t, hash, true, FINE, 0, true).0 == Ok
    ensures !(0 in Abs(GrowingPut(t, hash, true, FINE, 0, true).1.slots))
  {
    assert Keys(t.slots) == {};
    forall h: nat, k: int | h < 2
      ensures Reach(t.slots, h, k, 0) == 2
    {
      assert !Stops(SlotAt(t.slots, h, 0), k) && !Stops(SlotAt(t.slots, h, 1), k);
    }
    assert FirstDeleted(t.slots, 1, 2, 0) == 0 && FirstDeleted(t.slots, 0, 2, 0) == 0;
    assert GrowingPut(t, hash, true, FINE, 0, true).1.slots == [Deleted(0, true), Deleted(1, true)];
  }
}
