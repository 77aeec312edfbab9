/** What the operations of the LRU cache leave in the cache: include/pdlfs-common/lru.h of
    external/pdlfs-common, said in terms of charges, clients and the age of idle entries. */
module CacheOutcomes {
  import opened CacheModel

  /** The cached entries that clients hold. */
  ghost function Held<I>(info: map<I, Info>): set<I> {
    set e | e in info && info[e].inCache && info[e].refs >= 2
  }

  ghost function Elements<I>(q: seq<I>): set<I> {
    set e | e in q
  }

  /** What the held entries take, without the one in this slot. */
  ghost function HeldCharges<I>(s: State<I>, slot: Slot): int {
    Charges(s.info, Others(s, slot))
  }

  ghost function Others<I>(s: State<I>, slot: Slot): (h: set<I>)
    ensures h <= s.info.Keys
  {
    Held(s.info) - if slot in s.table then {s.table[slot]} else {}
  }

  lemma {:induction false} ChargesUnion<I>(info: map<I, Info>, a: set<I>, b: set<I>)
    requires a + b <= info.Keys && a !! b
    ensures Charges(info, a + b) == Charges(info, a) + Charges(info, b)
    decreases a
  {
    hide Charges;
    if exists e :: e in a {
      var e :| e in a;
      ChargesUnion(info, a - {e}, b);
      ChargesWithout(info, a, e);
      ChargesWithout(info, a + b, e);
      assert a + b - {e} == (a - {e}) + b;
    } else {
      assert a == {} && a + b == b;
      NoCharges(info);
    }
  }

  lemma NoCharges<I>(info: map<I, Info>)
    ensures Charges(info, {}) == 0
  {
  }

  /** The usage is what is held and what is idle. */
  lemma UsageIsHeldAndIdle<I>(s: State<I>)
    requires Agrees(s, {})
    ensures Held(s.info) <= s.info.Keys && Elements(s.idle) <= s.info.Keys && Held(s.info) !! Elements(s.idle)
    ensures Cached(s.info) == Held(s.info) + Elements(s.idle)
    ensures s.usage == Charges(s.info, Held(s.info)) + Charges(s.info, Elements(s.idle))
  {
    hide Charges, TableAgrees, LogAgrees, Distinct;
    assert Cached(s.info) == Held(s.info) + Elements(s.idle);
    ChargesUnion(s.info, Held(s.info), Elements(s.idle));
  }

  // ----- Insert

  /** The idle entries when the one in the slot has gone. */
  ghost function IdleOthers<I>(s: State<I>, slot: Slot): seq<I> {
    if slot in s.table then Drop(s.idle, s.table[slot]) else s.idle
  }

  /** There is room for the new entry, the held ones and the idle ones from the j-th oldest on. */
  ghost predicate Room<I>(s: State<I>, slot: Slot, charge: nat, j: nat)
    requires j <= |IdleOthers(s, slot)| && Elements(IdleOthers(s, slot)) <= s.info.Keys
  {
    charge + HeldCharges(s, slot) + Charges(s.info, Elements(IdleOthers(s, slot)[j..])) <= s.capacity
  }

  /** Just enough of the oldest idle entries go, or all of them. */
  ghost predicate JustEnough<I>(s: State<I>, slot: Slot, charge: nat, k: nat) {
    && Elements(IdleOthers(s, slot)) <= s.info.Keys && k <= |IdleOthers(s, slot)|
    && (Room(s, slot, charge, k) || k == |IdleOthers(s, slot)|) && (k > 0 ==> !Room(s, slot, charge, k - 1))
  }

  lemma ReplaceOutcome<I>(s: State<I>, e: I, slot: Slot, charge: nat)
    requires Agrees(s, {}) && e !in s.info && e !in s.deleted && s.capacity > 0
    requires slot in s.table ==> s.table[slot] in s.info && s.info[s.table[slot]].refs > 0
    ensures var r := Replace(s, e, slot, charge);
            && r.idle == IdleOthers(s, slot) && Held(r.info) == Others(s, slot) + {e} && e !in Others(s, slot)
            && e in r.info && r.info[e] == Info(slot, charge, 2, true)
            && (forall x :: x in Cached(r.info) && x != e ==> x in s.info && r.info[x] == s.info[x])
  {
    hide Charges, LogAgrees, Distinct, Drop;
    EnterKeeps(s, e, slot, charge);
    if slot in s.table {
      DropAbsentIf(s.idle, s.table[slot]);
      var r, old' := Replace(s, e, slot, charge), s.table[slot];
      assert old' != e;
    }
  }

  /** Eviction takes idle entries only. */
  lemma EvictOutcome<I>(s: State<I>, limit: int)
    requires Agrees(s, {})
    ensures var r, k := Evict(s, limit), EvictCount(s, limit);
            && Agrees(r, {}) && k <= |s.idle| && r.idle == s.idle[k..] && Elements(s.idle[k..]) <= s.info.Keys
            && Held(r.info) == Held(s.info) && Held(s.info) <= s.info.Keys && r.capacity == s.capacity
            && (forall x :: x in r.info ==> x in s.info && r.info[x] == s.info[x])
            && (forall x :: x in s.info && x !in s.idle ==> x in r.info)
            && r.usage == Charges(s.info, Held(s.info)) + Charges(s.info, Elements(s.idle[k..]))
  {
    hide Agrees, Charges, Evict, EvictCount;
    EvictsOldest(s, limit);
    EvictKeeps(s, limit);
    var r, k := Evict(s, limit), EvictCount(s, limit);
    UsageIsHeldAndIdle(s);
    UsageIsHeldAndIdle(r);
    assert forall x :: x in s.idle[..k] ==> x in Elements(s.idle);
    assert forall x :: x in s.idle[k..] ==> x in Elements(s.idle);
    HeldSame(s.info, r.info, s.idle, k);
    ChargesFrame(s.info, r.info, Held(r.info));
    ChargesFrame(s.info, r.info, Elements(r.idle));
  }

  lemma HeldSame<I>(before: map<I, Info>, after: map<I, Info>, idle: seq<I>, k: nat)
    requires k <= |idle| && SameInfoBut(before, after, idle[..k]) && Held(before) !! Elements(idle)
    ensures Held(after) == Held(before)
    ensures forall x :: x in before && x !in idle ==> x in after
  {
    forall x | x in before && x !in idle ensures x in after { assert x !in idle[..k]; }
    forall x | x in Held(before) ensures x in Held(after) { assert x !in Elements(idle); }
  }

  /** An entry that fits beside those that clients hold is cached, and found under its slot. One that does not
      is not; it is its client's alone. */
  lemma InsertOutcome<I>(s: State<I>, e: I, slot: Slot, charge: nat)
    requires Agrees(s, {}) && e !in s.info && e !in s.deleted
    ensures var r := Insert(s, e, slot, charge); var fits := s.capacity > 0
            && charge + HeldCharges(s, slot) <= s.capacity;
            && Agrees(r, {}) && e in r.info && r.info[e] == Info(slot, charge, if fits then 2 else 1, fits)
            && (slot in r.table && r.table[slot] == e <==> fits)
  {
    hide Agrees, Charges, Evict, EvictCount, Discard, Held, Replace;
    EnterKeeps(s, e, slot, charge);
    if slot in s.table { TableLive(s, slot); }
    if s.capacity > 0 {
      var _ := InsertIntoCache(s, e, slot, charge);
    } else {
      NotInTable(s, e, slot, charge);
    }
  }

  lemma NotInTable<I>(s: State<I>, e: I, slot: Slot, charge: nat)
    requires Agrees(s, {}) && e !in s.info && e !in s.deleted && s.capacity == 0
    ensures var r := Insert(s, e, slot, charge);
            && r.table == s.table && r.idle == s.idle && e in r.info && r.info[e] == Info(slot, charge, 1, false)
            && !(slot in r.table && r.table[slot] == e)
  {
    hide Charges, Cached, Distinct;
  }

  lemma HeldSum<I>(s: State<I>, s1: State<I>, e: I, slot: Slot, charge: nat)
    requires Held(s1.info) == Others(s, slot) + {e} && e !in Others(s, slot) && e in s1.info
             && s1.info[e].charge == charge
    requires forall x :: x in Cached(s1.info) && x != e ==> x in s.info && s1.info[x] == s.info[x]
    ensures Held(s1.info) <= s1.info.Keys && Charges(s1.info, Held(s1.info)) == charge + HeldCharges(s, slot)
  {
    hide Charges;
    var others := Others(s, slot);
    ChargesWithout(s1.info, Held(s1.info), e);
    assert Held(s1.info) - {e} == others;
    forall x | x in others ensures s.info[x].charge == s1.info[x].charge { assert x in Held(s1.info); }
    ChargesFrame(s.info, s1.info, others);
  }

  lemma InfoOfIdle<I>(s: State<I>, s1: State<I>, e: I)
    requires Agrees(s1, {}) && e !in s1.idle
    requires forall x :: x in Cached(s1.info) && x != e ==> x in s.info && s1.info[x] == s.info[x]
    ensures Distinct(s1.idle) && forall x :: x in s1.idle ==> x in s1.info && x in s.info && s1.info[x] == s.info[x]
  {
    hide Charges;
  }

  /** The usage after k victims tells whether there is room. */
  lemma RoomIsUsage<I>(s: State<I>, s1: State<I>, slot: Slot, charge: nat, k: nat, usage: int)
    requires s1.idle == IdleOthers(s, slot) && k <= |s1.idle|
    requires forall x :: x in s1.idle ==> x in s1.info && x in s.info && s1.info[x] == s.info[x]
    requires Elements(s1.idle[k..]) <= s1.info.Keys
    requires usage == charge + HeldCharges(s, slot) + Charges(s1.info, Elements(s1.idle[k..]))
    ensures Elements(IdleOthers(s, slot)) <= s.info.Keys && (Room(s, slot, charge, k) <==> usage <= s.capacity)
  {
    hide Charges, HeldCharges, IdleOthers;
    forall x | x in Elements(s1.idle[k..]) ensures x in s1.idle {}
    ChargesFrame(s1.info, s.info, Elements(s1.idle[k..]));
  }

  lemma RoomWithOneMore<I>(s: State<I>, s1: State<I>, slot: Slot, charge: nat, k: nat, usage: int)
    requires s1.idle == IdleOthers(s, slot) && 0 < k <= |s1.idle| && Distinct(s1.idle)
    requires forall x :: x in s1.idle ==> x in s1.info && x in s.info && s1.info[x] == s.info[x]
    requires Elements(s1.idle[k..]) <= s1.info.Keys
    requires usage == charge + HeldCharges(s, slot) + Charges(s1.info, Elements(s1.idle[k..]))
    requires usage + s1.info[s1.idle[k - 1]].charge > s.capacity
    ensures Elements(IdleOthers(s, slot)) <= s.info.Keys && !Room(s, slot, charge, k - 1)
  {
    hide Charges, HeldCharges, IdleOthers;
    var x, more := s1.idle[k - 1], Elements(s1.idle[k - 1..]);
    assert s1.idle[k - 1..] == [x] + s1.idle[k..];
    assert x !in s1.idle[k..];
    assert more - {x} == Elements(s1.idle[k..]);
    ChargesWithout(s1.info, more, x);
    RoomIsUsage(s, s1, slot, charge, k - 1, usage + s1.info[x].charge);
  }

  /** The new entry fits exactly if enough can be evicted. */
  lemma FitsIff<I>(s: State<I>, slot: Slot, charge: nat, k: nat, usage: int)
    requires k <= |IdleOthers(s, slot)| && Elements(IdleOthers(s, slot)) <= s.info.Keys
    requires Room(s, slot, charge, k) <==> usage <= s.capacity
    requires usage <= s.capacity || k == |IdleOthers(s, slot)|
    ensures usage <= s.capacity <==> charge + HeldCharges(s, slot) <= s.capacity
  {
    hide Charges, HeldCharges, IdleOthers;
    var q := IdleOthers(s, slot);
    assert forall x :: x in Elements(q[k..]) ==> x in Elements(q);
    ChargesPositive(s.info, Elements(q[k..]));
    if k == |q| {
      assert Elements(q[k..]) == {};
      NoCharges(s.info);
    }
  }

  lemma NewestGoes<I>(s: State<I>, e: I)
    requires Agrees(s, {}) && e in s.info && s.info[e].inCache && s.info[e].refs == 2 && e !in s.idle
    ensures var r := Discard(s, e);
            && Agrees(r, {}) && r.idle == s.idle && Cached(r.info) == Cached(s.info) - {e}
            && e in r.info && r.info[e] == s.info[e].(inCache := false, refs := 1)
            && !(s.info[e].slot in r.table && r.table[s.info[e].slot] == e)
  {
    hide Agrees, Discard;
    DiscardKeeps(s, e);
    DropAbsent(s.idle, e);
  }

  lemma InItsSlot<I>(s: State<I>, e: I, slot: Slot)
    requires Agrees(s, {}) && e in s.info && s.info[e].inCache && s.info[e].slot == slot
    ensures slot in s.table && s.table[slot] == e
  {
  }

  /** With caching on, the whole outcome: which idle entries have gone, and what is cached then. */
  lemma InsertIntoCache<I>(s: State<I>, e: I, slot: Slot, charge: nat) returns (k: nat)
    requires Agrees(s, {}) && e !in s.info && e !in s.deleted && s.capacity > 0
    ensures JustEnough(s, slot, charge, k)
    ensures var r := Insert(s, e, slot, charge); var fits := charge + HeldCharges(s, slot) <= s.capacity;
            && Agrees(r, {}) && r.idle == IdleOthers(s, slot)[k..]
            && e in r.info && r.info[e] == Info(slot, charge, if fits then 2 else 1, fits)
            && Cached(r.info) == Others(s, slot) + Elements(r.idle) + (if fits then {e} else {})
            && (slot in r.table && r.table[slot] == e <==> fits)
  {
    hide Agrees, Charges, Evict, EvictCount, Discard, Held, Replace;
    if slot in s.table { TableLive(s, slot); }
    EnterKeeps(s, e, slot, charge);
    ReplaceOutcome(s, e, slot, charge);
    var s1 := Replace(s, e, slot, charge);
    EvictKeeps(s1, s.capacity);
    EvictsOldest(s1, s.capacity);
    EvictOutcome(s1, s.capacity);
    k := EvictCount(s1, s.capacity);
    var s2 := Evict(s1, s.capacity);
    HeldSum(s, s1, e, slot, charge);
    UsageIsHeldAndIdle(s1);
    UsageIsHeldAndIdle(s2);
    InfoOfIdle(s, s1, e);
    RoomIsUsage(s, s1, slot, charge, k, s2.usage);
    if k > 0 { RoomWithOneMore(s, s1, slot, charge, k, s2.usage); }
    FitsIff(s, slot, charge, k, s2.usage);
    if s2.usage > s.capacity {
      DiscardKeeps(s2, e);
      NewestGoes(s2, e);
    } else {
      InItsSlot(s2, e, slot);
    }
  }

  // ----- The other operations

  /** What the table names after each operation but Insert. */
  ghost predicate TableAfter<I>(w: World<I>, op: Op<I>, table: map<Slot, I>) {
    match op
    case InsertOp(_, _, _) => true
    case EraseOp(slot) => table == w.s.table - {slot}
    case EraseEntryOp(e) => table == map k | k in w.s.table && w.s.table[k] != e :: w.s.table[k]
    case PruneOp => table == map k | k in w.s.table && w.held[w.s.table[k]] > 0 :: w.s.table[k]
    case _ => table == w.s.table
  }

  lemma StepTable<I>(w: World<I>, op: Op<I>)
    requires Good(w) && Legal(w, op)
    ensures TableAfter(w, op, Step(w, op).s.table)
    ensures op.PruneOp? ==> Step(w, op).s.idle == []
  {
    hide Agrees, Owned, Insert, Prune, Erase, EraseEntry;
    match op
    case InsertOp(_, _, _) =>
    case LookupOp(slot) => CountingKeepsTable(w.s, if slot in w.s.table then {w.s.table[slot]} else {});
    case RefOp(e) => CountingKeepsTable(w.s, {e});
    case ReleaseOp(e) => CountingKeepsTable(w.s, {e});
    case EraseOp(slot) => EraseTable(w.s, slot);
    case EraseEntryOp(e) => EraseEntryTable(w.s, e);
    case PruneOp => PruneTable(w);
  }

  lemma CountingKeepsTable<I>(s: State<I>, es: set<I>)
    ensures forall e :: e in es && e in s.info ==> Ref(s, e).table == s.table
    ensures forall e :: e in es && e in s.info && s.info[e].refs > 0 ==> Unref(s, e).table == s.table
  {
  }

  lemma EraseTable<I>(s: State<I>, slot: Slot)
    requires Agrees(s, {})
    ensures slot in s.table ==> s.table[slot] in s.info && s.info[s.table[slot]].refs > 0
    ensures Erase(s, slot).table == s.table - {slot}
  {
    hide Agrees, Erase, Discard;
    if slot in s.table {
      EraseIsDiscard(s, slot);
      DiscardKeeps(s, s.table[slot]);
      TableLive(s, slot);
    } else {
      NothingErased(s, slot);
    }
  }

  lemma NothingErased<I>(s: State<I>, slot: Slot)
    requires slot !in s.table
    ensures Erase(s, slot) == s && s.table - {slot} == s.table
  {
  }

  lemma EraseEntryTable<I>(s: State<I>, e: I)
    requires Agrees(s, {}) && e in s.info
    ensures s.info[e].refs > 0
    ensures EraseEntry(s, e).table == map k | k in s.table && s.table[k] != e :: s.table[k]
  {
    hide Agrees, Discard;
    EntryHasOneSlot(s, e);
    LiveReferenced(s, e);
    var others := map k | k in s.table && s.table[k] != e :: s.table[k];
    if s.info[e].slot in s.table && s.table[s.info[e].slot] == e {
      DiscardKeeps(s, e);
      assert s.table - {s.info[e].slot} == others;
    } else {
      assert s.table == others;
    }
  }

  lemma EntryHasOneSlot<I>(s: State<I>, e: I)
    requires Agrees(s, {}) && e in s.info
    ensures forall k :: k in s.table && s.table[k] == e ==> k == s.info[e].slot && s.info[e].inCache
  {
  }

  lemma LiveReferenced<I>(s: State<I>, e: I)
    requires Agrees(s, {}) && e in s.info
    ensures s.info[e].refs > 0
  {
  }

  /** Pruning leaves the table with the entries that clients hold. */
  lemma PruneTable<I>(w: World<I>)
    requires Good(w)
    ensures var r := Prune(w.s);
            r.idle == [] && r.table == map k | k in w.s.table && w.held[w.s.table[k]] > 0 :: w.s.table[k]
  {
    hide Agrees, Charges, Evict, Owned, Held;
    EvictOutcome(w.s, NO_LIMIT);
    EvictKeeps(w.s, NO_LIMIT);
    var r := Prune(w.s);
    UsageNotNegative(r);
    var kept := map k | k in w.s.table && w.held[w.s.table[k]] > 0 :: w.s.table[k];
    forall k ensures k in r.table ==> k in kept && kept[k] == r.table[k] {
      if k in r.table {
        var e := r.table[k];
        InTableIff(r, k, e);
        InTableIff(w.s, k, e);
        IdleIff(r, e);
        IdleIff(w.s, e);
        ReferencedIsLive(w, e);
      }
    }
    forall k ensures k in kept ==> k in r.table {
      if k in kept {
        var e := w.s.table[k];
        InTableIff(w.s, k, e);
        ReferencedIsLive(w, e);
        assert e !in w.s.idle && e in r.info && r.info[e] == w.s.info[e];
        InTableIff(r, k, e);
      }
    }
    assert r.table == kept;
  }

  lemma IdleIff<I>(s: State<I>, e: I)
    requires Agrees(s, {}) && e in s.info && s.info[e].inCache
    ensures e in s.idle <==> s.info[e].refs == 1
  {
  }

  lemma UsageNotNegative<I>(s: State<I>)
    requires Agrees(s, {})
    ensures s.usage >= 0
  {
    ChargesPositive(s.info, Cached(s.info));
  }

  lemma InTableIff<I>(s: State<I>, k: Slot, e: I)
    requires Agrees(s, {})
    ensures k in s.table && s.table[k] == e <==> e in s.info && s.info[e].inCache && s.info[e].slot == k
  {
  }
}
