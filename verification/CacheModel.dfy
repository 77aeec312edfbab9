/** What the reference-counted LRU cache of external/pdlfs-common/include/pdlfs-common/lru.h does, on
    values: a map of live entries, the queue of idle ones, and the log of deleter calls. Entries
    are named by an identity type. */
module CacheModel {

  type Key = seq<bv8>

  /** Where the table keeps an entry: callers pass the hash next to the key, and both are compared. */
  datatype Slot = Slot(key: Key, hash: nat)

  datatype Info = Info(slot: Slot, charge: nat, refs: nat, inCache: bool)

  datatype State<I(==)> = State(capacity: nat, total: int, usage: int, info: map<I, Info>,
                                idle: seq<I>, table: map<Slot, I>, deleted: seq<I>)

  // ----- Queues and sums

  /** The queue without its first e. */
  function Drop<I(==)>(q: seq<I>, e: I): (r: seq<I>)
    ensures e in q ==> |r| == |q| - 1
  {
    if q == [] then [] else if q[0] == e then q[1..] else [q[0]] + Drop(q[1..], e)
  }

  ghost predicate Distinct<I>(q: seq<I>) {
    forall i, j :: 0 <= i < j < |q| ==> q[i] != q[j]
  }

  lemma {:induction false} DropMember<I>(q: seq<I>, e: I)
    requires Distinct(q)
    ensures Distinct(Drop(q, e)) && (forall x :: x in Drop(q, e) ==> x in q && x != e)
    ensures forall x :: x in q && x != e ==> x in Drop(q, e)
  {
    if q != [] && q[0] != e {
      DropMember(q[1..], e);
      var r := Drop(q[1..], e);
      assert Drop(q, e) == [q[0]] + r && q == [q[0]] + q[1..];
      assert q[0] !in r;
    }
  }

  lemma {:induction false} DropAbsent<I>(q: seq<I>, e: I)
    requires e !in q
    ensures Drop(q, e) == q
  {
    if q != [] { DropAbsent(q[1..], e); }
  }

  /** The charges of a set of entries. */
  ghost function Charges<I>(info: map<I, Info>, s: set<I>): int
    requires s <= info.Keys
  {
    if s == {} then 0 else
      var e :| e in s;
      info[e].charge + Charges(info, s - {e})
  }

  lemma {:induction false} ChargesWithout<I>(info: map<I, Info>, s: set<I>, e: I)
    requires s <= info.Keys && e in s
    ensures Charges(info, s) == info[e].charge + Charges(info, s - {e})
  {
    var x :| x in s && Charges(info, s) == info[x].charge + Charges(info, s - {x});
    if x != e {
      ChargesWithout(info, s - {x}, e);
      ChargesWithout(info, s - {e}, x);
      assert s - {x} - {e} == s - {e} - {x};
    }
  }

  lemma {:induction false} ChargesFrame<I>(info: map<I, Info>, info': map<I, Info>, s: set<I>)
    requires s <= info.Keys && s <= info'.Keys
    requires forall e :: e in s ==> info[e].charge == info'[e].charge
    ensures Charges(info', s) == Charges(info, s)
  {
    if exists e :: e in s {
      var e :| e in s;
      ChargesWithout(info, s, e);
      ChargesWithout(info', s, e);
      ChargesFrame(info, info', s - {e});
    } else {
      assert s == {};
    }
  }

  lemma {:induction false} ChargesPositive<I>(info: map<I, Info>, s: set<I>)
    requires s <= info.Keys
    ensures Charges(info, s) >= 0
  {
    if exists e :: e in s {
      var e :| e in s;
      ChargesWithout(info, s, e);
      ChargesPositive(info, s - {e});
    } else {
      assert s == {};
    }
  }

  // ----- Operations

  function Unref<I(==)>(s: State<I>, e: I): State<I>
    requires e in s.info && s.info[e].refs > 0
  {
    var i := s.info[e].(refs := s.info[e].refs - 1);
    if i.refs == 0 then
      s.(info := s.info - {e}, idle := Drop(s.idle, e), total := s.total - i.charge, deleted := s.deleted + [e])
    else if i.inCache && i.refs == 1 then
      s.(info := s.info[e := i], idle := Drop(s.idle, e) + [e])
    else
      s.(info := s.info[e := i])
  }

  function Ref<I(==)>(s: State<I>, e: I): State<I>
    requires e in s.info
  {
    var i := s.info[e];
    var s1 := if i.refs == 1 && i.inCache then s.(idle := Drop(s.idle, e)) else s;
    s1.(info := s.info[e := i.(refs := i.refs + 1)])
  }

  function Remove<I(==)>(s: State<I>, e: I): State<I>
    requires e in s.info && s.info[e].refs > 0
  {
    Unref(s.(info := s.info[e := s.info[e].(inCache := false)], usage := s.usage - s.info[e].charge), e)
  }

  /** Takes an entry out of the table and removes it. */
  function Discard<I(==)>(s: State<I>, e: I): State<I>
    requires e in s.info && s.info[e].refs > 0
  {
    Remove(s.(table := s.table - {s.info[e].slot}), e)
  }

  function Erase<I(==)>(s: State<I>, slot: Slot): State<I>
    requires slot in s.table ==> s.table[slot] in s.info && s.info[s.table[slot]].refs > 0
  {
    if slot in s.table then Remove(s.(table := s.table - {slot}), s.table[slot]) else s
  }

  /** Only the entry itself goes, not another one under its key. */
  function EraseEntry<I(==)>(s: State<I>, e: I): State<I>
    requires e in s.info && s.info[e].refs > 0
  {
    var slot := s.info[e].slot;
    if slot in s.table && s.table[slot] == e then Discard(s, e) else s
  }

  function Lookup<I(==)>(s: State<I>, slot: Slot): State<I>
    requires slot in s.table ==> s.table[slot] in s.info
  {
    if slot in s.table then Ref(s, s.table[slot]) else s
  }

  /** Discards idle entries, the oldest first, while more than the limit is in use. */
  ghost function Evict<I>(s: State<I>, limit: int): State<I>
    requires Agrees(s, {})
    decreases |s.idle|
  {
    if s.usage > limit && s.idle != [] then
      DiscardKeeps(s, s.idle[0]);
      Evict(Discard(s, s.idle[0]), limit)
    else s
  }

  /** With nothing but idle entries to lose, every usage is above this limit. */
  const NO_LIMIT: int := -1

  ghost function Prune<I>(s: State<I>): State<I>
    requires Agrees(s, {})
  {
    Evict(s, NO_LIMIT)
  }

  /** The entry comes in with a reference for its client, and with one for the cache when it is on. */
  function Enter<I(==)>(s: State<I>, e: I, slot: Slot, charge: nat): State<I> {
    if s.capacity == 0 then
      s.(info := s.info[e := Info(slot, charge, 1, false)], total := s.total + charge)
    else
      s.(info := s.info[e := Info(slot, charge, 2, true)], total := s.total + charge,
         usage := s.usage + charge, table := s.table[slot := e])
  }

  /** The entry that had the key before is removed. */
  function Replace<I(==)>(s: State<I>, e: I, slot: Slot, charge: nat): State<I>
    requires e !in s.info && (slot in s.table ==> s.table[slot] in s.info && s.info[s.table[slot]].refs > 0)
  {
    if s.capacity > 0 && slot in s.table then Remove(Enter(s, e, slot, charge), s.table[slot])
    else Enter(s, e, slot, charge)
  }

  ghost function Insert<I>(s: State<I>, e: I, slot: Slot, charge: nat): State<I>
    requires Agrees(s, {}) && e !in s.info && e !in s.deleted
  {
    EnterKeeps(s, e, slot, charge);
    var s1 := Replace(s, e, slot, charge);
    if s.capacity == 0 then s1
    else
      EvictKeeps(s1, s.capacity);
      EvictsOldest(s1, s.capacity);
      var s2 := Evict(s1, s.capacity);
      if s2.usage > s.capacity then Discard(s2, e) else s2
  }

  // ----- The invariant

  ghost function Cached<I>(info: map<I, Info>): set<I> {
    set e | e in info && info[e].inCache
  }

  /** Counts, queue, table, usages and log fit together; loose entries are cached but not in the table. */
  ghost predicate Agrees<I>(s: State<I>, loose: set<I>) {
    && InfoAgrees(s) && TableAgrees(s, loose) && LogAgrees(s)
    && s.usage == Charges(s.info, Cached(s.info)) && s.total == Charges(s.info, s.info.Keys)
  }

  ghost predicate InfoAgrees<I>(s: State<I>) {
    && Distinct(s.idle) && (forall e :: e in s.idle ==> e in s.info)
    && forall e :: e in s.info ==>
         if e in s.idle then s.info[e].inCache && s.info[e].refs == 1
         else s.info[e].refs >= if s.info[e].inCache then 2 else 1
  }

  ghost predicate TableAgrees<I>(s: State<I>, loose: set<I>) {
    && (forall k :: k in s.table ==>
          var e := s.table[k]; e in s.info && s.info[e].inCache && s.info[e].slot == k && e !in loose)
    && (forall e :: e in s.info && s.info[e].inCache && e !in loose ==>
          s.info[e].slot in s.table && s.table[s.info[e].slot] == e)
  }

  ghost predicate LogAgrees<I>(s: State<I>) {
    Distinct(s.deleted) && forall e :: e in s.deleted ==> e !in s.info
  }

  lemma UsageAfter<I>(info: map<I, Info>, e: I, i: Info)
    requires e in info && i.charge == info[e].charge
    ensures info[e := i].Keys == info.Keys && Charges(info[e := i], info[e := i].Keys) == Charges(info, info.Keys)
    ensures Charges(info[e := i], Cached(info[e := i])) ==
            Charges(info, Cached(info)) - (if info[e].inCache then info[e].charge else 0)
              + (if i.inCache then i.charge else 0)
  {
    var next := info[e := i];
    assert next.Keys == info.Keys;
    ChargesFrame(info, next, info.Keys);
    assert Cached(next) - {e} == Cached(info) - {e};
    ChargesFrame(info, next, Cached(info) - {e});
    if info[e].inCache { ChargesWithout(info, Cached(info), e); } else { assert Cached(info) - {e} == Cached(info); }
    if i.inCache { ChargesWithout(next, Cached(next), e); } else { assert Cached(next) - {e} == Cached(next); }
  }

  lemma UsageWithout<I>(info: map<I, Info>, e: I)
    requires e in info
    ensures Charges(info - {e}, (info - {e}).Keys) == Charges(info, info.Keys) - info[e].charge
    ensures !info[e].inCache ==> Charges(info - {e}, Cached(info - {e})) == Charges(info, Cached(info))
  {
    var next := info - {e};
    ChargesWithout(info, info.Keys, e);
    assert next.Keys == info.Keys - {e};
    ChargesFrame(info, next, info.Keys - {e});
    assert Cached(next) == Cached(info) - {e};
    ChargesFrame(info, next, Cached(next));
    if !info[e].inCache { assert Cached(info) == Cached(next); }
  }

  /** Taking away a reference keeps the invariant, unless it is the last one of a cached entry. */
  lemma UnrefKeeps<I>(s: State<I>, e: I)
    requires Agrees(s, {}) && e in s.info && e !in s.idle
    ensures Agrees(Unref(s, e), {})
  {
    hide Charges, Cached, Distinct, Drop;
    var i := s.info[e].(refs := s.info[e].refs - 1);
    DropMember(s.idle, e);
    DropAbsent(s.idle, e);
    if i.refs == 0 {
      UsageWithout(s.info, e);
      Snoc(s.deleted, e);
    } else {
      UsageAfter(s.info, e, i);
      Snoc(s.idle, e);
    }
  }

  lemma Snoc<I>(q: seq<I>, e: I)
    requires Distinct(q) && e !in q
    ensures Distinct(q + [e])
  {
  }

  lemma RefKeeps<I>(s: State<I>, e: I)
    requires Agrees(s, {}) && e in s.info
    ensures Agrees(Ref(s, e), {})
  {
    hide Charges, Cached, Distinct, Drop;
    DropMember(s.idle, e);
    UsageAfter(s.info, e, s.info[e].(refs := s.info[e].refs + 1));
  }

  /** Removing an entry that has left the table keeps the invariant. */
  lemma RemoveKeeps<I>(s: State<I>, e: I)
    requires Agrees(s, {e}) && e in s.info && s.info[e].inCache
    ensures Agrees(Remove(s, e), {})
  {
    hide Charges, Cached, Distinct, Drop;
    var i := s.info[e].(inCache := false);
    var s1 := s.info[e := i];
    UsageAfter(s.info, e, i);
    DropMember(s.idle, e);
    DropAbsentIf(s.idle, e);
    if i.refs == 1 {
      UsageWithout(s1, e);
      Snoc(s.deleted, e);
    } else {
      UsageAfter(s1, e, i.(refs := i.refs - 1));
    }
  }

  lemma DropAbsentIf<I>(q: seq<I>, e: I)
    ensures e !in q ==> Drop(q, e) == q
  {
    if e !in q { DropAbsent(q, e); }
  }

  lemma DiscardKeeps<I>(s: State<I>, e: I)
    requires Agrees(s, {}) && e in s.info && s.info[e].inCache
    ensures s.info[e].refs > 0 && Agrees(Discard(s, e), {})
    ensures Discard(s, e).idle == Drop(s.idle, e) && (e in s.idle ==> |Discard(s, e).idle| == |s.idle| - 1)
    ensures Discard(s, e).usage == s.usage - s.info[e].charge && Discard(s, e).capacity == s.capacity
    ensures e in s.idle ==> Discard(s, e).deleted == s.deleted + [e] && Discard(s, e).info == s.info - {e}
    ensures e !in s.idle ==> Discard(s, e).deleted == s.deleted
                             && Discard(s, e).info
                               == s.info[e := s.info[e].(inCache := false, refs := s.info[e].refs - 1)]
    ensures Discard(s, e).table == s.table - {s.info[e].slot}
  {
    hide Charges, Cached, Distinct;
    var s1 := s.(table := s.table - {s.info[e].slot});
    assert Agrees(s1, {e});
    RemoveKeeps(s1, e);
    DropAbsentIf(s.idle, e);
    var unmarked := s.info[e := s.info[e].(inCache := false)];
    assert unmarked - {e} == s.info - {e};
  }

  /** The new entry is in; one that had its key is still in, but not in the table. */
  lemma NewAgrees<I>(s: State<I>, e: I, slot: Slot, charge: nat)
    requires Agrees(s, {}) && e !in s.info && e !in s.deleted
    ensures Agrees(Enter(s, e, slot, charge), if s.capacity > 0 && slot in s.table then {s.table[slot]} else {})
    ensures e !in s.idle && Distinct(s.idle)
    ensures slot in s.table ==> var x := s.table[slot]; x in s.info && s.info[x].inCache && s.info[x].refs > 0
  {
    hide Charges, Cached, InfoAgrees, TableAgrees, LogAgrees;
    UsageWith(s.info, e, Enter(s, e, slot, charge).info[e]);
    NewInfoAgrees(s, e, slot, charge);
    NewTableAgrees(s, e, slot, charge);
    NewLogAgrees(s, e, slot, charge);
  }

  lemma NewInfoAgrees<I>(s: State<I>, e: I, slot: Slot, charge: nat)
    requires InfoAgrees(s) && e !in s.info
    ensures InfoAgrees(Enter(s, e, slot, charge)) && e !in s.idle && Distinct(s.idle)
  {
    hide Distinct;
  }

  lemma NewTableAgrees<I>(s: State<I>, e: I, slot: Slot, charge: nat)
    requires TableAgrees(s, {}) && InfoAgrees(s) && e !in s.info
    ensures TableAgrees(Enter(s, e, slot, charge), if s.capacity > 0 && slot in s.table then {s.table[slot]} else {})
    ensures slot in s.table ==> var x := s.table[slot]; x in s.info && s.info[x].inCache && s.info[x].refs > 0
  {
    hide Distinct;
  }

  lemma NewLogAgrees<I>(s: State<I>, e: I, slot: Slot, charge: nat)
    requires LogAgrees(s) && e !in s.info && e !in s.deleted
    ensures LogAgrees(Enter(s, e, slot, charge))
  {
    hide Distinct;
  }

  lemma EnterKeeps<I>(s: State<I>, e: I, slot: Slot, charge: nat)
    requires Agrees(s, {}) && e !in s.info && e !in s.deleted
    ensures Agrees(Replace(s, e, slot, charge), {})
    ensures var r := Replace(s, e, slot, charge);
            && r.capacity == s.capacity && r.usage <= s.usage + charge && e in r.info && e !in r.idle
            && (s.capacity > 0 ==> r.info[e] == Info(slot, charge, 2, true))
            && (s.capacity == 0 ==> r.usage == s.usage)
  {
    hide Charges, Cached, Distinct, Agrees;
    var s1 := Enter(s, e, slot, charge);
    var loose := if s.capacity > 0 && slot in s.table then {s.table[slot]} else {};
    NewAgrees(s, e, slot, charge);
    if s.capacity > 0 && slot in s.table {
      RemoveKeeps(s1, s.table[slot]);
      DropAbsentIf(s.idle, s.table[slot]);
      DropMember(s.idle, s.table[slot]);
    }
  }

  lemma UsageWith<I>(info: map<I, Info>, e: I, i: Info)
    requires e !in info
    ensures Charges(info[e := i], info[e := i].Keys) == Charges(info, info.Keys) + i.charge
    ensures Charges(info[e := i], Cached(info[e := i]))
            == Charges(info, Cached(info)) + if i.inCache then i.charge else 0
  {
    var next := info[e := i];
    ChargesWithout(next, next.Keys, e);
    assert next.Keys - {e} == info.Keys;
    ChargesFrame(info, next, info.Keys);
    ChargesFrame(info, next, Cached(info));
    if i.inCache {
      ChargesWithout(next, Cached(next), e);
      assert Cached(next) - {e} == Cached(info);
    } else {
      assert Cached(next) == Cached(info);
    }
  }

  /** Eviction keeps the invariant, and goes on until the limit is met or nothing is idle. */
  lemma {:induction false} EvictKeeps<I>(s: State<I>, limit: int)
    requires Agrees(s, {})
    ensures var r := Evict(s, limit);
            && Agrees(r, {}) && r.usage <= s.usage && r.capacity == s.capacity && (r.usage <= limit || r.idle == [])
    decreases |s.idle|
  {
    hide Agrees, Discard;
    EvictStep(s, limit);
    if s.usage > limit && s.idle != [] {
      FrontIsCached(s);
      DiscardKeeps(s, s.idle[0]);
      DropFront(s.idle);
      EvictKeeps(Discard(s, s.idle[0]), limit);
    }
  }

  /** What the table names is live. */
  lemma TableLive<I>(s: State<I>, slot: Slot)
    requires Agrees(s, {}) && slot in s.table
    ensures var e := s.table[slot]; e in s.info && s.info[e].inCache && s.info[e].slot == slot && s.info[e].refs > 0
  {
  }

  lemma FrontIsCached<I>(s: State<I>)
    requires Agrees(s, {}) && s.idle != []
    ensures var e := s.idle[0]; e in s.info && s.info[e].inCache && s.info[e].refs == 1
  {
  }

  lemma DropFront<I>(q: seq<I>)
    requires q != []
    ensures Drop(q, q[0]) == q[1..]
  {
  }

  lemma EvictStep<I>(s: State<I>, limit: int)
    requires Agrees(s, {})
    ensures s.usage > limit && s.idle != [] ==>
              && s.idle[0] in s.info && s.info[s.idle[0]].refs > 0 && Agrees(Discard(s, s.idle[0]), {})
              && Evict(s, limit) == Evict(Discard(s, s.idle[0]), limit)
    ensures !(s.usage > limit && s.idle != []) ==> Evict(s, limit) == s
  {
    hide Agrees, Discard;
    if s.usage > limit && s.idle != [] {
      FrontIsCached(s);
      DiscardKeeps(s, s.idle[0]);
    }
  }

  // ----- Eviction order

  /** How many entries eviction discards. */
  ghost function EvictCount<I>(s: State<I>, limit: int): nat
    requires Agrees(s, {})
    decreases |s.idle|
  {
    if s.usage > limit && s.idle != [] then
      DiscardKeeps(s, s.idle[0]);
      1 + EvictCount(Discard(s, s.idle[0]), limit)
    else 0
  }

  ghost predicate SameInfoBut<I>(before: map<I, Info>, after: map<I, Info>, gone: seq<I>) {
    && (forall e :: e in after ==> e in before && e !in gone)
    && (forall e :: e in before && e !in gone ==> e in after)
    && forall e :: e in after ==> after[e] == before[e]
  }

  /** The victims are the oldest idle entries, in that order, each handed to its deleter; nothing else
      goes, and the last of them had to. */
  lemma {:induction false} EvictsOldest<I>(s: State<I>, limit: int)
    requires Agrees(s, {})
    ensures var r, k := Evict(s, limit), EvictCount(s, limit);
            && k <= |s.idle| && r.idle == s.idle[k..] && r.deleted == s.deleted + s.idle[..k]
            && SameInfoBut(s.info, r.info, s.idle[..k])
            && (k > 0 ==> s.idle[k - 1] in s.info && r.usage + s.info[s.idle[k - 1]].charge > limit)
    decreases |s.idle|
  {
    hide Agrees, Discard, Evict, EvictCount, SameInfoBut, Drop;
    EvictStep(s, limit);
    CountStep(s, limit);
    if s.usage > limit && s.idle != [] {
      FrontIsCached(s);
      DiscardKeeps(s, s.idle[0]);
      DropFront(s.idle);
      var s1 := Discard(s, s.idle[0]);
      EvictsOldest(s1, limit);
      EvictJoin(s, s1, Evict(s1, limit), EvictCount(s1, limit));
      EvictStep(s1, limit);
      CountStep(s1, limit);
    } else {
      NothingGone(s);
    }
  }

  lemma CountStep<I>(s: State<I>, limit: int)
    requires Agrees(s, {})
    ensures s.usage > limit && s.idle != [] ==>
              && s.idle[0] in s.info && s.info[s.idle[0]].refs > 0 && Agrees(Discard(s, s.idle[0]), {})
              && EvictCount(s, limit) == 1 + EvictCount(Discard(s, s.idle[0]), limit)
    ensures !(s.usage > limit && s.idle != []) ==> EvictCount(s, limit) == 0
  {
    hide Agrees, Discard;
    if s.usage > limit && s.idle != [] {
      FrontIsCached(s);
      DiscardKeeps(s, s.idle[0]);
    }
  }

  lemma NothingGone<I>(s: State<I>)
    ensures s.idle == s.idle[0..] && s.deleted == s.deleted + s.idle[..0] && SameInfoBut(s.info, s.info, s.idle[..0])
  {
  }

  /** One victim before k others. */
  lemma EvictJoin<I>(s: State<I>, s1: State<I>, r: State<I>, k: nat)
    requires s.idle != [] && s.idle[0] in s.info && s1.idle == s.idle[1..] && k <= |s1.idle|
    requires s1.deleted == s.deleted + [s.idle[0]] && s1.info == s.info - {s.idle[0]}
    requires r.idle == s1.idle[k..] && r.deleted == s1.deleted + s1.idle[..k]
    requires SameInfoBut(s1.info, r.info, s1.idle[..k])
    ensures r.idle == s.idle[k + 1..] && r.deleted == s.deleted + s.idle[..k + 1]
    ensures SameInfoBut(s.info, r.info, s.idle[..k + 1])
    ensures k > 0 ==> s1.idle[k - 1] == s.idle[k]
    ensures k > 0 && s1.idle[k - 1] in s1.info ==> s1.info[s1.idle[k - 1]] == s.info[s1.idle[k - 1]]
  {
    var gone := s.idle[..k + 1];
    assert gone == [s.idle[0]] + s1.idle[..k];
  }

  // ----- Runs

  /** The cache, the handles its clients hold, and all entries there ever were. */
  datatype World<I(==)> = World(s: State<I>, held: multiset<I>, born: set<I>)

  datatype Op<I> = InsertOp(e: I, slot: Slot, charge: nat) | LookupOp(slot: Slot) | RefOp(e: I) | ReleaseOp(e: I)
                 | EraseOp(slot: Slot) | EraseEntryOp(e: I) | PruneOp

  ghost predicate Owned<I>(s: State<I>, held: multiset<I>, born: set<I>) {
    && (forall e :: e in s.info ==> s.info[e].refs == held[e] + if s.info[e].inCache then 1 else 0)
    && (forall e :: e in held ==> e in s.info)
    && (forall e :: e in born ==> e in s.info || e in s.deleted)
    && (forall e :: e in s.info ==> e in born) && (forall e :: e in s.deleted ==> e in born)
  }

  ghost predicate Good<I>(w: World<I>) {
    Agrees(w.s, {}) && Owned(w.s, w.held, w.born) && w.s.usage <= w.s.capacity
  }

  /** New entries are new; clients release only what they hold, and name only live entries. */
  ghost predicate Legal<I>(w: World<I>, op: Op<I>) {
    match op
    case InsertOp(e, _, _) => e !in w.born
    case RefOp(e) => e in w.s.info
    case ReleaseOp(e) => e in w.held
    case EraseEntryOp(e) => e in w.s.info
    case _ => true
  }

  ghost function Step<I>(w: World<I>, op: Op<I>): World<I>
    requires Good(w) && Legal(w, op)
  {
    match op
    case InsertOp(e, slot, charge) => World(Insert(w.s, e, slot, charge), w.held + multiset{e}, w.born + {e})
    case LookupOp(slot) => World(Lookup(w.s, slot),
                                 if slot in w.s.table then w.held + multiset{w.s.table[slot]} else w.held, w.born)
    case RefOp(e) => World(Ref(w.s, e), w.held + multiset{e}, w.born)
    case ReleaseOp(e) => World(Unref(w.s, e), w.held - multiset{e}, w.born)
    case EraseOp(slot) => World(Erase(w.s, slot), w.held, w.born)
    case EraseEntryOp(e) => World(EraseEntry(w.s, e), w.held, w.born)
    case PruneOp => World(Prune(w.s), w.held, w.born)
  }

  lemma RefOwned<I>(s: State<I>, e: I, held: multiset<I>, born: set<I>)
    requires Owned(s, held, born) && e in s.info
    ensures Owned(Ref(s, e), held + multiset{e}, born)
  {
  }

  lemma UnrefOwned<I>(s: State<I>, e: I, held: multiset<I>, born: set<I>)
    requires Owned(s, held, born) && e in held
    ensures Owned(Unref(s, e), held - multiset{e}, born)
  {
  }

  lemma DiscardOwned<I>(s: State<I>, e: I, held: multiset<I>, born: set<I>)
    requires Agrees(s, {}) && Owned(s, held, born) && e in s.info && s.info[e].inCache
    ensures Agrees(Discard(s, e), {}) && Owned(Discard(s, e), held, born)
    ensures Discard(s, e).usage == s.usage - s.info[e].charge && Discard(s, e).capacity == s.capacity
  {
    hide Discard, TableAgrees, LogAgrees, Charges, Cached, Distinct;
    DiscardKeeps(s, e);
  }

  lemma {:induction false} EvictOwned<I>(s: State<I>, limit: int, held: multiset<I>, born: set<I>)
    requires Agrees(s, {}) && Owned(s, held, born)
    ensures Owned(Evict(s, limit), held, born)
    decreases |s.idle|
  {
    hide Agrees, Discard, Owned;
    EvictStep(s, limit);
    if s.usage > limit && s.idle != [] {
      FrontIsCached(s);
      DiscardKeeps(s, s.idle[0]);
      DiscardOwned(s, s.idle[0], held, born);
      EvictOwned(Discard(s, s.idle[0]), limit, held, born);
    }
  }

  lemma ReplaceOwned<I>(s: State<I>, e: I, slot: Slot, charge: nat, held: multiset<I>, born: set<I>)
    requires Agrees(s, {}) && Owned(s, held, born) && e !in born
    ensures Owned(Replace(s, e, slot, charge), held + multiset{e}, born + {e})
  {
    hide Charges, Cached, Distinct, Drop;
    assert held[e] == 0;
    EnterOwned(s, e, slot, charge, held, born);
    var s1 := Enter(s, e, slot, charge);
    if s.capacity > 0 && slot in s.table {
      RemoveOwned(s1, s.table[slot], held + multiset{e}, born + {e});
    }
  }

  lemma EnterOwned<I>(s: State<I>, e: I, slot: Slot, charge: nat, held: multiset<I>, born: set<I>)
    requires Owned(s, held, born) && e !in born && held[e] == 0
    ensures Owned(Enter(s, e, slot, charge), held + multiset{e}, born + {e})
  {
  }

  lemma RemoveOwned<I>(s: State<I>, e: I, held: multiset<I>, born: set<I>)
    requires Owned(s, held, born) && e in s.info && s.info[e].inCache
    ensures Owned(Remove(s, e), held, born)
  {
  }

  lemma InsertKeeps<I>(w: World<I>, e: I, slot: Slot, charge: nat)
    requires Good(w) && e !in w.born
    ensures Good(World(Insert(w.s, e, slot, charge), w.held + multiset{e}, w.born + {e}))
  {
    hide Agrees, Discard, Replace, Owned;
    NotBorn(w, e);
    if slot in w.s.table { TableLive(w.s, slot); }
    EnterKeeps(w.s, e, slot, charge);
    ReplaceOwned(w.s, e, slot, charge, w.held, w.born);
    if w.s.capacity > 0 {
      var s1 := Replace(w.s, e, slot, charge);
      EvictKeeps(s1, w.s.capacity);
      EvictsOldest(s1, w.s.capacity);
      EvictOwned(s1, w.s.capacity, w.held + multiset{e}, w.born + {e});
      var s2 := Evict(s1, w.s.capacity);
      if s2.usage > w.s.capacity { DiscardOwned(s2, e, w.held + multiset{e}, w.born + {e}); }
    }
  }

  lemma NotBorn<I>(w: World<I>, e: I)
    requires Good(w) && e !in w.born
    ensures e !in w.s.info && e !in w.s.deleted
  {
  }

  lemma StepKeeps<I>(w: World<I>, op: Op<I>)
    requires Good(w) && Legal(w, op)
    ensures Good(Step(w, op)) && Step(w, op).s.capacity == w.s.capacity
  {
    hide Charges, Cached, Distinct, LogAgrees, Drop, Evict, Insert, Discard;
    match op
    case InsertOp(e, slot, charge) => InsertKeeps(w, e, slot, charge); InsertCapacity(w, e, slot, charge);
    case LookupOp(slot) =>
      if slot in w.s.table {
        RefKeeps(w.s, w.s.table[slot]);
        RefOwned(w.s, w.s.table[slot], w.held, w.born);
      }
    case RefOp(e) => RefKeeps(w.s, e); RefOwned(w.s, e, w.held, w.born);
    case ReleaseOp(e) => UnrefKeeps(w.s, e); UnrefOwned(w.s, e, w.held, w.born);
    case EraseOp(slot) =>
      if slot in w.s.table {
        EraseIsDiscard(w.s, slot);
        DiscardOwned(w.s, w.s.table[slot], w.held, w.born);
      }
    case EraseEntryOp(e) => if w.s.info[e].slot in w.s.table { DiscardOwnedIf(w.s, e, w.held, w.born); }
    case PruneOp =>
      EvictOwned(w.s, NO_LIMIT, w.held, w.born);
      EvictKeeps(w.s, NO_LIMIT);
  }

  lemma InsertCapacity<I>(w: World<I>, e: I, slot: Slot, charge: nat)
    requires Good(w) && e !in w.born
    ensures e !in w.s.info && e !in w.s.deleted && Insert(w.s, e, slot, charge).capacity == w.s.capacity
  {
    hide Agrees, Owned;
    NotBorn(w, e);
    if slot in w.s.table { TableLive(w.s, slot); }
    EnterKeeps(w.s, e, slot, charge);
    if w.s.capacity > 0 {
      var s1 := Replace(w.s, e, slot, charge);
      EvictKeeps(s1, w.s.capacity);
      EvictsOldest(s1, w.s.capacity);
      var s2 := Evict(s1, w.s.capacity);
      if s2.usage > w.s.capacity { DiscardKeeps(s2, e); }
    }
  }

  lemma EraseIsDiscard<I>(s: State<I>, slot: Slot)
    requires Agrees(s, {}) && slot in s.table
    ensures var e := s.table[slot];
            e in s.info && s.info[e].inCache && s.info[e].refs > 0 && Erase(s, slot) == Discard(s, e)
  {
  }

  lemma DiscardOwnedIf<I>(s: State<I>, e: I, held: multiset<I>, born: set<I>)
    requires Agrees(s, {}) && Owned(s, held, born) && e in s.info && s.info[e].slot in s.table && s.info[e].refs > 0
    ensures Agrees(EraseEntry(s, e), {}) && Owned(EraseEntry(s, e), held, born)
    ensures EraseEntry(s, e).usage <= s.usage && EraseEntry(s, e).capacity == s.capacity
  {
    hide Charges, Cached, Distinct, LogAgrees, Discard;
    if s.table[s.info[e].slot] == e { DiscardOwned(s, e, held, born); }
  }

  ghost predicate LegalRun<I>(w: World<I>, ops: seq<Op<I>>)
    requires Good(w)
    decreases |ops|
  {
    ops == [] || (Legal(w, ops[0]) && (StepKeeps(w, ops[0]); LegalRun(Step(w, ops[0]), ops[1..])))
  }

  ghost function Run<I>(w: World<I>, ops: seq<Op<I>>): World<I>
    requires Good(w) && LegalRun(w, ops)
    decreases |ops|
  {
    if ops == [] then w else
      StepKeeps(w, ops[0]);
      Run(Step(w, ops[0]), ops[1..])
  }

  function Empty<I>(capacity: nat): World<I> {
    World(State(capacity, 0, 0, map[], [], map[], []), multiset{}, {})
  }

  ghost function Start<I>(capacity: nat): (w: World<I>)
    ensures Good(w)
  {
    EmptyIsGood<I>(capacity);
    Empty<I>(capacity)
  }

  lemma EmptyIsGood<I>(capacity: nat)
    ensures Good(Empty<I>(capacity))
  {
    var s := Empty<I>(capacity).s;
    assert Cached(s.info) == {} && s.info.Keys == {};
  }

  /** The whole contract of the cache over any legal run from the empty cache of a fixed capacity. */
  lemma {:induction false} RunKeeps<I>(w: World<I>, ops: seq<Op<I>>)
    requires Good(w) && LegalRun(w, ops)
    ensures Good(Run(w, ops)) && Run(w, ops).s.capacity == w.s.capacity
    decreases |ops|
  {
    if ops != [] {
      StepKeeps(w, ops[0]);
      RunKeeps(Step(w, ops[0]), ops[1..]);
    }
  }

  /** Someone refers to the entry: a client, or the cache. */
  ghost predicate Referenced<I>(w: World<I>, e: I) {
    e in w.held || exists k :: k in w.s.table && w.s.table[k] == e
  }

  lemma ReferencedIsLive<I>(w: World<I>, e: I)
    requires Good(w)
    ensures Referenced(w, e) <==> e in w.s.info
    ensures e in w.s.idle <==> e in w.s.info && w.held[e] == 0
  {
    hide Charges, Cached, Distinct, LogAgrees;
    if e in w.s.info && w.s.info[e].inCache { assert w.s.info[e].slot in w.s.table; }
  }

  /** In every reachable state: the deleter has run once for each entry nobody refers to any more, and
      never for one that somebody refers to; usages are the sums of the charges and within capacity. */
  lemma DeletedExactlyOnce<I>(capacity: nat, ops: seq<Op<I>>, e: I)
    requires LegalRun(Start<I>(capacity), ops)
    ensures var w := Run(Start<I>(capacity), ops);
            && multiset(w.s.deleted)[e] == (if e in w.born && !Referenced(w, e) then 1 else 0)
            && (e in w.s.idle <==> Referenced(w, e) && w.held[e] == 0)
            && w.s.usage == Charges(w.s.info, Cached(w.s.info)) <= capacity
            && w.s.total == Charges(w.s.info, w.s.info.Keys) && w.s.usage <= w.s.total
  {
    hide Charges, Cached, LegalRun, Run, InfoAgrees, TableAgrees;
    RunKeeps(Start<I>(capacity), ops);
    var w := Run(Start<I>(capacity), ops);
    ReferencedIsLive(w, e);
    CountDistinct(w.s.deleted, e);
    PartOfAll(w.s.info);
  }

  lemma {:induction false} CountDistinct<I>(q: seq<I>, e: I)
    requires Distinct(q)
    ensures multiset(q)[e] == if e in q then 1 else 0
  {
    if q != [] {
      assert q == [q[0]] + q[1..];
      CountDistinct(q[1..], e);
    }
  }

  lemma {:induction false} ChargesMonotone<I>(info: map<I, Info>, s: set<I>, t: set<I>)
    requires s <= t <= info.Keys
    ensures Charges(info, s) <= Charges(info, t)
  {
    if exists e :: e in s {
      var e :| e in s;
      ChargesWithout(info, s, e);
      ChargesWithout(info, t, e);
      ChargesMonotone(info, s - {e}, t - {e});
    } else {
      assert s == {};
      ChargesPositive(info, t);
    }
  }

  lemma PartOfAll<I>(info: map<I, Info>)
    ensures Charges(info, Cached(info)) <= Charges(info, info.Keys)
  {
    ChargesMonotone(info, Cached(info), info.Keys);
  }

  /** Some of the entries, in the same order. */
  ghost predicate Thinned<I>(q: seq<I>, r: seq<I>) {
    if r == [] then true else if q == [] then false
    else if q[0] == r[0] then Thinned(q[1..], r[1..]) else Thinned(q[1..], r)
  }

  lemma {:induction false} ThinnedSelf<I>(q: seq<I>)
    ensures Thinned(q, q)
  {
    if q != [] { ThinnedSelf(q[1..]); }
  }

  lemma {:induction false} ThinnedMore<I>(q: seq<I>, r: seq<I>)
    requires Thinned(q, r) && r != []
    ensures Thinned(q, r[1..])
  {
    if q[0] == r[0] {
      if |r| > 1 {
        if q[1..] != [] && q[0] == r[1] { ThinnedMore(q[1..], r[1..]); }
      }
    } else {
      ThinnedMore(q[1..], r);
      if r[1..] != [] && q[0] == r[1] { ThinnedMore(q[1..], r[1..]); }
    }
  }

  lemma {:induction false} ThinnedSuffix<I>(q: seq<I>, r: seq<I>, k: nat)
    requires Thinned(q, r) && k <= |r|
    ensures Thinned(q, r[k..])
  {
    if k == 0 {
      assert r[0..] == r;
    } else {
      ThinnedMore(q, r);
      ThinnedSuffix(q, r[1..], k - 1);
      assert r[1..][k - 1..] == r[k..];
    }
  }

  lemma {:induction false} ThinnedDrop<I>(q: seq<I>, e: I)
    ensures Thinned(q, Drop(q, e))
  {
    if q != [] {
      if q[0] == e {
        ThinnedSelf(q);
        ThinnedMore(q, q);
      } else {
        ThinnedDrop(q[1..], e);
        assert Drop(q, e)[1..] == Drop(q[1..], e);
      }
    }
  }

  /** The idle queue is a queue: a step keeps some of its entries in order, and only releasing the last
      handle of a cached entry puts that entry behind them. */
  lemma StepQueues<I>(w: World<I>, op: Op<I>)
    requires Good(w) && Legal(w, op)
    ensures var idle := Step(w, op).s.idle;
            || Thinned(w.s.idle, idle)
            || (op.ReleaseOp? && w.s.info[op.e].refs == 2 && w.s.info[op.e].inCache && idle == w.s.idle + [op.e])
  {
    hide Charges, Cached, Distinct, LogAgrees, Drop, Evict, Insert, Discard, Thinned;
    ThinnedSelf(w.s.idle);
    match op
    case InsertOp(e, slot, charge) => InsertThins(w, e, slot, charge);
    case LookupOp(slot) => if slot in w.s.table { ThinnedDrop(w.s.idle, w.s.table[slot]); }
    case RefOp(e) => ThinnedDrop(w.s.idle, e);
    case ReleaseOp(e) => ReferencedIsLive(w, e); DropAbsent(w.s.idle, e);
    case EraseOp(slot) =>
      if slot in w.s.table {
        EraseIsDiscard(w.s, slot);
        DiscardKeeps(w.s, w.s.table[slot]);
        ThinnedDrop(w.s.idle, w.s.table[slot]);
      }
    case EraseEntryOp(e) =>
      if w.s.info[e].slot in w.s.table && w.s.table[w.s.info[e].slot] == e {
        DiscardKeeps(w.s, e);
        ThinnedDrop(w.s.idle, e);
      }
    case PruneOp =>
      EvictsOldest(w.s, NO_LIMIT);
      ThinnedSuffix(w.s.idle, w.s.idle, EvictCount(w.s, NO_LIMIT));
  }

  lemma InsertThins<I>(w: World<I>, e: I, slot: Slot, charge: nat)
    requires Good(w) && e !in w.born
    ensures e !in w.s.info && e !in w.s.deleted && Thinned(w.s.idle, Insert(w.s, e, slot, charge).idle)
  {
    hide Agrees, Owned, Thinned, Drop;
    NotBorn(w, e);
    if slot in w.s.table { TableLive(w.s, slot); }
    EnterKeeps(w.s, e, slot, charge);
    ReplaceThins(w.s, e, slot, charge);
    if w.s.capacity > 0 {
      var s1 := Replace(w.s, e, slot, charge);
      EvictKeeps(s1, w.s.capacity);
      EvictsOldest(s1, w.s.capacity);
      ThinnedSuffix(w.s.idle, s1.idle, EvictCount(s1, w.s.capacity));
      var s2 := Evict(s1, w.s.capacity);
      if s2.usage > w.s.capacity {
        DiscardKeeps(s2, e);
        DropAbsent(s2.idle, e);
      }
    }
  }

  lemma ReplaceThins<I>(s: State<I>, e: I, slot: Slot, charge: nat)
    requires Agrees(s, {}) && e !in s.info && e !in s.deleted
    requires slot in s.table ==> s.table[slot] in s.info && s.info[s.table[slot]].refs > 0
    ensures Thinned(s.idle, Replace(s, e, slot, charge).idle)
  {
    hide Charges, Cached, Distinct, LogAgrees, Drop, Thinned;
    ThinnedSelf(s.idle);
    if slot in s.table { ThinnedDrop(s.idle, s.table[slot]); }
  }
}
