/** The LRU cache of external/pdlfs-common/include/pdlfs-common/lru.h on its linked entries. */
module LruCaches {
  import opened CacheModel
  import opened CacheOutcomes
  import opened HashTables

  // ----- Circular lists

  /** The i-th stop on the way around a circular list; the head is before the first and behind the last. */
  ghost function At(head: Entry, s: seq<Entry>, i: nat): Entry {
    if 1 <= i <= |s| then s[i - 1] else head
  }

  ghost predicate Joined(a: Entry, b: Entry)
    reads a`next, b`prev
  {
    a.next == b && b.prev == a
  }

  ghost predicate Ring(head: Entry, s: seq<Entry>)
    reads head`next, head`prev, (set e | e in s)`next, (set e | e in s)`prev
  {
    forall i: nat :: i <= |s| ==> Joined(At(head, s, i), At(head, s, i + 1))
  }

  lemma StopsDiffer(head: Entry, s: seq<Entry>, i: nat, j: nat)
    requires Distinct(s) && head !in s && i <= |s| && j <= |s| && i != j
    ensures At(head, s, i) != At(head, s, j)
  {
  }

  /** LRU_Remove: joins the neighbours of the entry at k. */
  method Unjoin(e: Entry, ghost head: Entry, ghost s: seq<Entry>, ghost k: nat)
    requires Ring(head, s) && Distinct(s) && head !in s && k < |s| && s[k] == e
    modifies head`next, head`prev, (set x | x in s)`next, (set x | x in s)`prev
    ensures Ring(head, s[..k] + s[k + 1..])
  {
    ghost var r := s[..k] + s[k + 1..];
    ghost var a, b := At(head, s, k), At(head, s, k + 2);
    assert At(head, s, k + 1) == e;
    assert Joined(At(head, s, k), At(head, s, k + 1)) && Joined(At(head, s, k + 1), At(head, s, k + 2));
    e.next.prev := e.prev;
    e.prev.next := e.next;
    forall i: nat | i <= |r| ensures Joined(At(head, r, i), At(head, r, i + 1)) {
      var x := if i <= k then i else i + 1;
      assert At(head, r, i) == At(head, s, x);
      var y := if i + 1 <= k then i + 1 else i + 2;
      assert At(head, r, i + 1) == At(head, s, y);
      if i != k {
        assert old(Joined(At(head, s, x), At(head, s, x + 1)));
        StopsDiffer(head, s, x, k);
        EndsDiffer(head, s, y, k + 2);
      }
    }
  }

  lemma EndsDiffer(head: Entry, s: seq<Entry>, i: nat, j: nat)
    requires Distinct(s) && head !in s && 1 <= i <= |s| + 1 && 1 <= j <= |s| + 1 && i != j
    ensures At(head, s, i) != At(head, s, j)
  {
  }

  /** LRU_Append: puts an entry just before the head. */
  method JoinLast(e: Entry, head: Entry, ghost s: seq<Entry>)
    requires Ring(head, s) && Distinct(s) && head !in s && e !in s && e != head
    modifies e`next, e`prev, head`next, head`prev, (set x | x in s)`next, (set x | x in s)`prev
    ensures Ring(head, s + [e])
  {
    ghost var r, n := s + [e], |s|;
    assert Joined(At(head, s, n), At(head, s, n + 1));
    e.next := head;
    e.prev := head.prev;
    e.prev.next := e;
    e.next.prev := e;
    forall i: nat | i <= |r| ensures Joined(At(head, r, i), At(head, r, i + 1)) {
      if i < n {
        assert old(Joined(At(head, s, i), At(head, s, i + 1)));
        StopsDiffer(head, s, i, n);
        EndsDiffer(head, s, i + 1, n + 1);
      }
    }
  }

  lemma {:induction false} DropAt<I>(q: seq<I>, k: nat)
    requires Distinct(q) && k < |q|
    ensures Drop(q, q[k]) == q[..k] + q[k + 1..]
  {
    if k > 0 {
      DropAt(q[1..], k - 1);
      assert q[1..][..k - 1] == q[1..k] && q[1..][k..] == q[k + 1..];
      assert [q[0]] + q[1..k] == q[..k];
    }
  }

  // ----- The cache

  ghost function OneLess(s: State<Entry>, e: Entry): State<Entry>
    requires e in s.info && s.info[e].refs > 0
  {
    s.(info := s.info[e := s.info[e].(refs := s.info[e].refs - 1)])
  }

  /** What becomes of an entry that has just lost a reference. */
  ghost function Settled(t: State<Entry>, e: Entry): State<Entry>
    requires e in t.info
  {
    if t.info[e].refs == 0 then
      t.(info := t.info - {e}, idle := Drop(t.idle, e), total := t.total - t.info[e].charge, deleted := t.deleted + [e])
    else if t.info[e].inCache && t.info[e].refs == 1 then t.(idle := Drop(t.idle, e) + [e])
    else t
  }

  lemma UnrefOf(s: State<Entry>, e: Entry)
    requires e in s.info && s.info[e].refs > 0
    ensures e in OneLess(s, e).info && Unref(s, e) == Settled(OneLess(s, e), e)
  {
    assert OneLess(s, e).info - {e} == s.info - {e};
  }

  /** The map from slots to the entries that have them. */
  ghost predicate SlotsOf(t: map<Slot, Entry>, entries: set<Entry>) {
    && (forall k :: k in t ==> t[k] in entries && t[k].slot == k)
    && (forall e :: e in entries ==> e.slot in t && t[e.slot] == e)
  }

  class LRUCache {
    var capacity: nat
    var totalUsage: int
    var usage: int
    const inUse: Entry  // dummy heads
    const lru: Entry
    const table: HashTable
    ghost var busy: seq<Entry>     // the entries on the list of inUse
    ghost var waiting: seq<Entry>  // the entries on the list of lru, the oldest first
    ghost var state: State<Entry>

    ghost function Nodes(): set<Entry>
      reads this`busy, this`waiting
    {
      {inUse, lru} + (set e | e in busy) + (set e | e in waiting)
    }

    ghost predicate Rings()
      reads this`busy, this`waiting, Nodes()`next, Nodes()`prev
    {
      && Ring(inUse, busy) && Ring(lru, waiting) && Distinct(busy) && Distinct(waiting) && inUse != lru
      && inUse !in busy && lru !in busy && inUse !in waiting && lru !in waiting
      && forall e :: e in busy ==> e !in waiting
    }

    /** The fields hold what a state says. */
    ghost predicate Tied(s: State<Entry>)
      reads this`capacity, this`totalUsage, this`usage, this`busy, this`waiting, Nodes()`refs, Nodes()`inCache
    {
      && s.capacity == capacity && s.total == totalUsage && s.usage == usage && s.idle == waiting
      && (forall e :: e in s.info ==>
            (e in busy || e in waiting) && s.info[e] == Info(e.slot, e.charge, e.refs, e.inCache))
      && (forall e :: e in busy ==> e in s.info) && (forall e :: e in waiting ==> e in s.info)
    }

    ghost predicate TableTied(t: map<Slot, Entry>)
      reads table
    {
      SlotsOf(t, table.Entries())
    }

    ghost predicate Valid()
      reads this, table, table.list, Nodes(), table.Entries()
    {
      Rings() && Tied(state) && TableTied(state.table) && table.Valid() && Agrees(state, {})
    }

    constructor (capacity: nat)
      ensures Valid() && state == Start<Entry>(capacity).s
      ensures fresh(table) && fresh(table.list) && fresh(Nodes())
    {
      this.capacity, totalUsage, usage := capacity, 0, 0;
      inUse := new Entry.Head();
      lru := new Entry.Head();
      table := new HashTable();
      busy, waiting := [], [];
      state := Empty<Entry>(capacity).s;
      new;
      EmptyIsGood<Entry>(capacity);
    }

    /** LRU_Remove. */
    method LRU_Remove(e: Entry)
      requires Rings() && (e in busy || e in waiting)
      modifies this`busy, this`waiting, Nodes()`next, Nodes()`prev
      ensures Rings() && busy == Drop(old(busy), e) && waiting == Drop(old(waiting), e)
    {
      hide Ring, Drop;
      DropAbsentIf(busy, e);
      DropAbsentIf(waiting, e);
      DropMember(busy, e);
      DropMember(waiting, e);
      ghost var head, list := if e in busy then inUse else lru, if e in busy then busy else waiting;
      ghost var k: nat :| k < |list| && list[k] == e;
      DropAt(list, k);
      Unjoin(e, head, list, k);
      busy, waiting := Drop(busy, e), Drop(waiting, e);
    }

    /** LRU_Append to one of the lists. */
    method LRU_Append(head: Entry, e: Entry)
      requires Rings() && e !in Nodes() && (head == inUse || head == lru)
      modifies this`busy, this`waiting, Nodes()`next, Nodes()`prev, e`next, e`prev
      ensures Rings()
      ensures busy == (if head == inUse then old(busy) + [e] else old(busy))
      ensures waiting == (if head == inUse then old(waiting) else old(waiting) + [e])
    {
      hide Ring;
      if head == inUse {
        JoinLast(e, head, busy);
        Snoc(busy, e);
        busy := busy + [e];
      } else {
        JoinLast(e, head, waiting);
        Snoc(waiting, e);
        waiting := waiting + [e];
      }
    }

    /** LRU_Remove and LRU_Append: the entry goes to the end of one of the lists. */
    method Move(head: Entry, e: Entry)
      requires Rings() && (e in busy || e in waiting) && (head == inUse || head == lru)
      modifies this`busy, this`waiting, Nodes()`next, Nodes()`prev
      ensures Rings()
      ensures busy == Drop(old(busy), e) + if head == inUse then [e] else []
      ensures waiting == Drop(old(waiting), e) + if head == inUse then [] else [e]
    {
      hide Ring, Drop, Distinct;
      DropMember(busy, e);
      DropMember(waiting, e);
      LRU_Remove(e);
      LRU_Append(head, e);
    }

    /** Withdraws a reference; the last one sends the entry to its deleter. */
    method Unref(e: Entry)
      requires Rings() && Tied(state) && e in state.info && e.refs > 0
      modifies this`totalUsage, this`busy, this`waiting, this`state, Nodes()`next, Nodes()`prev, e`refs
      ensures Rings() && Tied(state) && state == CacheModel.Unref(old(state), e)
      ensures Nodes() <= old(Nodes())
    {
      hide Rings, Tied, CacheModel.Unref, OneLess, Settled;
      TiedEntry(state, e);
      UnrefOf(state, e);
      ghost var s := Decrement(e);
      Settle(e, s);
      state := CacheModel.Unref(state, e);
    }

    method Settle(e: Entry, ghost s: State<Entry>)
      requires Rings() && Tied(s) && e in s.info
      modifies this`totalUsage, this`busy, this`waiting, Nodes()`next, Nodes()`prev
      ensures Rings() && Tied(Settled(s, e)) && Nodes() <= old(Nodes())
    {
      hide Rings, Drop, Tied;
      TiedEntry(s, e);
      if e.refs == 0 {
        Finish(e, s);
      } else if e.inCache && e.refs == 1 {
        // No longer in use
        Demote(e, s);
      }
    }

    method Decrement(e: Entry) returns (ghost s: State<Entry>)
      requires Tied(state) && e in state.info && e.refs > 0
      modifies e`refs
      ensures state.info[e].refs > 0 && s == OneLess(state, e) && Tied(s) && e in s.info
      ensures state.info[e] == Info(e.slot, e.charge, e.refs + 1, e.inCache)
    {
      s := OneLess(state, e);
      e.refs := e.refs - 1;
    }

    method Finish(e: Entry, ghost s: State<Entry>)
      requires Rings() && Tied(s) && e in s.info
      modifies this`totalUsage, this`busy, this`waiting, Nodes()`next, Nodes()`prev
      ensures Rings() && Nodes() <= old(Nodes())
      ensures Tied(s.(info := s.info - {e}, idle := Drop(s.idle, e), total := s.total - e.charge,
                      deleted := s.deleted + [e]))
    {
      hide Ring, Drop, Distinct, Rings, Tied;
      ListsDistinct();
      DropMember(busy, e);
      DropMember(waiting, e);
      TiedEntry(s, e);
      TiedParts(s);
      LRU_Remove(e);
      totalUsage := totalUsage - e.charge;
      TiedFrom(s.(info := s.info - {e}, idle := Drop(s.idle, e), total := s.total - e.charge,
                  deleted := s.deleted + [e]));
    }

    lemma TiedParts(s: State<Entry>)
      requires Tied(s)
      ensures s.capacity == capacity && s.total == totalUsage && s.usage == usage && s.idle == waiting
      ensures forall x :: x in s.info ==> x in busy || x in waiting
      ensures forall x :: x in s.info ==> s.info[x] == Info(x.slot, x.charge, x.refs, x.inCache)
      ensures (forall x :: x in busy ==> x in s.info) && forall x :: x in waiting ==> x in s.info
    {
    }

    lemma TiedFrom(s: State<Entry>)
      requires s.capacity == capacity && s.total == totalUsage && s.usage == usage && s.idle == waiting
      requires forall x :: x in s.info ==> x in busy || x in waiting
      requires forall x :: x in s.info ==> s.info[x] == Info(x.slot, x.charge, x.refs, x.inCache)
      requires (forall x :: x in busy ==> x in s.info) && forall x :: x in waiting ==> x in s.info
      ensures Tied(s)
    {
    }

    method Demote(e: Entry, ghost s: State<Entry>)
      requires Rings() && Tied(s) && e in s.info
      modifies this`busy, this`waiting, Nodes()`next, Nodes()`prev
      ensures Rings() && Tied(s.(idle := Drop(s.idle, e) + [e])) && Nodes() <= old(Nodes())
    {
      hide Ring, Drop, Distinct, Rings;
      ListsDistinct();
      DropMember(busy, e);
      DropMember(waiting, e);
      Move(lru, e);
    }

    lemma ListsDistinct()
      requires Rings()
      ensures Distinct(busy) && Distinct(waiting) && inUse != lru
    {
    }

    /** Takes the cache's reference from an entry that has left the table. */
    method Remove(e: Entry)
      requires Rings() && Tied(state) && e in state.info && e.refs > 0
      modifies this`totalUsage, this`usage, this`busy, this`waiting, this`state, Nodes()`next, Nodes()`prev, e`refs,
        e`inCache
      ensures Rings() && Tied(state) && Nodes() <= old(Nodes())
      ensures old(state.info[e].refs) > 0 && state == CacheModel.Remove(old(state), e)
    {
      hide Rings, Tied, CacheModel.Unref;
      TiedEntry(state, e);
      Unmark(e);
      Unref(e);
    }

    method Unmark(e: Entry)
      requires Tied(state) && e in state.info
      modifies this`usage, this`state, e`inCache
      ensures Tied(state)
      ensures state == old(state).(info := old(state.info)[e := old(state.info[e]).(inCache := false)],
                                   usage := old(state.usage) - e.charge)
    {
      e.inCache := false;
      usage := usage - e.charge;
      state := state.(info := state.info[e := state.info[e].(inCache := false)], usage := state.usage - e.charge);
    }

    /** What the table finds is what the state has for the key. */
    lemma TableFinds(entries: set<Entry>, slot: Slot, e: Entry?)
      requires TableTied(state.table) && entries == table.Entries() && Found(entries, slot, e)
      ensures if slot in state.table then e == state.table[slot] else e == null
    {
    }

    lemma EntriesAreNodes()
      requires Tied(state) && TableTied(state.table) && Agrees(state, {})
      ensures table.Entries() <= Nodes()
    {
    }

    /** Takes the entry with a key and hash out of the table. */
    method TakeFromTable(slot: Slot) returns (e: Entry?)
      requires TableTied(state.table) && table.Valid() && Tied(state)
      modifies this`state, table, table.list, table.Entries()`nextHash
      ensures TableTied(state.table) && table.Valid() && Tied(state) && table.list == old(table.list)
      ensures state == old(state).(table := old(state.table) - {slot})
      ensures e == if slot in old(state.table) then old(state.table[slot]) else null
    {
      hide Found, Without, Agrees, TableOf, OneEach, PowerOfTwo, HashTable.Valid, SlotsOf;
      ghost var s := state;
      e := table.Remove(slot);
      TableLoses(s.table, old(table.Entries()), slot, e);
      state := s.(table := s.table - {slot});
    }

    /** Takes the entry with a key and hash out of the table and removes it. */
    method EraseKey(slot: Slot) returns (e: Entry?)
      requires Valid()
      modifies this, table, table.list, Nodes()
      ensures Valid() && table.list == old(table.list) && Nodes() <= old(Nodes())
      ensures slot in old(state.table)
              ==> old(state.table[slot]) in old(state.info) && old(state.info[state.table[slot]].refs) > 0
      ensures state == CacheModel.Erase(old(state), slot)
      ensures e == if slot in old(state.table) then old(state.table[slot]) else null
    {
      hide Rings, Tied, Agrees, CacheModel.Remove, CacheModel.Erase, TableTied, TableOf, OneEach, PowerOfTwo,
        HashTable.Entries;
      EntriesAreNodes();
      EraseEffect(state, slot);
      e := TakeFromTable(slot);
      if e != null {
        TiedEntry(state, e);
        ghost var t := state.table;
        assert TableTied(t);
        Remove(e);
        assert state.table == t;
      }
    }

    lemma EraseEffect(s: State<Entry>, slot: Slot)
      requires Agrees(s, {})
      ensures slot in s.table ==> var e := s.table[slot]; e in s.info && s.info[e].refs > 0
      ensures Agrees(CacheModel.Erase(s, slot), {}) && CacheModel.Erase(s, slot).table == s.table - {slot}
      ensures CacheModel.Erase(s, slot) ==
              var t := s.(table := s.table - {slot});
              if slot in s.table then CacheModel.Remove(t, s.table[slot]) else t
    {
      hide Agrees, CacheModel.Remove;
      if slot in s.table {
        TableLive(s, slot);
        EraseIsDiscard(s, slot);
        DiscardKeeps(s, s.table[slot]);
      } else {
        assert s.table - {slot} == s.table;
      }
    }

    lemma TiedEntry(s: State<Entry>, e: Entry)
      requires Tied(s) && e in s.info
      ensures s.info[e] == Info(e.slot, e.charge, e.refs, e.inCache) && e in Nodes()
    {
    }

    lemma TableLoses(t: map<Slot, Entry>, entries: set<Entry>, slot: Slot, e: Entry?)
      requires SlotsOf(t, entries)
      requires Found(entries, slot, e) && table.Entries() == Without(entries, e)
      ensures TableTied(t - {slot}) && e == if slot in t then t[slot] else null
    {
    }

    method Erase(slot: Slot)
      requires Valid()
      modifies this, table, table.list, Nodes()
      ensures Valid() && table.list == old(table.list) && Nodes() <= old(Nodes())
      ensures slot in old(state.table)
              ==> old(state.table[slot]) in old(state.info) && old(state.info[state.table[slot]].refs) > 0
      ensures state == CacheModel.Erase(old(state), slot)
    {
      var e := EraseKey(slot);
    }

    /** Erases an entry itself; no effect unless it is in the cache. */
    method EraseEntry(e: Entry)
      requires Valid() && e in state.info
      modifies this, table, table.list, Nodes()
      ensures Valid() && table.list == old(table.list) && Nodes() <= old(Nodes())
      ensures old(state.info[e].refs) > 0 && state == CacheModel.EraseEntry(old(state), e)
    {
      hide Rings, Tied, Agrees, CacheModel.Remove, TableTied, TableOf, OneEach, PowerOfTwo, Drop, Discard,
        CacheModel.EraseEntry;
      ghost var s := state;
      EntriesAreNodes();
      LiveEntry(e);
      var r := TakeEntry(e);
      ErasedEntry(s, e);
      if r != null {
        DiscardKeeps(s, e);
        ghost var t := state.table;
        Remove(e);
        assert state.table == t;
      }
    }

    lemma ErasedEntry(s: State<Entry>, e: Entry)
      requires e in s.info && s.info[e].refs > 0 && s.info[e].slot == e.slot
      ensures CacheModel.EraseEntry(s, e) ==
              if e.slot in s.table && s.table[e.slot] == e
              then CacheModel.Remove(s.(table := s.table - {e.slot}), e) else s
      ensures Discard(s, e) == CacheModel.Remove(s.(table := s.table - {e.slot}), e)
    {
    }

    lemma LiveEntry(e: Entry)
      requires Agrees(state, {}) && Tied(state) && TableTied(state.table) && e in state.info
      ensures state.info[e].refs > 0 && e.refs > 0 && state.info[e].slot == e.slot && e in Nodes()
      ensures e in table.Entries() <==> e.slot in state.table && state.table[e.slot] == e
      ensures e in table.Entries() ==> state.info[e].inCache
    {
    }

    /** Takes this entry out of the table, if it is there. */
    method TakeEntry(e: Entry) returns (r: Entry?)
      requires TableTied(state.table) && table.Valid() && Tied(state)
      modifies this`state, table, table.list, table.Entries()`nextHash
      ensures TableTied(state.table) && table.Valid() && Tied(state) && table.list == old(table.list)
      ensures r == if e in old(table.Entries()) then e else null
      ensures state == if r == null then old(state) else old(state).(table := old(state.table) - {e.slot})
    {
      hide Agrees, TableOf, OneEach, PowerOfTwo, HashTable.Valid, SlotsOf;
      ghost var s := state;
      r := table.RemoveEntry(e);
      EntryLeaves(s.table, old(table.Entries()), e);
      if r != null {
        state := s.(table := s.table - {e.slot});
      }
    }

    lemma EntryLeaves(t: map<Slot, Entry>, entries: set<Entry>, e: Entry)
      requires SlotsOf(t, entries)
      requires table.Entries() == entries - {e}
      ensures TableTied(if e in entries then t - {e.slot} else t)
    {
    }

    /** Adds an external reference, taking an idle entry off its queue. */
    method Ref(e: Entry)
      requires Valid() && e in state.info
      modifies this, Nodes()
      ensures Valid() && state == CacheModel.Ref(old(state), e) && Nodes() == old(Nodes())
    {
      hide Rings, Tied, Agrees, TableTied, TableOf, OneEach, PowerOfTwo, Drop, CacheModel.Ref;
      RefKeeps(state, e);
      RefOf(state, e);
      TiedEntry(state, e);
      Refer(e);
    }

    method Refer(e: Entry)
      requires Rings() && Tied(state) && e in state.info
      modifies this`busy, this`waiting, this`state, Nodes()`next, Nodes()`prev, e`refs
      ensures Rings() && Tied(state) && state == CacheModel.Ref(old(state), e) && Nodes() == old(Nodes())
    {
      hide Rings, Tied, Drop, CacheModel.Ref;
      ghost var s := state;
      TiedEntry(s, e);
      RefOf(s, e);
      if e.refs == 1 && e.inCache {
        // If *e is on lru, move it to the in-use list
        Promote(e, s);
        s := s.(idle := Drop(s.idle, e));
      }
      Increment(e, s);
      state := CacheModel.Ref(state, e);
    }

    lemma RefOf(s: State<Entry>, e: Entry)
      requires e in s.info
      ensures var i := s.info[e];
              var t := if i.refs == 1 && i.inCache then s.(idle := Drop(s.idle, e)) else s;
              CacheModel.Ref(s, e) == t.(info := t.info[e := i.(refs := i.refs + 1)])
                && CacheModel.Ref(s, e).table == s.table
    {
    }

    method Increment(e: Entry, ghost s: State<Entry>)
      requires Tied(s) && e in s.info
      modifies e`refs
      ensures Tied(s.(info := s.info[e := s.info[e].(refs := s.info[e].refs + 1)]))
    {
      e.refs := e.refs + 1;
    }

    method Promote(e: Entry, ghost s: State<Entry>)
      requires Rings() && Tied(s) && e in s.info
      modifies this`busy, this`waiting, Nodes()`next, Nodes()`prev
      ensures Rings() && Tied(s.(idle := Drop(s.idle, e))) && Nodes() == old(Nodes())
    {
      hide Ring, Drop, Distinct, Rings;
      ListsDistinct();
      DropMember(busy, e);
      DropMember(waiting, e);
      Move(inUse, e);
    }

    /** Gives a client's reference back. */
    method Release(e: Entry)
      requires Valid() && e in state.info && e !in waiting
      modifies this, Nodes()
      ensures Valid() && old(state.info[e].refs) > 0 && state == CacheModel.Unref(old(state), e)
              && Nodes() <= old(Nodes())
    {
      hide Rings, Tied, Agrees, TableTied, TableOf, OneEach, PowerOfTwo, Drop, CacheModel.Unref;
      LiveEntry(e);
      WaitingIsIdle();
      UnrefKeeps(state, e);
      UnrefOf(state, e);
      Unref(e);
    }

    lemma WaitingIsIdle()
      requires Tied(state)
      ensures state.idle == waiting
    {
    }

    method Lookup(slot: Slot) returns (e: Entry?)
      requires Valid()
      modifies this, Nodes()
      ensures Valid() && Nodes() == old(Nodes())
      ensures slot in old(state.table) ==> old(state.table[slot]) in old(state.info)
      ensures state == CacheModel.Lookup(old(state), slot)
      ensures e == if slot in old(state.table) then old(state.table[slot]) else null
    {
      hide Rings, Tied, Agrees, TableTied, TableOf, OneEach, PowerOfTwo, Drop, CacheModel.Ref, Found;
      var b, prev;
      ghost var j;
      b, prev, e, j := table.FindPointer(slot);
      TableFinds(table.Entries(), slot, e);
      if e != null {
        TableLive(state, slot);
        Ref(e);
      }
    }

    lemma FirstWaiting()
      requires Rings()
      ensures lru.next == (if waiting == [] then lru else waiting[0]) && (waiting != [] ==> waiting[0] != lru)
    {
      assert Joined(At(lru, waiting, 0), At(lru, waiting, 1));
    }

    /** Discards the least recently used idle entry. */
    method EvictOldest(ghost limit: int)
      requires Valid() && waiting != [] && usage > limit
      modifies this, table, table.list, Nodes()
      ensures Valid() && table.list == old(table.list) && Nodes() <= old(Nodes())
      ensures Evict(state, limit) == Evict(old(state), limit) && capacity == old(capacity) && |waiting| < |old(waiting)|
    {
      hide Rings, Tied, Agrees, TableTied, TableOf, OneEach, PowerOfTwo, Drop, Discard, Found, HashTable.Valid,
        CacheModel.Erase;
      FirstWaiting();
      WaitingIsIdle();
      FrontIsCached(state);
      var a := lru.next;
      LiveEntry(a);
      CachedInTable(state, a);
      EvictStep(state, limit);
      EraseIsDiscard(state, a.slot);
      DiscardKeeps(state, a);
      UsageIs();
      var victim := EraseKey(a.slot);
      assert victim == a;
      WaitingIsIdle();
      UsageIs();
    }

    lemma CachedInTable(s: State<Entry>, e: Entry)
      requires Agrees(s, {}) && e in s.info && s.info[e].inCache
      ensures s.info[e].slot in s.table && s.table[s.info[e].slot] == e
    {
    }

    lemma UsageIs()
      requires Tied(state)
      ensures usage == state.usage && capacity == state.capacity && totalUsage == state.total
    {
    }

    lemma UsagePositive()
      requires Agrees(state, {})
      ensures state.usage >= 0
    {
      ChargesPositive(state.info, Cached(state.info));
    }

    /** Empties the idle queue. */
    method Prune()
      requires Valid()
      modifies this, table, table.list, Nodes()
      ensures Valid() && table.list == old(table.list) && Nodes() <= old(Nodes())
      ensures state == CacheModel.Prune(old(state))
    {
      hide Rings, Tied, Agrees, TableTied, TableOf, OneEach, PowerOfTwo, HashTable.Valid, Evict;
      FirstWaiting();
      while lru.next != lru
        invariant Valid() && table.list == old(table.list) && Nodes() <= old(Nodes())
        invariant Evict(state, NO_LIMIT) == Evict(old(state), NO_LIMIT)
        invariant lru.next == (if waiting == [] then lru else waiting[0]) && (waiting != [] ==> waiting[0] != lru)
        decreases |waiting|
      {
        UsageIs();
        UsagePositive();
        EvictOldest(NO_LIMIT);
        FirstWaiting();
      }
      WaitingIsIdle();
      EvictStep(state, NO_LIMIT);
    }

    /** Makes the new entry, on the in-use list. */
    method NewEntry(slot: Slot, charge: nat) returns (e: Entry)
      requires Valid()
      modifies this`busy, this`waiting, this`totalUsage, this`state, Nodes()`next, Nodes()`prev
      ensures Rings() && Tied(state) && TableTied(state.table) && table.Valid()
      ensures fresh(e) && Nodes() == old(Nodes()) + {e} && e.slot == slot && e.charge == charge && e.refs == 1
              && !e.inCache
      ensures state == old(state).(info := old(state.info)[e := Info(slot, charge, 1, false)],
                                   total := old(state.total) + charge)
    {
      hide Rings, Tied, TableTied, Agrees, TableOf, OneEach, PowerOfTwo;
      e := new Entry(slot, charge);
      OldInfo();
      AddNew(e);
    }

    /** Makes the new entry and, with caching on, puts it into the table. */
    method Enter(slot: Slot, charge: nat) returns (e: Entry, previous: Entry?)
      requires Valid()
      modifies this, table, table.list, Nodes()
      ensures Rings() && Tied(state) && TableTied(state.table) && table.Valid()
      ensures fresh(e) && (table.list == old(table.list) || fresh(table.list)) && Nodes() == old(Nodes()) + {e}
      ensures state == CacheModel.Enter(old(state), e, slot, charge) && e.slot == slot
      ensures previous == if capacity > 0 && slot in old(state.table) then old(state.table[slot]) else null
    {
      hide Rings, Tied, TableTied, Agrees, TableOf, OneEach, PowerOfTwo, CacheModel.Enter;
      EntriesAreNodes();
      UsageIs();
      ghost var s := state;
      e := NewEntry(slot, charge);
      previous := null;
      EnterSteps(s, e, slot, charge);
      if capacity != 0 {
        previous := Share(e);
      }
    }

    lemma EnterSteps(s: State<Entry>, e: Entry, slot: Slot, charge: nat)
      ensures var t := s.(info := s.info[e := Info(slot, charge, 1, false)], total := s.total + charge);
              CacheModel.Enter(s, e, slot, charge) ==
              if s.capacity == 0 then t
              else t.(info := t.info[e := Info(slot, charge, 2, true)], usage := t.usage + charge,
                      table := t.table[slot := e])
    {
      assert s.info[e := Info(slot, charge, 1, false)][e := Info(slot, charge, 2, true)]
             == s.info[e := Info(slot, charge, 2, true)];
    }

    lemma OldInfo()
      requires Tied(state)
      ensures forall e :: e in state.info ==> e in busy || e in waiting
    {
    }

    /** The cache takes a reference of its own. */
    method MarkCached(e: Entry)
      requires Tied(state) && e in state.info
      modifies this`usage, this`state, e`refs, e`inCache
      ensures Tied(state)
      ensures state == old(state).(info := old(state.info)[e := Info(e.slot, e.charge, old(e.refs) + 1, true)],
                                   usage := old(state.usage) + e.charge)
    {
      e.refs := e.refs + 1;
      e.inCache := true;
      usage := usage + e.charge;
      state := state.(info := state.info[e := Info(e.slot, e.charge, e.refs, true)], usage := state.usage + e.charge);
    }

    /** The cache takes its reference and puts the entry into the table. */
    method Share(e: Entry) returns (previous: Entry?)
      requires TableTied(state.table) && table.Valid() && Tied(state) && e !in table.Entries() && Rings()
               && e in state.info
      modifies this`usage, this`state, table, table.list, table.Entries()`nextHash, e`nextHash, e`refs, e`inCache
      ensures Rings() && TableTied(state.table) && table.Valid() && Tied(state)
              && (table.list == old(table.list) || fresh(table.list))
      ensures state == old(state).(info := old(state.info)[e := Info(e.slot, e.charge, old(e.refs) + 1, true)],
                                   usage := old(state.usage) + e.charge, table := old(state.table)[e.slot := e])
      ensures previous == if e.slot in old(state.table) then old(state.table[e.slot]) else null
    {
      hide Rings, Tied, TableTied, TableOf, OneEach, PowerOfTwo;
      MarkCached(e);
      assert Nodes() == old(Nodes());
      previous := PutInTable(e);
    }

    method PutInTable(e: Entry) returns (previous: Entry?)
      requires TableTied(state.table) && table.Valid() && Tied(state) && e !in table.Entries() && Rings()
      modifies this`state, table, table.list, table.Entries()`nextHash, e`nextHash
      ensures Rings() && TableTied(state.table) && table.Valid() && Tied(state)
              && (table.list == old(table.list) || fresh(table.list))
      ensures state == old(state).(table := old(state.table)[e.slot := e])
      ensures previous == if e.slot in old(state.table) then old(state.table[e.slot]) else null
    {
      hide TableOf, OneEach, PowerOfTwo, HashTable.Valid, Agrees, Rings, SlotsOf, Found, Without;
      ghost var s := state;
      label L:
      previous := table.Insert(e);
      assert Nodes() == old@L(Nodes());
      TableGains(s.table, old(table.Entries()), e, previous);
      state := s.(table := s.table[e.slot := e]);
    }

    lemma TableGains(t: map<Slot, Entry>, entries: set<Entry>, e: Entry, previous: Entry?)
      requires SlotsOf(t, entries) && e !in entries
      requires Found(entries, e.slot, previous) && table.Entries() == Without(entries, previous) + {e}
      ensures TableTied(t[e.slot := e]) && previous == if e.slot in t then t[e.slot] else null
    {
    }

    method AddNew(e: Entry)
      requires Rings() && Tied(state) && e !in Nodes() && e !in state.info
      modifies this`busy, this`waiting, this`totalUsage, this`state, Nodes()`next, Nodes()`prev, e
      ensures Rings() && Nodes() == old(Nodes()) + {e} && e.refs == 1 && !e.inCache
      ensures state == old(state).(info := old(state.info)[e := Info(e.slot, e.charge, 1, false)],
                                   total := old(state.total) + e.charge)
      ensures Tied(state)
    {
      hide Rings, Tied;
      e.inCache := false;
      e.refs := 1;
      AppendNew(e, state);
      state := state.(info := state.info[e := Info(e.slot, e.charge, 1, false)], total := state.total + e.charge);
    }

    method AppendNew(e: Entry, ghost s: State<Entry>)
      requires Rings() && Tied(s) && e !in Nodes() && e !in s.info && e.refs == 1 && !e.inCache
      modifies this`busy, this`waiting, this`totalUsage, Nodes()`next, Nodes()`prev, e`next, e`prev
      ensures Rings() && Nodes() == old(Nodes()) + {e}
      ensures Tied(s.(info := s.info[e := Info(e.slot, e.charge, 1, false)], total := s.total + e.charge))
    {
      hide Rings, Ring, Distinct;
      LRU_Append(inUse, e);
      totalUsage := totalUsage + e.charge;
    }

    /** Adds the entry and removes the one that had its key. */
    method Admit(slot: Slot, charge: nat) returns (e: Entry)
      requires Valid()
      modifies this, table, table.list, Nodes()
      ensures Valid() && fresh(e) && Nodes() <= old(Nodes()) + {e}
              && (table.list == old(table.list) || fresh(table.list))
      ensures e.slot == slot && e !in old(state.info) && e !in old(state.deleted)
      ensures slot in old(state.table)
              ==> old(state.table[slot]) in old(state.info) && old(state.info[state.table[slot]].refs) > 0
      ensures state == Replace(old(state), e, slot, charge)
    {
      hide Rings, Tied, TableTied, Agrees, TableOf, OneEach, PowerOfTwo, Discard, CacheModel.Remove;
      ghost var s := state;
      UsageIs();
      OldInfo();
      var previous;
      e, previous := Enter(slot, charge);
      UsageIs();
      if slot in s.table { TableLive(s, slot); }
      EnterKeeps(s, e, slot, charge);
      if previous != null {
        ghost var t := state.table;
        TiedEntry(state, previous);
        Remove(previous);
        RemoveKeepsTable(old(state), e, slot, charge);
        assert state.table == t;
      }
    }

    lemma RemoveKeepsTable(s: State<Entry>, e: Entry, slot: Slot, charge: nat)
      requires slot in s.table && s.table[slot] in s.info && s.info[s.table[slot]].refs > 0 && e !in s.info
      ensures Replace(s, e, slot, charge).table == CacheModel.Enter(s, e, slot, charge).table
    {
    }

    /** Adds an entry; makes room for it, and gives it up again if there is not enough. */
    method Insert(slot: Slot, charge: nat) returns (e: Entry)
      requires Valid() && usage <= capacity
      modifies this, table, table.list, Nodes()
      ensures Valid() && fresh(e) && Nodes() <= old(Nodes()) + {e}
              && (table.list == old(table.list) || fresh(table.list))
      ensures e !in old(state.info) && e !in old(state.deleted)
      ensures state == CacheModel.Insert(old(state), e, slot, charge)
      ensures usage <= capacity == old(capacity)
    {
      hide Rings, Tied, TableTied, Agrees, TableOf, OneEach, PowerOfTwo, Evict, Replace, CacheModel.Remove,
        CacheModel.Erase;
      ghost var s := state;
      UsageIs();
      e := Admit(slot, charge);
      EnterKeeps(s, e, slot, charge);
      UsageIs();
      if capacity == 0 {
        return;
      }
      ghost var s1 := state;
      FirstWaiting();
      while usage > capacity && lru.next != lru
        invariant Valid() && Nodes() <= old(Nodes()) + {e} && (table.list == old(table.list) || fresh(table.list))
        invariant Evict(state, s.capacity) == Evict(s1, s.capacity) && capacity == s.capacity
        invariant lru.next == (if waiting == [] then lru else waiting[0]) && (waiting != [] ==> waiting[0] != lru)
        decreases |waiting|
      {
        EvictOldest(s.capacity);
        FirstWaiting();
      }
      WaitingIsIdle();
      UsageIs();
      EvictStep(state, s.capacity);
      EvictKeeps(s1, s.capacity);
      EvictsOldest(s1, s.capacity);
      if usage > capacity {
        CachedInTable(state, e);
        EraseIsDiscard(state, slot);
        DiscardKeeps(state, e);
        var victim := EraseKey(slot);
        assert victim == e;
        UsageIs();
      }
    }
  }

  /** An entry that has just come in is found exactly if it fits beside the entries that clients hold. */
  method InsertThenLookup(cache: LRUCache, slot: Slot, charge: nat) returns (e: Entry, found: Entry?)
    requires cache.Valid() && cache.usage <= cache.capacity
    modifies cache, cache.table, cache.table.list, cache.Nodes()
    ensures cache.Valid() && fresh(e)
    ensures found == e <==> old(cache.capacity > 0 && charge + HeldCharges(cache.state, slot) <= cache.capacity)
  {
    hide LRUCache.Rings, LRUCache.Tied, LRUCache.TableTied, Agrees, HashTable.Valid, CacheModel.Insert, HeldCharges;
    ghost var s := cache.state;
    cache.UsageIs();
    e := cache.Insert(slot, charge);
    InsertOutcome(s, e, slot, charge);
    found := cache.Lookup(slot);
  }
}
