/** AcquireDir, Release and DeleteDir of src/libdeltafs/fs.cc: directory control blocks in an LRU cache and in
    a table of all that are alive. Blocks are the entries of the cache; the deleter takes one out of the
    table. */
module DirTables {
  import opened CacheModel

  /** The cache, and the table of blocks by directory key. */
  datatype Dirs<I(==)> = Dirs(cache: World<I>, table: map<Slot, I>)

  /** AcquireDir(slot) with a fresh block at hand, or Release of a block its holder got. */
  datatype Call<I> = Acquire(slot: Slot, spare: I) | Release(e: I)

  ghost predicate Legal<I>(d: Dirs<I>, c: Call<I>) {
    match c
    case Acquire(_, spare) => spare !in d.cache.born
    case Release(e) => e in d.cache.held
  }

  /** The blocks whose deleter has not run: each deleter call takes its block out. */
  ghost function WithoutDeleted<I>(table: map<Slot, I>, s: State<I>): map<Slot, I> {
    map k | k in table && table[k] !in s.deleted :: table[k]
  }

  /** What AcquireDir asks of the cache: a lookup; on a miss a reference to the block in the table; and on a
      miss there an insert of a new block, which has gone into the table first. */
  ghost function CacheOp<I>(d: Dirs<I>, c: Call<I>): Op<I> {
    match c
    case Acquire(slot, spare) =>
      if slot in d.cache.s.table then LookupOp(slot)
      else if slot in d.table then RefOp(d.table[slot])
      else InsertOp(spare, slot, 1)
    case Release(e) => ReleaseOp(e)
  }

  ghost function Apply<I>(d: Dirs<I>, c: Call<I>): Dirs<I>
    requires Good(d.cache) && CacheModel.Legal(d.cache, CacheOp(d, c))
  {
    var op := CacheOp(d, c);
    var table := if op.InsertOp? then d.table[c.slot := c.spare] else d.table;
    var cache := Step(d.cache, op);
    Dirs(cache, WithoutDeleted(table, cache.s))
  }

  /** The block AcquireDir returns. */
  ghost function Result<I>(d: Dirs<I>, slot: Slot, spare: I): I {
    if slot in d.cache.s.table then d.cache.s.table[slot]
    else if slot in d.table then d.table[slot]
    else spare
  }

  /** The table holds exactly the live blocks, each under its key; so a key has one live block at most. */
  ghost predicate Inv<I>(d: Dirs<I>) {
    && Good(d.cache)
    && (forall k :: k in d.table ==> d.table[k] in d.cache.s.info && d.cache.s.info[d.table[k]].slot == k)
    && (forall e :: e in d.cache.s.info ==> d.cache.s.info[e].slot in d.table && d.table[d.cache.s.info[e].slot] == e)
  }

  lemma IsLegal<I>(d: Dirs<I>, c: Call<I>)
    requires Inv(d) && Legal(d, c)
    ensures CacheModel.Legal(d.cache, CacheOp(d, c))
  {
  }

  /** A cache operation makes no entry but the inserted one, and changes no entry's key or charge. */
  ghost predicate SameKeys<I>(s: State<I>, t: State<I>, op: Op<I>) {
    forall e :: e in t.info ==>
      if op.InsertOp? && e == op.e then t.info[e].slot == op.slot && t.info[e].charge == op.charge
      else e in s.info && t.info[e].slot == s.info[e].slot && t.info[e].charge == s.info[e].charge
  }

  lemma StepSameKeys<I>(w: World<I>, op: Op<I>)
    requires Good(w) && CacheModel.Legal(w, op)
    ensures SameKeys(w.s, Step(w, op).s, op)
  {
    hide Agrees, Owned, Evict, Insert, Discard, Ref, Unref, SameKeys;
    match op
    case InsertOp(e, slot, charge) => InsertSameKeys(w, e, slot, charge);
    case LookupOp(slot) =>
      if slot in w.s.table { TableLive(w.s, slot); RefSameKeys(w.s, w.s.table[slot], op); } else { NoChange(w.s, op); }
    case RefOp(e) => RefSameKeys(w.s, e, op);
    case ReleaseOp(e) => HeldCounts(w, e); UnrefSameKeys(w.s, e, op);
    case EraseOp(slot) =>
      if slot in w.s.table {
        EraseIsDiscard(w.s, slot);
        DiscardSameKeys(w.s, w.s.table[slot], op);
      } else { NoChange(w.s, op); }
    case EraseEntryOp(e) =>
      LiveCounts(w, e);
      var slot := w.s.info[e].slot;
      if slot in w.s.table && w.s.table[slot] == e { DiscardSameKeys(w.s, e, op); } else { NoChange(w.s, op); }
    case PruneOp => PruneSameKeys(w.s);
  }

  lemma NoChange<I>(s: State<I>, op: Op<I>)
    requires !op.InsertOp?
    ensures SameKeys(s, s, op)
  {
  }

  lemma RefSameKeys<I>(s: State<I>, e: I, op: Op<I>)
    requires e in s.info && !op.InsertOp?
    ensures SameKeys(s, Ref(s, e), op)
  {
  }

  lemma UnrefSameKeys<I>(s: State<I>, e: I, op: Op<I>)
    requires e in s.info && s.info[e].refs > 0 && !op.InsertOp?
    ensures SameKeys(s, Unref(s, e), op)
  {
  }

  lemma DiscardSameKeys<I>(s: State<I>, e: I, op: Op<I>)
    requires e in s.info && s.info[e].refs > 0 && !op.InsertOp?
    ensures SameKeys(s, Discard(s, e), op)
  {
  }

  lemma PruneSameKeys<I>(s: State<I>)
    requires Agrees(s, {})
    ensures SameKeys(s, Prune(s), PruneOp)
  {
    hide Agrees, Evict;
    EvictsOldest(s, NO_LIMIT);
  }

  lemma HeldCounts<I>(w: World<I>, e: I)
    requires Good(w) && e in w.held
    ensures e in w.s.info && w.s.info[e].refs > 0
  {
  }

  lemma LiveCounts<I>(w: World<I>, e: I)
    requires Good(w) && e in w.s.info
    ensures w.s.info[e].refs > 0
  {
  }

  lemma InsertSameKeys<I>(w: World<I>, e: I, slot: Slot, charge: nat)
    requires Good(w) && e !in w.born
    ensures e !in w.s.info && e !in w.s.deleted
            && SameKeys(w.s, Insert(w.s, e, slot, charge), InsertOp(e, slot, charge))
  {
    hide Agrees, Owned, Discard;
    NotBorn(w, e);
    if slot in w.s.table { TableLive(w.s, slot); }
    EnterKeeps(w.s, e, slot, charge);
    var s1 := Replace(w.s, e, slot, charge);
    assert SameKeys(w.s, s1, InsertOp(e, slot, charge));
    if w.s.capacity > 0 {
      EvictKeeps(s1, w.s.capacity);
      EvictsOldest(s1, w.s.capacity);
      var s2 := Evict(s1, w.s.capacity);
      if s2.usage > w.s.capacity { DiscardKeeps(s2, e); }
    }
  }

  lemma CallKeeps<I>(d: Dirs<I>, c: Call<I>)
    requires Inv(d) && Legal(d, c)
    ensures CacheModel.Legal(d.cache, CacheOp(d, c)) && Inv(Apply(d, c))
  {
    hide Agrees, Owned, Step;
    IsLegal(d, c);
    var op := CacheOp(d, c);
    StepKeeps(d.cache, op);
    StepSameKeys(d.cache, op);
    var t := Apply(d, c);
    LiveOrDeleted(d.cache, op);
    forall k | k in t.table ensures t.table[k] in t.cache.s.info && t.cache.s.info[t.table[k]].slot == k {
      var e := t.table[k];
      if op.InsertOp? { NotBorn(d.cache, op.e); }
      assert !(op.InsertOp? && e == op.e) ==> e in d.cache.s.info;
    }
    forall e | e in t.cache.s.info
      ensures t.cache.s.info[e].slot in t.table && t.table[t.cache.s.info[e].slot] == e
    {
      NotDeleted(t.cache, e);
    }
  }

  /** What was live, or has come in, is live or deleted. */
  lemma LiveOrDeleted<I>(w: World<I>, op: Op<I>)
    requires Good(w) && CacheModel.Legal(w, op) && Good(Step(w, op))
    ensures forall e :: e in w.s.info ==> e in Step(w, op).s.info || e in Step(w, op).s.deleted
    ensures op.InsertOp? ==> op.e in Step(w, op).s.info || op.e in Step(w, op).s.deleted
  {
    hide Agrees, Insert, Lookup, Ref, Unref, Erase, EraseEntry, Prune;
    var t := Step(w, op);
    forall e | e in w.s.info ensures e in t.s.info || e in t.s.deleted { assert e in w.born && e in t.born; }
    if op.InsertOp? { assert op.e in t.born; }
  }

  lemma NotDeleted<I>(w: World<I>, e: I)
    requires Good(w) && e in w.s.info
    ensures e !in w.s.deleted
  {
  }

  /** AcquireDir returns the block of the directory: the one there was, or else the new one; its caller
      holds it, and it is the only one alive for that key. */
  lemma AcquireGives<I>(d: Dirs<I>, slot: Slot, spare: I)
    requires Inv(d) && Legal(d, Acquire(slot, spare))
    ensures CacheModel.Legal(d.cache, CacheOp(d, Acquire(slot, spare)))
    ensures var t, e := Apply(d, Acquire(slot, spare)), Result(d, slot, spare);
            && Inv(t) && e in t.cache.s.info && t.cache.s.info[e].slot == slot && t.cache.held[e] == d.cache.held[e] + 1
            && (slot in d.table ==> e == d.table[slot])
            && forall x :: x in t.cache.s.info && t.cache.s.info[x].slot == slot ==> x == e
  {
    var c := Acquire(slot, spare);
    CallKeeps(d, c);
    HeldIsLive(Apply(d, c).cache, Result(d, slot, spare));
    Acquired(d, slot, spare);
  }

  lemma HeldIsLive<I>(w: World<I>, e: I)
    requires Good(w)
    ensures w.held[e] > 0 ==> e in w.s.info
  {
  }

  lemma Acquired<I>(d: Dirs<I>, slot: Slot, spare: I)
    requires Inv(d) && Legal(d, Acquire(slot, spare)) && CacheModel.Legal(d.cache, CacheOp(d, Acquire(slot, spare)))
    requires Good(Step(d.cache, CacheOp(d, Acquire(slot, spare))))
    ensures var t, e := Apply(d, Acquire(slot, spare)), Result(d, slot, spare);
            t.cache.held[e] == d.cache.held[e] + 1 && (slot in d.table ==> e == d.table[slot])
    ensures var t, e := Apply(d, Acquire(slot, spare)), Result(d, slot, spare);
            e in t.cache.s.info && t.cache.s.info[e].slot == slot
  {
    hide Charges, Cached, Distinct, LogAgrees, Drop, Evict, Insert, Discard, Ref;
    var op := CacheOp(d, Acquire(slot, spare));
    StepSameKeys(d.cache, op);
    if slot in d.cache.s.table { TableLive(d.cache.s, slot); }
    HeldIsLive(Step(d.cache, op), Result(d, slot, spare));
  }

  // ----- Runs

  ghost function Start<I>(capacity: nat): (d: Dirs<I>)
    ensures Inv(d)
  {
    Dirs(CacheModel.Start(capacity), map[])
  }

  ghost function Do<I>(d: Dirs<I>, c: Call<I>): (t: Dirs<I>)
    requires Inv(d) && Legal(d, c)
    ensures Inv(t)
  {
    CallKeeps(d, c);
    Apply(d, c)
  }

  ghost predicate LegalCalls<I>(d: Dirs<I>, calls: seq<Call<I>>)
    requires Inv(d)
    decreases |calls|
  {
    calls == [] || (Legal(d, calls[0]) && LegalCalls(Do(d, calls[0]), calls[1..]))
  }

  ghost function RunCalls<I>(d: Dirs<I>, calls: seq<Call<I>>): (t: Dirs<I>)
    requires Inv(d) && LegalCalls(d, calls)
    ensures Inv(t)
    decreases |calls|
  {
    if calls == [] then d else RunCalls(Do(d, calls[0]), calls[1..])
  }

  /** Over any calls, and whatever the cache evicts in between: a directory has at most one live block, and
      the table finds it. */
  lemma OneBlockPerDirectory<I>(capacity: nat, calls: seq<Call<I>>, a: I, b: I)
    requires LegalCalls(Start<I>(capacity), calls)
    requires a in RunCalls(Start<I>(capacity), calls).cache.s.info
             && b in RunCalls(Start<I>(capacity), calls).cache.s.info
    ensures var d := RunCalls(Start<I>(capacity), calls); var slot := d.cache.s.info[a].slot;
            && slot in d.table && d.table[slot] == a
            && (d.cache.s.info[b].slot == slot ==> a == b)
  {
    hide LegalCalls, RunCalls, Good;
  }

  // ----- How many blocks there are

  ghost predicate ChargeOne<I>(s: State<I>) {
    forall e :: e in s.info ==> s.info[e].charge == 1
  }

  lemma CallKeepsCharges<I>(d: Dirs<I>, c: Call<I>)
    requires Inv(d) && Legal(d, c) && ChargeOne(d.cache.s)
    ensures ChargeOne(Do(d, c).cache.s)
  {
    hide Agrees, Owned, Step;
    IsLegal(d, c);
    StepSameKeys(d.cache, CacheOp(d, c));
  }

  lemma {:induction false} ChargesCount<I>(info: map<I, Info>, s: set<I>)
    requires s <= info.Keys && forall e :: e in s ==> info[e].charge == 1
    ensures Charges(info, s) == |s|
  {
    if s != {} {
      var e :| e in s;
      ChargesWithout(info, s, e);
      ChargesCount(info, s - {e});
    }
  }

  lemma {:induction false} RunKeepsCharges<I>(d: Dirs<I>, calls: seq<Call<I>>)
    requires Inv(d) && ChargeOne(d.cache.s) && LegalCalls(d, calls)
    ensures ChargeOne(RunCalls(d, calls).cache.s) && RunCalls(d, calls).cache.s.capacity == d.cache.s.capacity
    decreases |calls|
  {
    hide Inv, Legal, Do, ChargeOne;
    if calls != [] {
      CallKeepsCharges(d, calls[0]);
      SameCapacity(d, calls[0]);
      RunKeepsCharges(Do(d, calls[0]), calls[1..]);
    }
  }

  lemma SameCapacity<I>(d: Dirs<I>, c: Call<I>)
    requires Inv(d) && Legal(d, c)
    ensures Do(d, c).cache.s.capacity == d.cache.s.capacity
  {
    hide Agrees, Owned;
    IsLegal(d, c);
    StepKeeps(d.cache, CacheOp(d, c));
  }

  /** Over any calls: the blocks alive are those that callers hold, and beside them no more idle ones than the
      capacity of the cache. */
  lemma FewBlocks<I>(capacity: nat, calls: seq<Call<I>>)
    requires LegalCalls(Start<I>(capacity), calls)
    ensures var w := RunCalls(Start<I>(capacity), calls).cache;
            && |Cached(w.s.info)| <= capacity
            && forall e :: e in w.s.info <==> w.held[e] > 0 || e in Cached(w.s.info)
  {
    hide LegalCalls, RunCalls, TableAgrees, LogAgrees;
    RunKeepsCharges(Start<I>(capacity), calls);
    var w := RunCalls(Start<I>(capacity), calls).cache;
    ChargesCount(w.s.info, Cached(w.s.info));
    forall e ensures e in w.s.info <==> w.held[e] > 0 || e in Cached(w.s.info) { ReferencedIsLive(w, e); }
  }
}
