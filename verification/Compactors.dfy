/** The compactor of src/libdeltafs/parallel_compactor.cc: every rank sends each of its pairs to the rank
    that owns its key, then flushes all its senders, then waits for all of them. */
module Compactors {
  import opened Coding
  import opened ByteBits
  import opened PartitionBits
  import opened PartitionRouting
  import opened DirectoryIndexes
  import KvSenders
  import NumberTheory

  /** What the ranks agree on: how many they are, the hash of names and the choice of a directory's zeroth
      server. */
  datatype Layout = Layout(ranks: nat, hash: Bytes -> Hash, pick: Bytes -> nat)

  type Ranks = l: Layout | 1 <= l.ranks <= MAX_PARTITIONS witness Layout(1, _ => [0, 0], _ => 0)

  /** A key begins with the 16 bytes of its directory; the name behind them is not empty. */
  type Key = k: Bytes | |k| > 16 witness seq(17, _ => 0)
  type Row = p: Pair | |p.key| > 16 witness Pair(seq(17, _ => 0), [])

  /** The zeroth server of a directory is kept in 16 bits. */
  function Zeroth(l: Ranks, dir: Bytes): nat {
    l.pick(dir) % 65536
  }

  /** The rank that owns a key, by the full index of its directory. */
  ghost function Owner(l: Ranks, key: Key): (i: nat)
    ensures i < l.ranks
  {
    FullRadix(l.ranks);
    (Route(Below(l.ranks), ToRadix(l.ranks - 1), l.hash(key[16..])) + Zeroth(l, key[..16])) % l.ranks
  }

  lemma FullRadix(n: nat)
    requires 1 <= n <= MAX_PARTITIONS
    ensures ToRadix(n - 1) <= MAX_RADIX && RadixIs(Below(n), ToRadix(n - 1))
  {
    BelowMax(n - 1);
    forall i | i in Below(n) ensures ToRadix(i) <= ToRadix(n - 1) {
      RadixBound(n - 1, ToRadix(n - 1));
      RadixBound(i, ToRadix(n - 1));
    }
    assert n - 1 in Below(n);
  }

  lemma OwnerFrom(l: Ranks, key: Key, radix: nat)
    requires RadixIs(Below(l.ranks), radix) && radix <= MAX_RADIX
    ensures Owner(l, key) == (Route(Below(l.ranks), radix, l.hash(key[16..])) + Zeroth(l, key[..16])) % l.ranks
  {
    hide Below, RadixIs, Route, ToRadix;
    FullRadix(l.ranks);
    RadixIsUnique(Below(l.ranks), radix, ToRadix(l.ranks - 1));
  }

  /** The partition whose class holds the hash of the name decides: partitions are dealt out to the ranks one
      by one, beginning at the directory's zeroth server. */
  lemma OwnerMeans(l: Ranks, key: Key, p: nat)
    requires p < l.ranks
    ensures Owner(l, key) == (p + Zeroth(l, key[..16])) % l.ranks <==> Owns(Below(l.ranks), p, l.hash(key[16..]))
  {
    hide Route, ToRadix, Owns, WellFormed, RadixIs;
    FullRadix(l.ranks);
    FullIsWellFormed(l.ranks);
    var radix, h := ToRadix(l.ranks - 1), l.hash(key[16..]);
    RouteIffOwns(Below(l.ranks), radix, h, p);
    RouteIffOwns(Below(l.ranks), radix, h, Route(Below(l.ranks), radix, h));
    OwnersAreMembers(Below(l.ranks), Route(Below(l.ranks), radix, h), h);
    if Owner(l, key) == (p + Zeroth(l, key[..16])) % l.ranks {
      DealtOnce(p, Route(Below(l.ranks), radix, h), Zeroth(l, key[..16]), l.ranks);
    }
  }

  lemma OwnersAreMembers(s: set<nat>, i: nat, h: Hash)
    requires Owns(s, i, h)
    ensures i in s
  {
  }

  lemma FullIsWellFormed(n: nat)
    requires 1 <= n <= MAX_PARTITIONS
    ensures WellFormed(Below(n))
  {
    hide WellFormed;
    OneIsWellFormed();
    FullKeepsShape({0}, n);
    assert {0} + Below(n) == Below(n);
  }

  lemma OneIsWellFormed()
    ensures WellFormed({0})
  {
  }

  lemma DealtOnce(p: nat, q: nat, z: nat, n: nat)
    requires p < n && q < n && (p + z) % n == (q + z) % n
    ensures p == q
  {
    var a, b := (p + z) / n, (q + z) / n;
    assert p + z == n * a + (p + z) % n && q + z == n * b + (q + z) % n;
    assert p - q == n * (a - b);
    if a > b {
      NumberTheory.TimesMonotone(1, a - b, n);
    } else if a < b {
      NumberTheory.TimesMonotone(1, b - a, n);
    }
  }

  // ----- The calls of a rank

  /** A call on the sender for rank dest. */
  datatype Request = Request(dest: nat, step: KvSenders.Step)

  predicate IsCall(step: KvSenders.Step) {
    step.Send? || step.Flush? || step.WaitForAsyncOperations?
  }

  ghost predicate IsProgram(calls: seq<Request>, ranks: nat) {
    forall k :: 0 <= k < |calls| ==> calls[k].dest < ranks && IsCall(calls[k].step)
  }

  /** Sends, flushes and waits, in the order of the source. */
  ghost function Program(l: Ranks, source: seq<Row>): (calls: seq<Request>)
    ensures IsProgram(calls, l.ranks)
  {
    hide Owner;
    seq(|source|, k requires 0 <= k < |source| => Request(Owner(l, source[k].key), KvSenders.Send(source[k])))
    + seq(l.ranks, (i: nat) => Request(i, KvSenders.Flush))
    + seq(l.ranks, (i: nat) => Request(i, KvSenders.WaitForAsyncOperations))
  }

  /** The pairs whose keys rank i owns. */
  ghost function Owned(l: Ranks, ps: seq<Row>, i: nat): seq<Pair> {
    if ps == [] then []
    else Owned(l, ps[..|ps| - 1], i) + if Owner(l, ps[|ps| - 1].key) == i then [ps[|ps| - 1]] else []
  }

  lemma {:induction false} OwnedMembers(l: Ranks, ps: seq<Row>, i: nat, p: Row)
    ensures p in Owned(l, ps, i) <==> p in ps && Owner(l, p.key) == i
  {
    hide Owner;
    if ps != [] {
      OwnedMembers(l, ps[..|ps| - 1], i, p);
      assert ps == ps[..|ps| - 1] + [ps[|ps| - 1]];
    }
  }

  lemma {:induction false} OwnedAreRows(l: Ranks, ps: seq<Row>, i: nat, p: Pair)
    requires p in Owned(l, ps, i)
    ensures |p.key| > 16
  {
    hide Owner;
    if p !in Owned(l, ps[..|ps| - 1], i) {
      assert p == ps[|ps| - 1];
    } else {
      OwnedAreRows(l, ps[..|ps| - 1], i, p);
    }
  }

  method NewDir(ranks: nat, zeroth: nat) returns (dir: DirIndex)
    requires 1 <= ranks <= MAX_PARTITIONS && zeroth < 65536
    ensures fresh(dir) && fresh(dir.bitmap) && dir.Valid() && dir.nvs == ranks && dir.zeroth == zeroth
    ensures dir.Bits() == Below(ranks)
  {
    dir := new DirIndex(zeroth, ranks, false);
    dir.SetAll();
  }

  class Compactor {
    const layout: Ranks
    var dirs: map<Bytes, DirIndex>

    /** Every directory known has a full index. */
    ghost predicate Valid()
      reads this, dirs.Values, set d | d in dirs.Values :: d.bitmap
    {
      forall k :: k in dirs ==>
        && dirs[k].Valid() && dirs[k].nvs == layout.ranks && dirs[k].zeroth == Zeroth(layout, k)
        && dirs[k].Bits() == Below(layout.ranks)
    }

    constructor (layout: Ranks)
      ensures Valid() && this.layout == layout
    {
      this.layout, dirs := layout, map[];
    }

    /** The index of a directory, made and filled at the first call for it. */
    method FetchDir(key: Bytes) returns (dir: DirIndex)
      requires Valid()
      modifies this
      ensures Valid() && dirs == old(dirs)[key := dir]
      ensures key in old(dirs) ==> dir == old(dirs)[key]
      ensures dir.Valid() && dir.nvs == layout.ranks && dir.zeroth == Zeroth(layout, key)
      ensures dir.Bits() == Below(layout.ranks)
    {
      hide Below, WellFormed, RadixIs;
      if key in dirs {
        dir := dirs[key];
        assert dirs == dirs[key := dir];
      } else {
        dir := NewDir(layout.ranks, Zeroth(layout, key));
        dirs := dirs[key := dir];
      }
    }

    /** The server that the index of the directory names for a key. */
    method SelectServer(dir: DirIndex, key: Key) returns (i: nat)
      requires dir.Valid() && dir.nvs == layout.ranks && dir.zeroth == Zeroth(layout, key[..16])
      requires dir.Bits() == Below(layout.ranks)
      ensures i == Owner(layout, key)
    {
      hide Below, WellFormed, RadixIs, Route, ToRadix, Owner, Owns;
      var p := dir.HashToIndex(layout.hash(key[16..]));
      OwnerFrom(layout, key, dir.radix);
      i := (p + dir.zeroth) % layout.ranks;
    }

    /** The calls that a rank makes for its pairs, when none of them fails. */
    method MapReduce(source: seq<Row>) returns (calls: seq<Request>)
      requires Valid()
      modifies this
      ensures Valid() && calls == Program(layout, source)
    {
      hide Owner, Below, Valid;
      calls := [];
      var k := 0;
      while k < |source|
        invariant 0 <= k <= |source| && Valid() && |calls| == k
        invariant forall j :: 0 <= j < k ==>
                  calls[j] == Request(Owner(layout, source[j].key), KvSenders.Send(source[j]))
      {
        var dir := FetchDir(source[k].key[..16]);
        var i := SelectServer(dir, source[k].key);
        calls := calls + [Request(i, KvSenders.Send(source[k]))];
        k := k + 1;
      }
      var i := 0;
      ghost var sends := calls;
      while i < layout.ranks
        invariant 0 <= i <= layout.ranks && calls == sends + seq(i, (j: nat) => Request(j, KvSenders.Flush))
      {
        calls := calls + [Request(i, KvSenders.Flush)];
        i := i + 1;
      }
      ghost var flushes := calls;
      i := 0;
      while i < layout.ranks
        invariant 0 <= i <= layout.ranks
        invariant calls == flushes + seq(i, (j: nat) => Request(j, KvSenders.WaitForAsyncOperations))
      {
        calls := calls + [Request(i, KvSenders.WaitForAsyncOperations)];
        i := i + 1;
      }
    }
  }

  // ----- Destination databases

  /** The database after these puts. */
  function PutAll(log: seq<Pair>): map<Bytes, Bytes> {
    if log == [] then map[] else PutAll(log[..|log| - 1])[log[|log| - 1].key := log[|log| - 1].value]
  }

  ghost predicate OnePerKey(ps: iset<Pair>) {
    forall p, q :: p in ps && q in ps && p.key == q.key ==> p == q
  }

  lemma {:induction false} PutAllHolds(log: seq<Pair>, p: Pair)
    requires OnePerKey(iset q | q in log)
    ensures p.key in PutAll(log) && PutAll(log)[p.key] == p.value <==> p in log
    ensures p.key in PutAll(log) ==> exists q :: q in log && q.key == p.key
  {
    if log != [] {
      var front, last := log[..|log| - 1], log[|log| - 1];
      assert log == front + [last];
      PutAllHolds(front, p);
      assert last in log;
    }
  }
}
