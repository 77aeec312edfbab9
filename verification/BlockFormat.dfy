/** Prefix-compressed blocks: what external/pdlfs-common/src/leveldb/block_builder.cc writes. */
module BlockFormat {
  import opened Coding
  import opened Sequences
  import NumberTheory

  // ----- The layout

  function CommonPrefix(a: Bytes, b: Bytes): (n: nat)
    ensures n <= |a| && n <= |b| && a[..n] == b[..n]
    ensures n < |a| && n < |b| ==> a[n] != b[n]
  {
    if a == [] || b == [] || a[0] != b[0] then 0
    else
      var n := CommonPrefix(a[1..], b[1..]);
      assert a[..n + 1] == [a[0]] + a[1..][..n] && b[..n + 1] == [b[0]] + b[1..][..n];
      n + 1
  }

  /** A restart interval below one counts as one. */
  function Interval(restartInterval: int): (n: nat)
    ensures n > 0
  {
    if restartInterval < 1 then 1 else restartInterval
  }

  /** The key bytes entry i leaves out: none at a restart point, every interval entries. */
  function Shared(ps: seq<Pair>, interval: nat, i: nat): (n: nat)
    requires interval > 0 && i < |ps|
    ensures n <= |ps[i].key| && (i > 0 ==> n <= |ps[i - 1].key| && ps[i - 1].key[..n] == ps[i].key[..n])
            && (i == 0 ==> n == 0)
  {
    if i % interval == 0 then 0 else CommonPrefix(ps[i - 1].key, ps[i].key)
  }

  function EntryBytes(shared: nat, p: Pair): (b: Bytes)
    requires shared <= |p.key|
    ensures |b| >= 3
  {
    Varint(shared) + (Varint(|p.key| - shared) + (Varint(|p.value|) + (p.key[shared..] + p.value)))
  }

  /** The first n entries. */
  function Data(ps: seq<Pair>, interval: nat, n: nat): Bytes
    requires interval > 0 && n <= |ps|
  {
    if n == 0 then [] else Data(ps, interval, n - 1) + EntryBytes(Shared(ps, interval, n - 1), ps[n - 1])
  }

  function Offset(ps: seq<Pair>, interval: nat, i: nat): nat
    requires interval > 0 && i <= |ps|
  {
    |Data(ps, interval, i)|
  }

  /** Restart points: the first entry, and then every interval entries; one even without entries. */
  function RestartCount(n: nat, interval: nat): (c: nat)
    requires interval > 0
    ensures c > 0
  {
    if n == 0 then 1 else (n - 1) / interval + 1
  }

  lemma RestartInRange(n: nat, interval: nat, j: nat)
    requires interval > 0 && j < RestartCount(n, interval)
    ensures j * interval <= n && (n > 0 ==> j * interval < n)
  {
    if n > 0 {
      var q := (n - 1) / interval;
      assert q * interval <= n - 1;
      NumberTheory.TimesMonotone(j, q, interval);
    }
  }

  function RestartOffset(ps: seq<Pair>, interval: nat, j: nat): nat
    requires interval > 0 && j < RestartCount(|ps|, interval)
  {
    RestartInRange(|ps|, interval, j);
    Offset(ps, interval, j * interval)
  }

  function Fixed32s(vs: seq<nat>): Bytes
    requires forall i :: 0 <= i < |vs| ==> vs[i] < WORD32
  {
    if vs == [] then [] else Fixed32s(vs[..|vs| - 1]) + Fixed32(vs[|vs| - 1])
  }

  lemma {:induction false} Fixed32At(vs: seq<nat>, j: nat)
    requires (forall i :: 0 <= i < |vs| ==> vs[i] < WORD32) && j < |vs|
    ensures |Fixed32s(vs)| == 4 * |vs| && Holds(Fixed32s(vs), 4 * j, Fixed32(vs[j]))
  {
    hide Holds, Fixed32;
    var last := |vs| - 1;
    Fixed32Length(vs[..last]);
    if j < last {
      Fixed32At(vs[..last], j);
      HoldsLonger(Fixed32s(vs[..last]), Fixed32(vs[last]), 4 * j, Fixed32(vs[j]));
    } else {
      HoldsSuffix(Fixed32s(vs[..last]), Fixed32(vs[last]));
    }
  }

  lemma {:induction false} Fixed32Length(vs: seq<nat>)
    requires forall i :: 0 <= i < |vs| ==> vs[i] < WORD32
    ensures |Fixed32s(vs)| == 4 * |vs|
  {
    if vs != [] { Fixed32Length(vs[..|vs| - 1]); }
  }

  /** A finished block: the entries, the offsets of the restart points, and how many these are. */
  ghost predicate IsBlock(block: Bytes, ps: seq<Pair>, interval: nat) {
    && interval > 0 && Offset(ps, interval, |ps|) < WORD32 && RestartCount(|ps|, interval) < WORD32
    && (forall j: nat :: j < RestartCount(|ps|, interval) ==> RestartOffset(ps, interval, j) < WORD32)
    && block == Data(ps, interval, |ps|) + Fixed32s(Restarts(ps, interval)) + Fixed32(RestartCount(|ps|, interval))
  }

  function Restarts(ps: seq<Pair>, interval: nat): (rs: seq<nat>)
    requires interval > 0
    ensures |rs| == RestartCount(|ps|, interval)
    ensures forall j: nat :: j < |rs| ==> rs[j] == RestartOffset(ps, interval, j)
  {
    seq(RestartCount(|ps|, interval),
        j requires 0 <= j < RestartCount(|ps|, interval) => RestartOffset(ps, interval, j))
  }

  // ----- How the data grows

  lemma {:induction false} DataPrefix(ps: seq<Pair>, interval: nat, i: nat, n: nat)
    requires interval > 0 && i <= n <= |ps|
    ensures Data(ps, interval, i) <= Data(ps, interval, n)
    ensures Offset(ps, interval, n) >= Offset(ps, interval, i) + 3 * (n - i)
    decreases n
  {
    hide EntryBytes, Shared;
    if i < n { DataPrefix(ps, interval, i, n - 1); }
  }

  /** Entry i is written at its offset. */
  lemma EntryAt(ps: seq<Pair>, interval: nat, i: nat)
    requires interval > 0 && i < |ps|
    ensures Holds(Data(ps, interval, |ps|), Offset(ps, interval, i), EntryBytes(Shared(ps, interval, i), ps[i]))
    ensures Offset(ps, interval, i + 1) == Offset(ps, interval, i) + |EntryBytes(Shared(ps, interval, i), ps[i])|
    ensures Offset(ps, interval, i + 1) <= Offset(ps, interval, |ps|)
  {
    hide EntryBytes;
    DataPrefix(ps, interval, i + 1, |ps|);
    var all := Data(ps, interval, |ps|);
    var entry := EntryBytes(Shared(ps, interval, i), ps[i]);
    assert all[..Offset(ps, interval, i + 1)] == Data(ps, interval, i) + entry;
    assert all[Offset(ps, interval, i)..Offset(ps, interval, i + 1)]
           == all[..Offset(ps, interval, i + 1)][Offset(ps, interval, i)..];
  }

  lemma {:induction false} DataFrame(ps: seq<Pair>, p: Pair, interval: nat, n: nat)
    requires interval > 0 && n <= |ps|
    ensures Data(ps + [p], interval, n) == Data(ps, interval, n)
  {
    hide EntryBytes;
    if n > 0 {
      DataFrame(ps, p, interval, n - 1);
      assert Shared(ps + [p], interval, n - 1) == Shared(ps, interval, n - 1);
    }
  }

  // ----- The builder

  class BlockBuilder {
    const interval: nat
    var buffer: Bytes
    var restarts: seq<nat>
    var counter: nat
    var lastKey: Bytes
    var finished: bool
    ghost var added: seq<Pair>

    ghost predicate Valid()
      reads this
    {
      && interval > 0 && |restarts| > 0 && counter <= interval
      && (|restarts| - 1) * interval + counter == |added| && (added != [] ==> counter > 0)
      && lastKey == (if added == [] then [] else added[|added| - 1].key)
      && |buffer| < WORD32
      && !finished && buffer == Data(added, interval, |added|) && restarts == Restarts(added, interval)
    }

    constructor (restartInterval: int)
      ensures Valid() && added == [] && buffer == [] && interval == Interval(restartInterval)
    {
      interval := Interval(restartInterval);
      buffer, counter, lastKey, finished, added := [], 0, [], false, [];
      restarts := [0];
      new;
      assert Restarts([], interval) == [0];
    }

    /** Adds an entry. The source also asserts, when it has a comparator, that keys do not decrease. */
    method Add(key: Bytes, value: Bytes)
      requires Valid() && |buffer| + 15 + |key| + |value| < WORD32
      modifies this
      ensures Valid() && added == old(added) + [Pair(key, value)] && |buffer| <= old(|buffer|) + 15 + |key| + |value|
    {
      hide EntryBytes, Data, RestartCount, Restarts, Shared, CommonPrefix;
      ghost var p := Pair(key, value);
      var shared := StartEntry(key, p);
      WriteEntry(shared, key, value);
      DataSnoc(added, p, interval);
      assert lastKey[..shared] + key[shared..] == key;
      lastKey := lastKey[..shared] + key[shared..];
      counter := counter + 1;
      added := added + [p];
      NextInterval(|restarts|, interval);
    }

    /** How much of the key the next entry shares with the last one; a full interval starts a new one. */
    method StartEntry(key: Bytes, ghost p: Pair) returns (shared: nat)
      requires Valid() && p.key == key
      modifies this`restarts, this`counter
      ensures |restarts| > 0 && counter < interval && (|restarts| - 1) * interval + counter == |added|
      ensures restarts == Restarts(added + [p], interval)
      ensures shared == Shared(added + [p], interval, |added|) <= |key| && shared <= |lastKey|
              && lastKey[..shared] == key[..shared]
    {
      hide EntryBytes, Data, RestartCount, Restarts, Shared;
      NextRestart(added, p, interval, |restarts|, counter);
      shared := 0;
      if counter < interval {
        shared := SharePrefix(lastKey, key);
        ShareIs(added, p, interval, |restarts|, counter);
      } else {
        ShareNone(added, p, interval, |restarts|);
        NextInterval(|restarts|, interval);
        restarts := restarts + [|buffer|];
        counter := 0;
      }
    }

    method WriteEntry(shared: nat, key: Bytes, value: Bytes)
      requires shared <= |key| < WORD32 && |value| < WORD32
      modifies this`buffer
      ensures buffer == old(buffer) + EntryBytes(shared, Pair(key, value))
              && |buffer| <= old(|buffer|) + 15 + |key| + |value|
    {
      hide Varint, EncodeVarint32, EntryBytes;
      var nonShared := |key| - shared;
      EncodesVarint(shared);
      EncodesVarint(nonShared);
      EncodesVarint(|value|);
      buffer := buffer + EncodeVarint32(shared) + EncodeVarint32(nonShared) + EncodeVarint32(|value|);
      buffer := buffer + key[shared..] + value;
      Written(old(buffer), shared, Pair(key, value));
    }

    /** Finish without compression: appends the restart array and its size. */
    method Finish() returns (block: Bytes)
      requires Valid()
      modifies this
      ensures IsBlock(block, old(added), interval) && finished && added == old(added)
              && |block| == old(|buffer|) + 4 * old(|restarts|) + 4
    {
      hide Data, Fixed32, Restarts, RestartCount;
      RestartsFit(added, interval);
      ghost var data := buffer;
      var i: nat := 0;
      while i < |restarts|
        invariant 0 <= i <= |restarts| && restarts == old(restarts) && added == old(added)
        invariant buffer == data + Fixed32s(restarts[..i])
      {
        assert restarts[..i + 1][..i] == restarts[..i];
        buffer := buffer + Fixed32(restarts[i]);
        i := i + 1;
      }
      assert restarts[..i] == restarts;
      Fixed32Length(restarts);
      buffer := buffer + Fixed32(|restarts|);
      finished := true;
      block := buffer;
    }
  }

  method SharePrefix(a: Bytes, b: Bytes) returns (shared: nat)
    ensures shared == CommonPrefix(a, b)
  {
    shared := 0;
    var minLength := if |a| < |b| then |a| else |b|;
    while shared < minLength && a[shared] == b[shared]
      invariant shared <= minLength && CommonPrefix(a, b) == shared + CommonPrefix(a[shared..], b[shared..])
    {
      assert a[shared..][1..] == a[shared + 1..] && b[shared..][1..] == b[shared + 1..];
      shared := shared + 1;
    }
  }

  lemma ShareIs(ps: seq<Pair>, p: Pair, interval: nat, restarts: nat, counter: nat)
    requires interval > 0 && restarts > 0 && counter < interval && (restarts - 1) * interval + counter == |ps|
             && (ps != [] ==> counter > 0)
    ensures Shared(ps + [p], interval, |ps|) == CommonPrefix(if ps == [] then [] else ps[|ps| - 1].key, p.key)
  {
    Remainder(restarts - 1, interval, counter);
  }

  lemma ShareNone(ps: seq<Pair>, p: Pair, interval: nat, restarts: nat)
    requires interval > 0 && restarts > 0 && (restarts - 1) * interval + interval == |ps|
    ensures Shared(ps + [p], interval, |ps|) == 0
  {
    assert restarts * interval + 0 == |ps|;
    Remainder(restarts, interval, 0);
  }

  lemma Remainder(q: nat, d: nat, r: nat)
    requires r < d
    ensures (q * d + r) / d == q && (q * d + r) % d == r
  {
    var n := q * d + r;
    assert n == n / d * d + n % d;
    var e := n / d - q;
    assert e * d == r - n % d;
    assert e >= 1 ==> e * d >= d;
    assert e <= -1 ==> e * d <= 0 - d;
  }

  lemma NextInterval(q: nat, d: nat)
    requires q > 0
    ensures (q - 1) * d + d == q * d
  {
  }

  /** A new entry starts a new restart interval exactly when the last one is full. */
  lemma NextRestart(ps: seq<Pair>, p: Pair, interval: nat, restarts: nat, counter: nat)
    requires interval > 0 && restarts > 0 && counter <= interval && (restarts - 1) * interval + counter == |ps|
             && (ps != [] ==> counter > 0)
    requires restarts == RestartCount(|ps|, interval)
    ensures var next := ps + [p];
            Restarts(next, interval)
              == Restarts(ps, interval) + if counter < interval then [] else [Offset(ps, interval, |ps|)]
  {
    hide Data;
    NextInterval(restarts, interval);
    if counter < interval { Remainder(restarts - 1, interval, counter); } else { Remainder(restarts, interval, 0); }
    var next := ps + [p];
    var c := RestartCount(|next|, interval);
    assert c == restarts + if counter < interval then 0 else 1;
    forall j: nat | j < restarts ensures RestartOffset(next, interval, j) == RestartOffset(ps, interval, j) {
      RestartInRange(|ps|, interval, j);
      DataFrame(ps, p, interval, j * interval);
    }
    if counter == interval { DataFrame(ps, p, interval, |ps|); }
  }

  lemma Written(buffer: Bytes, shared: nat, p: Pair)
    requires shared <= |p.key|
    ensures buffer + Varint(shared) + Varint(|p.key| - shared) + Varint(|p.value|) + p.key[shared..] + p.value ==
            buffer + EntryBytes(shared, p)
  {
  }

  lemma DataSnoc(ps: seq<Pair>, p: Pair, interval: nat)
    requires interval > 0
    ensures Data(ps + [p], interval, |ps| + 1)
            == Data(ps, interval, |ps|) + EntryBytes(Shared(ps + [p], interval, |ps|), p)
  {
    DataFrame(ps, p, interval, |ps|);
  }

  lemma FewRestarts(n: nat, interval: nat)
    requires interval > 0
    ensures RestartCount(n, interval) <= n + 1
  {
    if n > 0 {
      RestartInRange(n, interval, RestartCount(n, interval) - 1);
      NumberTheory.TimesMonotone(1, interval, RestartCount(n, interval) - 1);
    }
  }

  lemma RestartsFit(ps: seq<Pair>, interval: nat)
    requires interval > 0 && Offset(ps, interval, |ps|) < WORD32
    ensures forall j: nat :: j < RestartCount(|ps|, interval) ==> RestartOffset(ps, interval, j) < WORD32
    ensures |Restarts(ps, interval)| == RestartCount(|ps|, interval) < WORD32
  {
    hide Data;
    DataPrefix(ps, interval, 0, |ps|);
    FewRestarts(|ps|, interval);
    forall j: nat | j < RestartCount(|ps|, interval) ensures RestartOffset(ps, interval, j) < WORD32 {
      RestartInRange(|ps|, interval, j);
      DataPrefix(ps, interval, j * interval, |ps|);
    }
  }
}
