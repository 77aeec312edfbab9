/** Reading finished blocks: external/pdlfs-common/src/leveldb/block.cc. */
module BlockIterators {
  import opened Coding
  import opened BlockFormat
  import opened Sequences

  // ----- Facts about blocks

  /** Offsets order entries. */
  lemma OffsetOrder(ps: seq<Pair>, interval: nat, i: nat, j: nat)
    requires interval > 0 && i <= |ps| && j <= |ps|
    ensures Offset(ps, interval, i) < Offset(ps, interval, j) <==> i < j
    ensures Offset(ps, interval, i) == Offset(ps, interval, j) <==> i == j
  {
    hide Data, Offset;
    if i < j { DataPrefix(ps, interval, i, j); } else { DataPrefix(ps, interval, j, i); }
  }

  lemma EntryInBlock(block: Bytes, ps: seq<Pair>, interval: nat, i: nat)
    requires IsBlock(block, ps, interval) && i < |ps|
    ensures Holds(block, Offset(ps, interval, i), EntryBytes(Shared(ps, interval, i), ps[i]))
    ensures Offset(ps, interval, i) + |EntryBytes(Shared(ps, interval, i), ps[i])| == Offset(ps, interval, i + 1)
    ensures Offset(ps, interval, i + 1) <= Offset(ps, interval, |ps|) < WORD32 && Shared(ps, interval, i) < WORD32
  {
    hide Data, EntryBytes, Fixed32s, Fixed32, Restarts, Holds, Shared;
    KeyLength(ps, interval, i);
    EntryAt(ps, interval, i);
    var data := Data(ps, interval, |ps|);
    var tail := Fixed32s(Restarts(ps, interval)) + Fixed32(RestartCount(|ps|, interval));
    assert block == data + tail;
    HoldsLonger(data, tail, Offset(ps, interval, i), EntryBytes(Shared(ps, interval, i), ps[i]));
  }

  /** Every byte of a key was written, in its own entry or in one before. */
  lemma {:induction false} KeyLength(ps: seq<Pair>, interval: nat, i: nat)
    requires interval > 0 && i < |ps|
    ensures |ps[i].key| <= Offset(ps, interval, i + 1) && Shared(ps, interval, i) <= Offset(ps, interval, i)
  {
    hide Shared, Varint;
    if i > 0 { KeyLength(ps, interval, i - 1); }
  }

  lemma BlockSize(block: Bytes, ps: seq<Pair>, interval: nat)
    requires IsBlock(block, ps, interval)
    ensures |block| == Offset(ps, interval, |ps|) + 4 * RestartCount(|ps|, interval) + 4
    ensures DecodeFixed32(block, |block| - 4) == RestartCount(|ps|, interval)
  {
    hide Data, Fixed32, RestartCount, DecodeFixed32;
    var count := RestartCount(|ps|, interval);
    var front := Data(ps, interval, |ps|) + Fixed32s(Restarts(ps, interval));
    Fixed32Length(Restarts(ps, interval));
    HoldsSuffix(front, Fixed32(count));
    Fixed32RoundTrip(block, |front|, count);
  }

  lemma RestartInBlock(block: Bytes, ps: seq<Pair>, interval: nat, j: nat)
    requires IsBlock(block, ps, interval) && j < RestartCount(|ps|, interval)
    ensures Offset(ps, interval, |ps|) + 4 * j + 4 <= |block|
    ensures DecodeFixed32(block, Offset(ps, interval, |ps|) + 4 * j) == RestartOffset(ps, interval, j)
  {
    hide Data, Fixed32, RestartCount, DecodeFixed32, Holds, RestartOffset;
    var data, rs := Data(ps, interval, |ps|), Restarts(ps, interval);
    var count := Fixed32(RestartCount(|ps|, interval));
    BlockSize(block, ps, interval);
    Fixed32At(rs, j);
    HoldsBehind(data, Fixed32s(rs), 4 * j, Fixed32(rs[j]));
    HoldsLonger(data + Fixed32s(rs), count, |data| + 4 * j, Fixed32(rs[j]));
    Fixed32RoundTrip(block, |data| + 4 * j, rs[j]);
  }

  lemma HoldsBehind(front: Bytes, data: Bytes, p: nat, code: Bytes)
    requires Holds(data, p, code)
    ensures Holds(front + data, |front| + p, code)
  {
    assert (front + data)[|front| + p..|front| + p + |code|] == data[p..p + |code|];
  }

  lemma RestartShared(ps: seq<Pair>, interval: nat, j: nat, m: nat)
    requires interval > 0 && j < RestartCount(|ps|, interval) && m == j * interval
    ensures m <= |ps| && (m < |ps| ==> Shared(ps, interval, m) == 0) && (|ps| > 0 ==> m < |ps|)
    ensures RestartOffset(ps, interval, j) == Offset(ps, interval, m)
  {
    RestartInRange(|ps|, interval, j);
    Remainder(j, interval, 0);
  }

  // ----- Entries

  /** DecodeEntry, on bytes that hold an entry and have nothing of it beyond the limit. */
  method DecodeEntry(data: Bytes, p: nat, limit: nat, ghost s: nat, ghost e: Pair)
    returns (ok: bool, shared: nat, nonShared: nat, valueLength: nat, next: nat)
    requires p <= limit <= |data| && limit < WORD32 && s <= |e.key| && s < WORD32
    requires Holds(data, p, EntryBytes(s, e)) && p + |EntryBytes(s, e)| <= limit
    ensures ok && shared == s && nonShared == |e.key| - s && valueLength == |e.value|
    ensures next + nonShared + valueLength == p + |EntryBytes(s, e)|
    ensures Holds(data, next, e.key[s..]) && Holds(data, next + nonShared, e.value)
  {
    hide Varint, Holds, EntryBytes;
    ok, shared, nonShared, valueLength, next := false, 0, 0, 0, p;
    if limit - p < 3 {
      return;
    }
    EntryParts(data, p, s, e);
    var b0, b1, b2 := data[p], data[p + 1], data[p + 2];
    FirstBytes(data, p, s, e);
    if b0 < 128 && b1 < 128 && b2 < 128 {
      shared, nonShared, valueLength, next := b0, b1, b2, p + 3;
    } else {
      ok, shared, nonShared, valueLength, next := DecodeNumbers(data, p, limit, s, e);
      if !ok {
        return;
      }
    }
    ok := (limit - next) % WORD32 >= (nonShared + valueLength) % WORD32;
  }

  method DecodeNumbers(data: Bytes, p: nat, limit: nat, ghost s: nat, ghost e: Pair)
    returns (ok: bool, shared: nat, nonShared: nat, valueLength: nat, next: nat)
    requires p <= limit <= |data| && s <= |e.key| && s < WORD32 && |e.key| - s < WORD32 && |e.value| < WORD32
    requires var a, b, c := Varint(s), Varint(|e.key| - s), Varint(|e.value|);
             && Holds(data, p, a) && Holds(data, p + |a|, b) && Holds(data, p + |a| + |b|, c)
             && p + |a| + |b| + |c| <= limit
    ensures ok && shared == s && nonShared == |e.key| - s && valueLength == |e.value|
    ensures next == p + |Varint(s)| + |Varint(|e.key| - s)| + |Varint(|e.value|)|
  {
    hide Varint, Holds, ParseVarint;
    VarintRoundTrip(data, p, limit, s);
    VarintRoundTrip(data, p + |Varint(s)|, limit, |e.key| - s);
    VarintRoundTrip(data, p + |Varint(s)| + |Varint(|e.key| - s)|, limit, |e.value|);
    ok, shared, nonShared, valueLength, next := false, 0, 0, 0, p;
    var r := GetVarint32(data, p, limit);
    if r.Malformed? {
      return;
    }
    shared := r.value;
    r := GetVarint32(data, r.next, limit);
    if r.Malformed? {
      return;
    }
    nonShared := r.value;
    r := GetVarint32(data, r.next, limit);
    if r.Malformed? {
      return;
    }
    ok, valueLength, next := true, r.value, r.next;
  }

  lemma EntryParts(data: Bytes, p: nat, s: nat, e: Pair)
    requires s <= |e.key| && Holds(data, p, EntryBytes(s, e))
    ensures var a, b, c := Varint(s), Varint(|e.key| - s), Varint(|e.value|);
            && |EntryBytes(s, e)| == |a| + |b| + |c| + (|e.key| - s) + |e.value| && p + |EntryBytes(s, e)| <= |data|
            && Holds(data, p, a) && Holds(data, p + |a|, b) && Holds(data, p + |a| + |b|, c)
            && Holds(data, p + |a| + |b| + |c|, e.key[s..])
            && Holds(data, p + |a| + |b| + |c| + (|e.key| - s), e.value)
  {
    hide Holds, Varint;
    var a, b, c, d := Varint(s), Varint(|e.key| - s), Varint(|e.value|), e.key[s..] + e.value;
    HoldsFits(data, p, EntryBytes(s, e));
    HoldsParts(data, p, a, b + (c + d));
    HoldsParts(data, p + |a|, b, c + d);
    HoldsParts(data, p + |a| + |b|, c, d);
    HoldsParts(data, p + |a| + |b| + |c|, e.key[s..], e.value);
  }

  lemma HoldsFits(data: Bytes, p: nat, code: Bytes)
    requires Holds(data, p, code)
    ensures p + |code| <= |data|
  {
  }

  /** Three small first bytes are the three numbers. */
  lemma FirstBytes(data: Bytes, p: nat, s: nat, e: Pair)
    requires s <= |e.key| && p + 3 <= |data|
    requires var a, b, c := Varint(s), Varint(|e.key| - s), Varint(|e.value|);
             Holds(data, p, a) && Holds(data, p + |a|, b) && Holds(data, p + |a| + |b|, c)
    ensures data[p] < 128 && data[p + 1] < 128 && data[p + 2] < 128 ==>
              && data[p] == s && data[p + 1] == |e.key| - s && data[p + 2] == |e.value|
              && |Varint(s)| == |Varint(|e.key| - s)| == |Varint(|e.value|)| == 1
  {
    hide Holds;
    HoldsAt(data, p, Varint(s), 0);
    HoldsAt(data, p + |Varint(s)|, Varint(|e.key| - s), 0);
    HoldsAt(data, p + |Varint(s)| + |Varint(|e.key| - s)|, Varint(|e.value|), 0);
  }

  // ----- The iterator

  ghost predicate SortedPairs(ps: seq<Pair>) {
    forall i, j :: 0 <= i <= j < |ps| ==> Compare(ps[i].key, ps[j].key) <= 0
  }

  class BlockIter {
    const data: Bytes
    const restarts: nat
    const numRestarts: nat
    ghost const ps: seq<Pair>
    ghost const interval: nat
    var current: nat
    var restartIndex: nat
    var key: Bytes
    var valueStart: nat
    var valueLength: nat
    ghost var pos: nat

    ghost predicate OfBlock() {
      interval > 0 && IsBlock(data, ps, interval) && restarts == Offset(ps, interval, |ps|)
        && numRestarts == RestartCount(|ps|, interval)
    }

    /** On entry pos, or past the last one. */
    ghost predicate Valid()
      reads this
    {
      OfBlock()
      && if pos < |ps| then OnEntry(pos)
         else pos == |ps| && current == restarts && restartIndex == numRestarts
    }

    ghost predicate OnEntry(i: nat)
      requires OfBlock() && i < |ps|
      reads this
    {
      && current == Offset(ps, interval, i) && key == ps[i].key
      && valueStart + valueLength == Offset(ps, interval, i + 1) && Holds(data, valueStart, ps[i].value)
        && valueLength == |ps[i].value|
      && restartIndex < numRestarts && restartIndex * interval <= i
      && (restartIndex + 1 < numRestarts ==> i <= (restartIndex + 1) * interval)
    }

    /** About to parse entry i: the value ends there and the key starts with what entry i shares. */
    ghost predicate Ready(i: nat)
      requires OfBlock() && i <= |ps|
      reads this
    {
      && valueStart + valueLength == Offset(ps, interval, i) && restartIndex < numRestarts
        && restartIndex * interval <= i
      && (i < |ps| ==>
            Shared(ps, interval, i) <= |key| && key[..Shared(ps, interval, i)] == ps[i].key[..Shared(ps, interval, i)])
    }

    /** Block and NewIterator on a finished block. */
    constructor (data: Bytes, ghost ps: seq<Pair>, ghost interval: nat)
      requires IsBlock(data, ps, interval)
      ensures Valid() && pos == |ps| && this.ps == ps && this.interval == interval
    {
      hide Data, Fixed32, RestartCount, DecodeFixed32, Fixed32s, Restarts;
      BlockSize(data, ps, interval);
      var size := |data|;
      var count := 0;
      var offset := 0;
      if size < 4 {
        size := 0;
      } else {
        count := DecodeFixed32(data, size - 4);
        if count > (size - 4) / 4 {
          size := 0;
        } else {
          offset := size - (1 + count) * 4;
        }
      }
      this.data, restarts, numRestarts, this.ps, this.interval := data, offset, count, ps, interval;
      current, restartIndex, key, valueStart, valueLength, pos := offset, count, [], 0, 0, |ps|;
    }

    /** The source's Valid: on an entry. */
    predicate Here()
      requires Valid()
      reads this
      ensures Here() <==> pos < |ps|
    {
      OffsetOrder(ps, interval, pos, |ps|);
      current < restarts
    }

    method Value() returns (v: Bytes)
      requires Valid() && pos < |ps|
      ensures v == ps[pos].value
    {
      hide IsBlock, RestartCount, Data;
      v := data[valueStart..valueStart + valueLength];
    }

    function NextEntryOffset(): nat
      reads this
    {
      valueStart + valueLength
    }

    method GetRestartPoint(index: nat) returns (r: nat)
      requires OfBlock() && index < numRestarts
      ensures r == RestartOffset(ps, interval, index)
    {
      hide IsBlock, RestartCount, RestartOffset, DecodeFixed32;
      RestartInBlock(data, ps, interval, index);
      r := DecodeFixed32(data, restarts + index * 4);
    }

    /** Restart point index is at entry i. */
    method SeekToRestartPoint(index: nat, ghost i: nat)
      requires OfBlock() && index < numRestarts && i == index * interval && i <= |ps|
      modifies this`key, this`restartIndex, this`valueStart, this`valueLength
      ensures restartIndex == index && Ready(i)
    {
      hide IsBlock, RestartCount, Data, Shared, RestartOffset, Offset;
      RestartShared(ps, interval, index, i);
      key := [];
      restartIndex := index;
      valueStart := GetRestartPoint(index);
      valueLength := 0;
    }

    /** Parses the entry behind the current value. The source has an error state for entries that do not
        parse; a finished block has none. */
    method ParseNextKey(ghost i: nat) returns (more: bool)
      requires OfBlock() && i <= |ps| && Ready(i)
      modifies this
      ensures Valid() && pos == i && more == (i < |ps|)
    {
      hide IsBlock, RestartCount, Data, Shared, EntryBytes, Holds, RestartOffset;
      current := NextEntryOffset();
      pos := i;
      var p, limit := current, restarts;
      OffsetOrder(ps, interval, i, |ps|);
      if p >= limit {
        current := restarts;
        restartIndex := numRestarts;
        return false;
      }
      EntryInBlock(data, ps, interval, i);
      HoldsFits(data, current, EntryBytes(Shared(ps, interval, i), ps[i]));
      BlockSize(data, ps, interval);
      var ok, shared, nonShared, length, q := DecodeEntry(data, p, limit, Shared(ps, interval, i), ps[i]);
      if !ok || |key| < shared {
        assert false;  // corruption
      }
      ghost var s := Shared(ps, interval, i);
      HoldsFits(data, q, ps[i].key[s..]);
      Joined(data, q, ps[i].key, s);
      key := key[..shared] + data[q..q + nonShared];
      valueStart, valueLength := q + nonShared, length;
      AdvanceRestart(i);
      more := true;
    }

    /** Moves the restart index up to the interval of the entry. */
    method AdvanceRestart(ghost i: nat)
      requires OfBlock() && i < |ps| && current == Offset(ps, interval, i)
      requires restartIndex < numRestarts && restartIndex * interval <= i
      modifies this`restartIndex
      ensures restartIndex < numRestarts && restartIndex * interval <= i
      ensures restartIndex + 1 < numRestarts ==> i <= (restartIndex + 1) * interval
    {
      hide IsBlock, RestartCount, Data;
      while restartIndex + 1 < numRestarts
        invariant restartIndex < numRestarts && restartIndex * interval <= i
        decreases numRestarts - restartIndex
      {
        var r := GetRestartPoint(restartIndex + 1);
        RestartShared(ps, interval, restartIndex + 1, (restartIndex + 1) * interval);
        OffsetOrder(ps, interval, (restartIndex + 1) * interval, i);
        if r >= current {
          break;
        }
        restartIndex := restartIndex + 1;
      }
    }

    lemma NextIsReady()
      requires Valid() && pos < |ps|
      ensures Ready(pos + 1)
    {
      hide IsBlock, RestartCount, Data, Holds;
    }

    method Next()
      requires Valid() && pos < |ps|
      modifies this
      ensures Valid() && pos == old(pos) + 1
    {
      hide IsBlock, RestartCount, Data, Shared, Holds;
      NextIsReady();
      var more := ParseNextKey(pos + 1);
    }

    /** The entry before; none before the first. */
    method Prev()
      requires Valid() && pos < |ps|
      modifies this
      ensures Valid() && pos == if old(pos) == 0 then |ps| else old(pos) - 1
    {
      hide IsBlock, RestartCount, Data, Shared, Holds, Offset;
      var original := current;
      ghost var i := pos;
      while true
        invariant OfBlock() && pos == i && restartIndex < numRestarts && restartIndex * interval <= i
        decreases restartIndex
      {
        var r := GetRestartPoint(restartIndex);
        RestartShared(ps, interval, restartIndex, restartIndex * interval);
        OffsetOrder(ps, interval, restartIndex * interval, i);
        if r < original {
          break;
        }
        if restartIndex == 0 {
          current, restartIndex := restarts, numRestarts;
          pos := |ps|;
          return;
        }
        restartIndex := restartIndex - 1;
        NextInterval(restartIndex + 1, interval);
      }
      ghost var j := restartIndex * interval;
      SeekToRestartPoint(restartIndex, j);
      var more := ParseNextKey(j);
      OffsetOrder(ps, interval, j + 1, i);
      while more && NextEntryOffset() < original
        invariant Valid() && pos == j < i && more
        invariant NextEntryOffset() < original <==> j + 1 < i
        decreases i - j
      {
        NextIsReady();
        j := j + 1;
        more := ParseNextKey(j);
        OffsetOrder(ps, interval, j + 1, i);
      }
    }

    method SeekToFirst()
      requires Valid()
      modifies this
      ensures Valid() && pos == 0
    {
      hide IsBlock, RestartCount, Data, Shared, Holds;
      SeekToRestartPoint(0, 0);
      var more := ParseNextKey(0);
    }

    method SeekToLast()
      requires Valid()
      modifies this
      ensures Valid() && pos == if |ps| == 0 then 0 else |ps| - 1
    {
      hide IsBlock, RestartCount, Data, Shared, Holds, Offset;
      ghost var j := (numRestarts - 1) * interval;
      RestartShared(ps, interval, numRestarts - 1, j);
      SeekToRestartPoint(numRestarts - 1, j);
      var more := ParseNextKey(j);
      if more { OffsetOrder(ps, interval, j + 1, |ps|); }
      while more && NextEntryOffset() < restarts
        invariant Valid() && pos == j && more == (j < |ps|) && (|ps| > 0 ==> more)
        invariant more ==> (NextEntryOffset() < restarts <==> j + 1 < |ps|)
        decreases |ps| - j
      {
        NextIsReady();
        j := j + 1;
        more := ParseNextKey(j);
        OffsetOrder(ps, interval, j + 1, |ps|);
      }
    }

    /** Goes to the first key at or behind the target. */
    method Seek(target: Bytes)
      requires Valid() && SortedPairs(ps)
      modifies this
      ensures Valid() && (forall i :: 0 <= i < pos ==> Compare(ps[i].key, target) < 0)
      ensures pos < |ps| ==> Compare(ps[pos].key, target) >= 0
    {
      hide IsBlock, RestartCount, Data, Shared, Holds, Offset, Compare, SortedPairs;
      var left := FindRestart(target);
      ghost var j := left * interval;
      SeekToRestartPoint(left, j);
      while true
        invariant OfBlock() && j <= |ps| && Ready(j)
        invariant forall i :: 0 <= i < j ==> Compare(ps[i].key, target) < 0
        decreases |ps| - j
      {
        var more := ParseNextKey(j);
        if !more {
          return;
        }
        if Compare(key, target) >= 0 {
          return;
        }
        NextIsReady();
        j := j + 1;
      }
    }

    /** The last restart point with a key before the target, or the first. */
    method FindRestart(target: Bytes) returns (left: nat)
      requires Valid() && SortedPairs(ps)
      ensures left < numRestarts && left * interval <= |ps|
      ensures forall i :: 0 <= i < left * interval ==> Compare(ps[i].key, target) < 0
    {
      hide IsBlock, RestartCount, Data, Shared, Holds, Compare, SortedPairs, EntryBytes;
      left := 0;
      var right := numRestarts - 1;
      while left < right
        invariant left <= right < numRestarts && left * interval <= |ps|
        invariant forall i :: 0 <= i < left * interval ==> Compare(ps[i].key, target) < 0
        decreases right - left
      {
        var mid := (left + right + 1) / 2;
        var offset := GetRestartPoint(mid);
        ghost var m := mid * interval;
        EntryOfRestart(data, ps, interval, mid, m);
        var ok, shared, nonShared, length, q := DecodeEntry(data, offset, restarts, 0, ps[m]);
        assert ok && shared == 0;
        HoldsFits(data, q, ps[m].key[0..]);
        Joined(data, q, ps[m].key, 0);
        var midKey := data[q..q + nonShared];
        assert [] + midKey == midKey;
        if Compare(midKey, target) < 0 {
          left := mid;
          AllBefore(ps, m, target);
        } else {
          right := mid - 1;
        }
      }
    }
  }

  lemma EntryOfRestart(data: Bytes, ps: seq<Pair>, interval: nat, mid: nat, m: nat)
    requires IsBlock(data, ps, interval) && 0 < mid < RestartCount(|ps|, interval) && m == mid * interval
    ensures m < |ps| && RestartOffset(ps, interval, mid) == Offset(ps, interval, m)
    ensures Holds(data, Offset(ps, interval, m), EntryBytes(0, ps[m]))
    ensures Offset(ps, interval, m) + |EntryBytes(0, ps[m])| <= Offset(ps, interval, |ps|) <= |data|
            && Offset(ps, interval, |ps|) < WORD32
  {
    hide Data, Holds, EntryBytes, IsBlock, RestartCount, RestartOffset, Offset, Shared;
    NeedsInterval(data, ps, interval);
    RestartShared(ps, interval, mid, m);
    NotEmpty(ps, interval, mid);
    EntryInBlock(data, ps, interval, m);
    BlockSize(data, ps, interval);
  }

  lemma NeedsInterval(data: Bytes, ps: seq<Pair>, interval: nat)
    requires IsBlock(data, ps, interval)
    ensures interval > 0
  {
  }

  lemma NotEmpty(ps: seq<Pair>, interval: nat, mid: nat)
    requires interval > 0 && 0 < mid < RestartCount(|ps|, interval)
    ensures |ps| > 0
  {
  }

  lemma Joined(data: Bytes, q: nat, key: Bytes, s: nat)
    requires s <= |key| && Holds(data, q, key[s..])
    ensures q + (|key| - s) <= |data| && key[..s] + data[q..q + (|key| - s)] == key
  {
  }

  lemma AllBefore(ps: seq<Pair>, m: nat, target: Bytes)
    requires SortedPairs(ps) && m < |ps| && Compare(ps[m].key, target) < 0
    ensures forall i :: 0 <= i < m ==> Compare(ps[i].key, target) < 0
  {
    forall i | 0 <= i < m ensures Compare(ps[i].key, target) < 0 {
      CompareTransitive(ps[i].key, ps[m].key, target);
    }
  }

  // ----- Round trip

  /** A bound on the size of the entries as written. */
  function SizeBound(ps: seq<Pair>): nat {
    if ps == [] then 0 else SizeBound(ps[..|ps| - 1]) + 15 + |ps[|ps| - 1].key| + |ps[|ps| - 1].value|
  }

  method Build(ps: seq<Pair>, restartInterval: int) returns (block: Bytes)
    requires SizeBound(ps) < WORD32
    ensures IsBlock(block, ps, Interval(restartInterval))
  {
    hide IsBlock, SizeBound;
    NoSize();
    var b := new BlockBuilder(restartInterval);
    var i := 0;
    while i < |ps|
      invariant 0 <= i <= |ps| && fresh(b) && b.Valid() && b.added == ps[..i] && b.interval == Interval(restartInterval)
      invariant |b.buffer| <= SizeBound(ps[..i])
    {
      SizeStep(ps, i);
      b.Add(ps[i].key, ps[i].value);
      i := i + 1;
    }
    assert ps[..i] == ps;
    block := b.Finish();
  }

  lemma NoSize()
    ensures SizeBound([]) == 0
  {
  }

  lemma SizeStep(ps: seq<Pair>, i: nat)
    requires i < |ps|
    ensures ps[..i + 1] == ps[..i] + [ps[i]]
    ensures SizeBound(ps[..i + 1]) == SizeBound(ps[..i]) + 15 + |ps[i].key| + |ps[i].value| <= SizeBound(ps)
  {
    assert ps[..i + 1][..i] == ps[..i];
    PrefixBound(ps, i + 1);
  }

  lemma {:induction false} PrefixBound(ps: seq<Pair>, i: nat)
    requires i <= |ps|
    ensures SizeBound(ps[..i]) <= SizeBound(ps)
  {
    if i == |ps| {
      assert ps[..i] == ps;
    } else {
      PrefixBound(ps[..|ps| - 1], i);
      assert ps[..|ps| - 1][..i] == ps[..i];
    }
  }

  method ScanForward(block: Bytes, ghost ps: seq<Pair>, ghost interval: nat) returns (out: seq<Pair>)
    requires IsBlock(block, ps, interval)
    ensures out == ps
  {
    hide IsBlock, Holds, RestartCount, Offset;
    var it := new BlockIter(block, ps, interval);
    out := [];
    it.SeekToFirst();
    ghost var i := 0;
    while it.Here()
      invariant it.Valid() && it.ps == ps && it.pos == i <= |ps| && out == ps[..i] && fresh(it)
      decreases |ps| - i
    {
      var v := it.Value();
      out := out + [Pair(it.key, v)];
      it.Next();
      i := i + 1;
    }
  }

  method ScanBackward(block: Bytes, ghost ps: seq<Pair>, ghost interval: nat) returns (out: seq<Pair>)
    requires IsBlock(block, ps, interval)
    ensures out == ps
  {
    hide IsBlock, Holds, RestartCount, Offset;
    var it := new BlockIter(block, ps, interval);
    out := [];
    it.SeekToLast();
    ghost var i := |ps|;
    while it.Here()
      invariant it.Valid() && it.ps == ps && fresh(it) && 0 <= i <= |ps| && out == ps[i..]
      invariant it.pos == if i == 0 then |ps| else i - 1
      decreases i
    {
      var v := it.Value();
      out := [Pair(it.key, v)] + out;
      it.Prev();
      i := i - 1;
    }
  }

  /** A finished block reads back as what was added, forward and backward. */
  method BuildThenScan(ps: seq<Pair>, restartInterval: int) returns (forward: seq<Pair>, backward: seq<Pair>)
    requires SizeBound(ps) < WORD32
    ensures forward == ps && backward == ps
  {
    hide IsBlock;
    var block := Build(ps, restartInterval);
    forward := ScanForward(block, ps, Interval(restartInterval));
    backward := ScanBackward(block, ps, Interval(restartInterval));
  }
}
