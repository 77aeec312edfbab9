/** The merging iterator: external/pdlfs-common/src/leveldb/merger.cc. Keys are integers, in the order of
    the comparator. A child is the sorted list of its keys with a position; its size means "not valid". */
module MergingIterators {

  ghost predicate Sorted(s: seq<int>) {
    forall i, j :: 0 <= i < j < |s| ==> s[i] < s[j]
  }

  ghost predicate AllSorted(children: seq<seq<int>>) {
    forall c :: 0 <= c < |children| ==> Sorted(children[c])
  }

  /** The keys of all children, each once. */
  ghost predicate IsUnion(all: seq<int>, children: seq<seq<int>>) {
    && Sorted(all) && (forall c, j :: 0 <= c < |children| && 0 <= j < |children[c]| ==> children[c][j] in all)
    && forall x :: x in all ==> exists c :: 0 <= c < |children| && x in children[c]
  }

  ghost predicate Disjoint(children: seq<seq<int>>) {
    forall c, d, x :: 0 <= c < |children| && 0 <= d < |children| && c != d && x in children[c] ==> x !in children[d]
  }

  /** x comes before entry a of the union. */
  ghost predicate Low(x: int, all: seq<int>, a: nat) {
    a >= |all| || x < all[a]
  }

  /** The first p keys are those before entry a. */
  ghost predicate LowerAt(s: seq<int>, all: seq<int>, a: nat, p: nat) {
    p <= |s| && (forall j :: 0 <= j < p ==> Low(s[j], all, a)) && forall j :: p <= j < |s| ==> !Low(s[j], all, a)
  }

  /** p is at the last key before entry b, or not valid if there is none. */
  ghost predicate LastAt(s: seq<int>, all: seq<int>, b: nat, p: nat) {
    p <= |s| && LowerAt(s, all, b, if p < |s| then p + 1 else 0)
  }

  lemma NextEntry(all: seq<int>, a: nat, x: int)
    requires Sorted(all) && a < |all| && x in all
    ensures x > all[a] ==> a + 1 < |all| && x >= all[a + 1]
    ensures Low(x, all, a + 1) <==> x <= all[a]
  {
    var i :| 0 <= i < |all| && all[i] == x;
    assert i < a ==> x < all[a];
    assert i > a + 1 ==> x > all[a + 1];
  }

  // ----- Children

  function SeekPos(s: seq<int>, target: int): (p: nat)
    ensures p <= |s| && (forall j :: 0 <= j < p ==> s[j] < target) && (p < |s| ==> s[p] >= target)
  {
    if s == [] || s[0] >= target then 0 else
      var p := SeekPos(s[1..], target);
      assert forall j :: 1 <= j < p + 1 ==> s[j] == s[1..][j - 1];
      p + 1
  }

  /** Seek to a key and past it. */
  function PastPos(s: seq<int>, key: int): (p: nat)
    ensures p <= |s|
  {
    var p := SeekPos(s, key);
    if p < |s| && s[p] == key then p + 1 else p
  }

  /** Seek to a key and before it. */
  function BeforePos(s: seq<int>, key: int): (p: nat)
    ensures p <= |s|
  {
    var p := SeekPos(s, key);
    if p < |s| then PrevPos(s, p) else LastPos(s)
  }

  function PrevPos(s: seq<int>, p: nat): nat
    requires p < |s|
  {
    if p == 0 then |s| else p - 1
  }

  function LastPos(s: seq<int>): nat {
    if |s| == 0 then 0 else |s| - 1
  }

  class MergingIterator {
    const children: seq<seq<int>>
    const pos: array<nat>
    var current: int    // -1 for none
    var forward: bool   // the direction
    ghost const all: seq<int>
    ghost var at: nat

    ghost predicate Shaped()
      reads this`current, pos
    {
      && pos.Length == |children| && AllSorted(children) && -1 <= current < |children|
      && (forall c :: 0 <= c < |children| ==> pos[c] <= |children[c]|)
      && (current >= 0 ==> pos[current] < |children[current]|)
    }

    ghost predicate Merges() {
      IsUnion(all, children) && Disjoint(children)
    }

    /** The cursor is on entry at of the union. */
    ghost predicate OnUnion()
      requires Shaped()
      reads this, pos
    {
      if at < |all| then
        && current >= 0 && children[current][pos[current]] == all[at]
        && forall c :: 0 <= c < |children| ==>
             if forward then LowerAt(children[c], all, at, pos[c]) else LastAt(children[c], all, at + 1, pos[c])
      else at == |all| && current == -1
    }

    /** Going forward, no child is on a smaller key than the current one. */
    ghost predicate CurrentIsLeast()
      requires Shaped()
      reads this`current, pos
    {
      if current == -1 then forall c :: 0 <= c < |children| ==> pos[c] == |children[c]|
      else forall c :: 0 <= c < |children| && pos[c] < |children[c]| ==>
        children[current][pos[current]] <= children[c][pos[c]]
    }

    ghost predicate CurrentIsGreatest()
      requires Shaped()
      reads this`current, pos
    {
      if current == -1 then forall c :: 0 <= c < |children| ==> pos[c] == |children[c]|
      else forall c :: 0 <= c < |children| && pos[c] < |children[c]| ==>
        children[current][pos[current]] >= children[c][pos[c]]
    }

    /** On disjoint children, a cursor on their union; on any children, on the least key going forward. */
    ghost predicate Valid()
      reads this, pos
    {
      Shaped() && (Merges() ==> OnUnion()) && (forward && current >= 0 ==> CurrentIsLeast())
    }

    constructor (children: seq<seq<int>>, ghost all: seq<int>)
      requires AllSorted(children)
      ensures Valid() && current == -1 && this.children == children && this.all == all && at == |all| && fresh(pos)
    {
      this.children, this.all, current, forward, at := children, all, -1, true, |all|;
      pos := new nat[|children|](_ => 0);
    }

    method FindSmallest()
      requires pos.Length == |children| && AllSorted(children)
      requires forall c :: 0 <= c < |children| ==> pos[c] <= |children[c]|
      modifies this`current
      ensures Shaped() && CurrentIsLeast()
    {
      hide Sorted;
      var smallest := -1;
      var i := 0;
      while i < |children|
        invariant 0 <= i <= |children| && -1 <= smallest < i
        invariant smallest >= 0 ==> pos[smallest] < |children[smallest]|
        invariant smallest == -1 ==> forall c :: 0 <= c < i ==> pos[c] == |children[c]|
        invariant smallest >= 0 ==>
                    forall c :: 0 <= c < i && pos[c] < |children[c]|
                      ==> children[smallest][pos[smallest]] <= children[c][pos[c]]
      {
        if pos[i] < |children[i]| {
          if smallest == -1 {
            smallest := i;
          } else if children[i][pos[i]] < children[smallest][pos[smallest]] {
            smallest := i;
          }
        }
        i := i + 1;
      }
      current := smallest;
    }

    method FindLargest()
      requires pos.Length == |children| && AllSorted(children)
      requires forall c :: 0 <= c < |children| ==> pos[c] <= |children[c]|
      modifies this`current
      ensures Shaped() && CurrentIsGreatest()
    {
      hide Sorted;
      var largest := -1;
      var i := |children| - 1;
      while i >= 0
        invariant -1 <= i < |children| && (largest == -1 || i < largest < |children|)
        invariant largest >= 0 ==> pos[largest] < |children[largest]|
        invariant largest == -1 ==> forall c :: i < c < |children| ==> pos[c] == |children[c]|
        invariant largest >= 0 ==>
                    forall c :: i < c < |children| && pos[c] < |children[c]|
                      ==> children[largest][pos[largest]] >= children[c][pos[c]]
      {
        if pos[i] < |children[i]| {
          if largest == -1 {
            largest := i;
          } else if children[i][pos[i]] > children[largest][pos[largest]] {
            largest := i;
          }
        }
        i := i - 1;
      }
      current := largest;
    }

    /** With every child at its first key from entry a on, the least of them is entry a. */
    lemma LeastIsEntry(a: nat)
      requires Shaped() && Merges() && CurrentIsLeast() && a <= |all|
      requires forall c :: 0 <= c < |children| ==> LowerAt(children[c], all, a, pos[c])
      ensures if a < |all| then current >= 0 && children[current][pos[current]] == all[a] else current == -1
    {
      hide Disjoint;
      if a < |all| {
        assert all[a] in all;
        var c :| 0 <= c < |children| && all[a] in children[c];
        var j :| 0 <= j < |children[c]| && children[c][j] == all[a];
        assert Sorted(children[c]) && LowerAt(children[c], all, a, pos[c]);
        assert !Low(all[a], all, a) && j >= pos[c];
        assert LowerAt(children[current], all, a, pos[current]);
      } else {
        forall c | 0 <= c < |children| ensures pos[c] == |children[c]| {
          assert LowerAt(children[c], all, a, pos[c]);
        }
      }
    }

    lemma GreatestIsEntry(b: nat)
      requires Shaped() && Merges() && CurrentIsGreatest() && b <= |all|
      requires forall c :: 0 <= c < |children| ==> LastAt(children[c], all, b, pos[c])
      ensures if b > 0 then current >= 0 && children[current][pos[current]] == all[b - 1] else current == -1
    {
      hide Disjoint;
      if b > 0 {
        HasLast(b);
        assert LastAt(children[current], all, b, pos[current]) && children[current][pos[current]] in all;
        NextEntry(all, b - 1, children[current][pos[current]]);
      } else {
        forall c | 0 <= c < |children| ensures pos[c] == |children[c]| {
          assert LastAt(children[c], all, b, pos[c]);
          NoneLow(children[c], all, pos[c]);
        }
      }
    }

    lemma KeysInUnion(c: nat)
      requires Merges() && c < |children|
      ensures Sorted(all) && forall j :: 0 <= j < |children[c]| ==> children[c][j] in all
    {
    }

    method SeekToFirst()
      requires Shaped()
      modifies this, pos
      ensures Valid() && forward && CurrentIsLeast() && (Merges() ==> at == 0) && forall c :: 0 <= c < |children| ==>
              pos[c] == 0
    {
      hide Sorted, IsUnion, Disjoint, LowerAt, LastAt;
      var i := 0;
      while i < |children|
        invariant 0 <= i <= |children| && forall c :: 0 <= c < i ==> pos[c] == 0
        invariant forall c :: 0 <= c < |children| ==> pos[c] <= |children[c]|
      {
        pos[i] := 0;
        i := i + 1;
      }
      FindSmallest();
      forward := true;
      at := 0;
      if Merges() {
        forall c: nat | c < |children| ensures LowerAt(children[c], all, 0, pos[c]) {
          KeysInUnion(c);
          FirstLower(children[c], all);
        }
        LeastIsEntry(0);
      }
    }

    method SeekToLast()
      requires Shaped()
      modifies this, pos
      ensures Valid() && (Merges() ==> at == if |all| == 0 then 0 else |all| - 1)
    {
      hide Sorted, IsUnion, Disjoint, LowerAt, LastAt;
      var i := 0;
      while i < |children|
        invariant 0 <= i <= |children| && forall c :: 0 <= c < i ==> pos[c] == LastPos(children[c])
        invariant forall c :: 0 <= c < |children| ==> pos[c] <= |children[c]|
      {
        pos[i] := LastPos(children[i]);
        i := i + 1;
      }
      FindLargest();
      forward := false;
      at := if |all| == 0 then 0 else |all| - 1;
      if Merges() {
        forall c: nat | c < |children| ensures LastAt(children[c], all, |all|, pos[c]) {
          LastUpper(children[c], all);
        }
        GreatestIsEntry(|all|);
      }
    }

    method Seek(target: int)
      requires Shaped()
      modifies this, pos
      ensures Valid() && (Merges() ==> at == SeekPos(all, target))
    {
      hide Sorted, IsUnion, Disjoint, LowerAt, LastAt, SeekPos;
      var i := 0;
      while i < |children|
        invariant 0 <= i <= |children| && forall c :: 0 <= c < i ==> pos[c] == SeekPos(children[c], target)
        invariant forall c :: 0 <= c < |children| ==> pos[c] <= |children[c]|
      {
        pos[i] := SeekPos(children[i], target);
        i := i + 1;
      }
      FindSmallest();
      forward := true;
      at := SeekPos(all, target);
      if Merges() {
        forall c: nat | c < |children| ensures LowerAt(children[c], all, at, pos[c]) {
          KeysInUnion(c);
          SeekUnion(children[c], all, at, target);
        }
        LeastIsEntry(at);
      }
    }

    method Next()
      requires Valid() && current >= 0
      modifies this, pos
      ensures Valid() && forward && CurrentIsLeast() && (Merges() ==> at == old(at) + 1)
      ensures old(forward) ==> pos[..] == old(pos[..])[old(current) := old(pos[current]) + 1]
    {
      hide Sorted, IsUnion, Disjoint, LowerAt, LastAt, SeekPos, PastPos, CurrentIsLeast;
      ghost var was, way := pos[..], forward;
      var key := children[current][pos[current]];
      if !forward {
        var i := 0;
        while i < |children|
          invariant 0 <= i <= |children| && unchanged(this)
          invariant forall c :: 0 <= c < |children| ==>
                    pos[c] == if c < i && c != current then PastPos(children[c], key) else was[c]
        {
          if i != current {
            ghost var p := SeekPos(children[i], key);
            pos[i] := SeekPos(children[i], key);
            if pos[i] < |children[i]| && key == children[i][pos[i]] {
              pos[i] := pos[i] + 1;
            }
            PastIs(children[i], key);
          }
          i := i + 1;
        }
        forward := true;
      }
      ghost var cur := current;
      pos[current] := pos[current] + 1;
      FindSmallest();
      if Merges() {
        forall c: nat | c < |children| ensures LowerAt(children[c], all, at + 1, pos[c]) {
          AfterNext(c, cur, way, was, pos[c]);
        }
        LeastIsEntry(at + 1);
        at := at + 1;
      }
    }

    lemma PastIs(s: seq<int>, key: int)
      ensures PastPos(s, key) == var p := SeekPos(s, key); if p < |s| && s[p] == key then p + 1 else p
    {
    }

    /** Where Next takes a child. */
    lemma AfterNext(c: nat, cur: int, way: bool, was: seq<nat>, p: nat)
      requires Merges() && AllSorted(children) && at < |all| && c < |children| == |was| && 0 <= cur < |children|
      requires was[cur] < |children[cur]| && children[cur][was[cur]] == all[at] && was[c] <= |children[c]|
      requires if way then LowerAt(children[c], all, at, was[c]) else LastAt(children[c], all, at + 1, was[c])
      requires p == if c == cur then was[c] + 1 else if way then was[c] else PastPos(children[c], all[at])
      ensures LowerAt(children[c], all, at + 1, p)
    {
      hide IsUnion, LowerAt, SeekPos;
      var s := children[c];
      KeysInUnion(c);
      if way {
        assert all[at] in children[cur];
        assert c != cur && was[c] < |s| ==> s[was[c]] in s;
        StepLower(s, all, at, was[c]);
      } else if c == cur {
        LastMeans(s, all, at + 1, was[c]);
      } else {
        SeekLower(s, all, at);
        StepLower(s, all, at, SeekPos(s, all[at]));
      }
    }

    lemma LastMeans(s: seq<int>, all: seq<int>, b: nat, p: nat)
      requires LastAt(s, all, b, p) && p < |s|
      ensures LowerAt(s, all, b, p + 1)
    {
    }

    method Prev()
      requires Valid() && current >= 0
      modifies this, pos
      ensures Valid() && !forward && (Merges() ==> at == if old(at) == 0 then |all| else old(at) - 1)
    {
      hide Sorted, IsUnion, Disjoint, LowerAt, LastAt, SeekPos, BeforePos, CurrentIsLeast, CurrentIsGreatest;
      ghost var was, way := pos[..], forward;
      var key := children[current][pos[current]];
      if forward {
        var i := 0;
        while i < |children|
          invariant 0 <= i <= |children| && unchanged(this)
          invariant forall c :: 0 <= c < |children| ==>
                    pos[c] == if c < i && c != current then BeforePos(children[c], key) else was[c]
        {
          if i != current {
            BeforeIs(children[i], key);
            pos[i] := SeekPos(children[i], key);
            if pos[i] < |children[i]| {
              // At the first entry >= key; step back to be < key
              pos[i] := PrevPos(children[i], pos[i]);
            } else {
              // No entries >= key
              pos[i] := LastPos(children[i]);
            }
          }
          i := i + 1;
        }
        forward := false;
      }
      ghost var cur := current;
      pos[current] := PrevPos(children[current], pos[current]);
      FindLargest();
      if Merges() {
        forall c: nat | c < |children| ensures LastAt(children[c], all, at, pos[c]) {
          AfterPrev(c, cur, way, was, pos[c]);
        }
        GreatestIsEntry(at);
        at := if at == 0 then |all| else at - 1;
      }
    }

    lemma BeforeIs(s: seq<int>, key: int)
      ensures BeforePos(s, key) == var p := SeekPos(s, key); if p < |s| then PrevPos(s, p) else LastPos(s)
    {
    }

    lemma AfterPrev(c: nat, cur: int, way: bool, was: seq<nat>, p: nat)
      requires Merges() && AllSorted(children) && at < |all| && c < |children| == |was| && 0 <= cur < |children|
      requires was[cur] < |children[cur]| && children[cur][was[cur]] == all[at] && was[c] <= |children[c]|
      requires if way then LowerAt(children[c], all, at, was[c]) else LastAt(children[c], all, at + 1, was[c])
      requires p == if c == cur then PrevPos(children[c], was[c]) else if way then BeforePos(children[c],
               all[at]) else was[c]
      ensures LastAt(children[c], all, at, p)
    {
      hide IsUnion, LowerAt, LastAt, SeekPos;
      var s := children[c];
      KeysInUnion(c);
      if !way {
        assert all[at] in children[cur];
        assert c != cur && was[c] < |s| ==> s[was[c]] in s;
        StepBack(s, all, at, was[c]);
      } else if c == cur {
        BeforeIsLast(s, all, at, was[c]);
      } else {
        SeekLower(s, all, at);
        BeforeIsLast(s, all, at, SeekPos(s, all[at]));
      }
    }

    lemma HasLast(b: nat)
      requires Shaped() && Merges() && CurrentIsGreatest() && 0 < b <= |all|
      requires forall c :: 0 <= c < |children| ==> LastAt(children[c], all, b, pos[c])
      ensures current >= 0 && children[current][pos[current]] >= all[b - 1]
    {
      hide Disjoint, LastAt;
      assert all[b - 1] in all;
      var c :| 0 <= c < |children| && all[b - 1] in children[c];
      assert Sorted(children[c]) && LastAt(children[c], all, b, pos[c]);
      NextEntry(all, b - 1, all[b - 1]);
      LastIsLast(children[c], all, b, pos[c], all[b - 1]);
    }
  }

  lemma LastIsLast(s: seq<int>, all: seq<int>, b: nat, p: nat, x: int)
    requires LastAt(s, all, b, p) && Sorted(s) && x in s && Low(x, all, b)
    ensures p < |s| && x <= s[p]
  {
    var j :| 0 <= j < |s| && s[j] == x;
  }

  lemma NoneLow(s: seq<int>, all: seq<int>, p: nat)
    requires LastAt(s, all, 0, p) && Sorted(all) && forall j :: 0 <= j < |s| ==> s[j] in all
    ensures p == |s|
  {
    if p < |s| { NothingBefore(all, s[p]); }
  }

  lemma NothingBefore(all: seq<int>, x: int)
    requires Sorted(all) && x in all
    ensures !Low(x, all, 0)
  {
    var i :| 0 <= i < |all| && all[i] == x;
  }

  // ----- Where moving a child takes it

  lemma SeekLower(s: seq<int>, all: seq<int>, a: nat)
    requires Sorted(s) && a < |all|
    ensures LowerAt(s, all, a, SeekPos(s, all[a]))
  {
  }

  /** Stepping off entry a, or being past it without holding it, is being at entry a + 1. */
  lemma StepLower(s: seq<int>, all: seq<int>, a: nat, p: nat)
    requires Sorted(s) && Sorted(all) && a < |all| && (forall j :: 0 <= j < |s| ==> s[j] in all)
             && LowerAt(s, all, a, p)
    ensures LowerAt(s, all, a + 1, if p < |s| && s[p] == all[a] then p + 1 else p)
  {
    forall j | 0 <= j < |s| ensures Low(s[j], all, a + 1) <==> s[j] <= all[a] {
      NextEntry(all, a, s[j]);
    }
  }

  /** The last key before entry a. */
  lemma BeforeIsLast(s: seq<int>, all: seq<int>, a: nat, p: nat)
    requires Sorted(s) && LowerAt(s, all, a, p)
    ensures LastAt(s, all, a, if p < |s| then PrevPos(s, p) else LastPos(s))
  {
  }

  /** Stepping back off entry a. */
  lemma StepBack(s: seq<int>, all: seq<int>, a: nat, p: nat)
    requires Sorted(s) && Sorted(all) && a < |all| && (forall j :: 0 <= j < |s| ==> s[j] in all)
             && LastAt(s, all, a + 1, p)
    ensures LastAt(s, all, a, if p < |s| && s[p] == all[a] then PrevPos(s, p) else p)
  {
    forall j | 0 <= j < |s| ensures Low(s[j], all, a + 1) <==> s[j] <= all[a] {
      NextEntry(all, a, s[j]);
    }
  }

  lemma FirstLower(s: seq<int>, all: seq<int>)
    requires Sorted(s) && Sorted(all) && forall j :: 0 <= j < |s| ==> s[j] in all
    ensures LowerAt(s, all, 0, 0)
  {
    forall j | 0 <= j < |s| ensures !Low(s[j], all, 0) { NothingBefore(all, s[j]); }
  }

  lemma LastUpper(s: seq<int>, all: seq<int>)
    ensures LastAt(s, all, |all|, LastPos(s))
  {
  }

  /** Seeking a target is seeking the first entry of the union at or behind it. */
  lemma SeekUnion(s: seq<int>, all: seq<int>, a: nat, target: int)
    requires Sorted(s) && Sorted(all) && (forall j :: 0 <= j < |s| ==> s[j] in all) && a == SeekPos(all, target)
    ensures LowerAt(s, all, a, SeekPos(s, target))
  {
    hide SeekPos, Low;
    var p := SeekPos(s, target);
    forall j | 0 <= j < |s| ensures Low(s[j], all, a) <==> s[j] < target {
      LowMeans(all, a, target, s[j]);
    }
    assert p < |s| ==> forall j :: p <= j < |s| ==> s[p] <= s[j];
  }

  lemma LowMeans(all: seq<int>, a: nat, target: int, x: int)
    requires Sorted(all) && a == SeekPos(all, target) && x in all
    ensures Low(x, all, a) <==> x < target
  {
    hide SeekPos;
    var i :| 0 <= i < |all| && all[i] == x;
    assert i < a ==> all[i] < target;
    assert i >= a ==> all[i] >= all[a];
  }

  // ----- Any mix of moves

  datatype Move = First | Last | SeekTo(target: int) | Forward | Backward

  /** The same move of a plain cursor on a sorted list; its size means "not valid". */
  function CursorMove(all: seq<int>, at: nat, move: Move): (r: nat)
    requires at <= |all|
    ensures r <= |all|
  {
    match move
    case First => 0
    case Last => LastPos(all)
    case SeekTo(target) => SeekPos(all, target)
    case Forward => if at < |all| then at + 1 else at
    case Backward => if at < |all| then PrevPos(all, at) else at
  }

  function CursorRun(all: seq<int>, moves: seq<Move>): (at: nat)
    ensures at <= |all|
  {
    if moves == [] then |all| else CursorMove(all, CursorRun(all, moves[..|moves| - 1]), moves[|moves| - 1])
  }

  /** The key under the cursor after each move, if it is valid there. */
  function CursorKeys(all: seq<int>, moves: seq<Move>): seq<seq<int>> {
    if moves == [] then []
    else
      var at := CursorRun(all, moves);
      CursorKeys(all, moves[..|moves| - 1]) + [if at < |all| then [all[at]] else []]
  }

  /** One move; without a current key there is nothing to move from. */
  method MakeMove(it: MergingIterator, move: Move)
    requires it.Valid() && it.Merges()
    modifies it, it.pos
    ensures it.Valid() && it.Merges()
    ensures it.at == CursorMove(it.all, old(it.at), move)
  {
    hide IsUnion, Disjoint, LowerAt, LastAt, SeekPos;
    match move {
      case First => it.SeekToFirst();
      case Last => it.SeekToLast();
      case SeekTo(target) => it.Seek(target);
      case Forward => if it.current >= 0 { it.Next(); }
      case Backward => if it.current >= 0 { it.Prev(); }
    }
  }

  /** On disjoint children, any mix of moves shows what a cursor on the sorted union shows. */
  method Drive(children: seq<seq<int>>, ghost all: seq<int>, moves: seq<Move>) returns (keys: seq<seq<int>>)
    requires AllSorted(children) && IsUnion(all, children) && Disjoint(children)
    ensures keys == CursorKeys(all, moves)
  {
    hide IsUnion, Disjoint, LowerAt, LastAt, SeekPos, CursorMove;
    var it := new MergingIterator(children, all);
    keys := [];
    var i := 0;
    while i < |moves|
      invariant 0 <= i <= |moves| && fresh(it) && fresh(it.pos) && it.children == children && it.all == all
      invariant it.Valid() && it.at == CursorRun(all, moves[..i]) && keys == CursorKeys(all, moves[..i])
    {
      assert moves[..i + 1][..i] == moves[..i];
      MakeMove(it, moves[i]);
      keys := keys + [if it.current >= 0 then [it.children[it.current][it.pos[it.current]]] else []];
      i := i + 1;
    }
    assert moves[..i] == moves;
  }

  // ----- Overlapping children

  /** All keys, each once for every child that has it. */
  function AllKeys(children: seq<seq<int>>): multiset<int> {
    if children == [] then multiset{} else AllKeys(children[..|children| - 1]) + multiset(children[|children| - 1])
  }

  /** The keys not yet passed. */
  function KeysFrom(children: seq<seq<int>>, pos: seq<nat>): multiset<int>
    requires |pos| == |children| && forall c :: 0 <= c < |children| ==> pos[c] <= |children[c]|
  {
    if children == [] then multiset{}
    else
      var n := |children| - 1;
      KeysFrom(children[..n], pos[..n]) + multiset(children[n][pos[n]..])
  }

  lemma {:induction false} FromStart(children: seq<seq<int>>, pos: seq<nat>)
    requires |pos| == |children| && forall c :: 0 <= c < |children| ==> pos[c] == 0
    ensures KeysFrom(children, pos) == AllKeys(children)
  {
    if children != [] {
      var n := |children| - 1;
      FromStart(children[..n], pos[..n]);
      assert children[n][pos[n]..] == children[n];
    }
  }

  lemma {:induction false} FromEnd(children: seq<seq<int>>, pos: seq<nat>)
    requires |pos| == |children| && forall c :: 0 <= c < |children| ==> pos[c] == |children[c]|
    ensures KeysFrom(children, pos) == multiset{}
  {
    if children != [] {
      var n := |children| - 1;
      FromEnd(children[..n], pos[..n]);
    }
  }

  lemma {:induction false} PassOne(children: seq<seq<int>>, pos: seq<nat>, c: nat)
    requires |pos| == |children| && (forall d :: 0 <= d < |children| ==> pos[d] <= |children[d]|)
    requires c < |children| && pos[c] < |children[c]|
    ensures KeysFrom(children, pos) == KeysFrom(children, pos[c := pos[c] + 1]) + multiset{children[c][pos[c]]}
  {
    hide KeysFrom;
    var n := |children| - 1;
    var next := pos[c := pos[c] + 1];
    KeysStep(children, pos);
    KeysStep(children, next);
    if c < n {
      PassOne(children[..n], pos[..n], c);
      assert next[..n] == pos[..n][c := pos[c] + 1];
    } else {
      assert next[..n] == pos[..n];
      FirstKey(children[n], pos[n]);
    }
  }

  lemma KeysStep(children: seq<seq<int>>, pos: seq<nat>)
    requires |pos| == |children| > 0 && (forall d :: 0 <= d < |children| ==> pos[d] <= |children[d]|)
    ensures var n := |children| - 1;
            KeysFrom(children, pos) == KeysFrom(children[..n], pos[..n]) + multiset(children[n][pos[n]..])
  {
  }

  lemma FirstKey(s: seq<int>, p: nat)
    requires p < |s|
    ensures multiset(s[p..]) == multiset(s[p + 1..]) + multiset{s[p]}
  {
    assert s[p..] == [s[p]] + s[p + 1..];
  }

  ghost predicate NoneBelow(m: multiset<int>, low: int) {
    forall x :: x in m ==> x >= low
  }

  /** Nothing ahead is below a key that no child is below. */
  lemma {:induction false} AheadNotBelow(children: seq<seq<int>>, pos: seq<nat>, low: int)
    requires |pos| == |children| && AllSorted(children) && forall d :: 0 <= d < |children| ==> pos[d] <= |children[d]|
    requires forall d :: 0 <= d < |children| && pos[d] < |children[d]| ==> children[d][pos[d]] >= low
    ensures NoneBelow(KeysFrom(children, pos), low)
  {
    if children != [] {
      var n := |children| - 1;
      assert AllSorted(children[..n]);
      AheadNotBelow(children[..n], pos[..n], low);
      assert Sorted(children[n]);
      forall x | x in multiset(children[n][pos[n]..]) ensures x >= low {
        assert x in children[n][pos[n]..];
        var j :| 0 <= j < |children[n][pos[n]..]| && children[n][pos[n]..][j] == x;
        assert children[n][pos[n] + j] == x;
      }
    }
  }

  ghost predicate Ascending(s: seq<int>) {
    forall i, j :: 0 <= i <= j < |s| ==> s[i] <= s[j]
  }

  /** What a forward scan has yielded, and what is ahead of it. */
  ghost predicate Scanned(children: seq<seq<int>>, pos: seq<nat>, out: seq<int>)
    requires |pos| == |children| && forall c :: 0 <= c < |children| ==> pos[c] <= |children[c]|
  {
    && multiset(out) + KeysFrom(children, pos) == AllKeys(children)
    && Ascending(out) && (out != [] ==> NoneBelow(KeysFrom(children, pos), out[|out| - 1]))
  }

  lemma ScanStep(children: seq<seq<int>>, pos: seq<nat>, c: nat, out: seq<int>)
    requires |pos| == |children| && AllSorted(children) && forall d :: 0 <= d < |children| ==> pos[d] <= |children[d]|
    requires c < |children| && pos[c] < |children[c]| && Scanned(children, pos, out)
    requires forall d :: 0 <= d < |children| && pos[d] < |children[d]| ==> children[d][pos[d]] >= children[c][pos[c]]
    ensures Scanned(children, pos[c := pos[c] + 1], out + [children[c][pos[c]]])
    ensures |KeysFrom(children, pos[c := pos[c] + 1])| < |KeysFrom(children, pos)|
  {
    hide AllKeys, KeysFrom, Sorted, Ascending, NoneBelow;
    var key := children[c][pos[c]];
    AheadNotBelow(children, pos, key);
    PassOne(children, pos, c);
    Appended(out, key, KeysFrom(children, pos), KeysFrom(children, pos[c := pos[c] + 1]));
  }

  /** A forward scan of children that may share keys yields every key once for each child that has it,
      in ascending order. */
  method ScanForward(children: seq<seq<int>>) returns (out: seq<int>)
    requires AllSorted(children)
    ensures Ascending(out) && multiset(out) == AllKeys(children)
  {
    hide AllKeys, KeysFrom, Sorted, Ascending, NoneBelow, MergingIterator.OnUnion, MergingIterator.Merges, Scanned;
    var it := new MergingIterator(children, []);
    out := [];
    it.SeekToFirst();
    NothingScanned(children, it.pos[..]);
    while it.current >= 0
      invariant it.Valid() && it.forward && it.CurrentIsLeast() && it.children == children && fresh(it) && fresh(it.pos)
      invariant Scanned(children, it.pos[..], out)
      decreases |KeysFrom(children, it.pos[..])|
    {
      ScanStep(children, it.pos[..], it.current, out);
      out := out + [children[it.current][it.pos[it.current]]];
      it.Next();
    }
    AllScanned(children, it.pos[..], out);
  }

  lemma NothingScanned(children: seq<seq<int>>, pos: seq<nat>)
    requires |pos| == |children| && forall c :: 0 <= c < |children| ==> pos[c] == 0
    ensures Scanned(children, pos, [])
  {
    FromStart(children, pos);
  }

  lemma AllScanned(children: seq<seq<int>>, pos: seq<nat>, out: seq<int>)
    requires |pos| == |children| && forall c :: 0 <= c < |children| ==> pos[c] == |children[c]|
    requires Scanned(children, pos, out)
    ensures Ascending(out) && multiset(out) == AllKeys(children)
  {
    FromEnd(children, pos);
  }

  lemma Appended(out: seq<int>, key: int, before: multiset<int>, after: multiset<int>)
    requires Ascending(out) && (out != [] ==> NoneBelow(before, out[|out| - 1])) && before == after + multiset{key}
             && NoneBelow(before, key)
    ensures Ascending(out + [key]) && NoneBelow(after, key) && |after| < |before|
  {
    assert key in before;
    forall x | x in after ensures x >= key { assert x in before; }
  }
}
