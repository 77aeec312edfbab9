/** The skip list of external/pdlfs-common/src/leveldb/skiplist.h as a state machine: one writer that goes
    forward one link at a time, and readers that load one link at a time. No two nodes ever have one
    key, so a node is named by its key. */
module SkipLists {

  const MAX_HEIGHT: nat := 12

  datatype Ref = Head | At(key: int) | Null

  predicate Before(a: Ref, b: Ref) {
    match (a, b)
    case (Head, Head) => false
    case (Head, _) => true
    case (At(x), At(y)) => x < y
    case (At(_), Null) => true
    case _ => false
  }

  /** "NULL n is considered infinite." */
  predicate KeyIsAfterNode(key: int, n: Ref) {
    n.At? && n.key < key
  }

  datatype Link = Link(node: Ref, level: nat)

  // ----- Writer and readers

  datatype Writer =
    | Resting
    | Searching(key: int, x: Ref, level: nat, prev: map<nat, Ref>)
    | Choosing(key: int, prev: map<nat, Ref>)
    | Linking(key: int, height: nat, prev: map<nat, Ref>, i: nat, copied: bool)

  datatype Goal = NotBefore(target: int) | LastBefore(target: int) | Last | After(key: int)

  /** A search knows which inserts had finished when it began; a result also what the lowest level held
      at its last load. */
  datatype Reader =
    | Seeking(goal: Goal, x: Ref, level: nat, since: set<int>)
    | Found(goal: Goal, result: Ref, since: set<int>, seen: set<int>)

  /** linked[l] are the keys published at level l; finished those whose Insert has returned. */
  datatype State = State(next: map<Link, Ref>, maxHeight: nat, linked: seq<set<int>>, finished: set<int>,
                         writer: Writer, readers: map<nat, Reader>)

  datatype Step =
    | StartInsert(key: int) | SearchStep | ChooseHeight(height: nat) | CopyLink | Publish
    | StartRead(id: nat, goal: Goal, height: nat) | ReadStep(id: nat) | NextStep(id: nat)

  // ----- The invariant

  ghost predicate InList(x: Ref, keys: set<int>) {
    x == Head || (x.At? && x.key in keys)
  }

  /** y is what follows x among the keys. */
  ghost predicate Follows(keys: set<int>, x: Ref, y: Ref) {
    && Before(x, y) && (y.At? ==> y.key in keys)
    && forall k :: k in keys && Before(x, At(k)) ==> !Before(At(k), y)
  }

  /** Every level is a strictly sorted list of its keys, and has no key that the level below lacks. */
  ghost predicate LevelsSorted(s: State) {
    && |s.linked| == MAX_HEIGHT && 1 <= s.maxHeight <= MAX_HEIGHT
    && (forall l, x :: 0 <= l < MAX_HEIGHT && InList(x, s.linked[l]) ==>
          Link(x, l) in s.next && Follows(s.linked[l], x, s.next[Link(x, l)]))
    && (forall l :: 0 <= l < MAX_HEIGHT - 1 ==> s.linked[l + 1] <= s.linked[l])
    && (forall l :: s.maxHeight <= l < MAX_HEIGHT ==> s.linked[l] == {})
    && s.finished <= s.linked[0]
  }

  /** x is the last before the key at a level where the key is not linked. */
  ghost predicate Precedes(s: State, x: Ref, key: int, l: nat)
    requires |s.linked| == MAX_HEIGHT && l < MAX_HEIGHT
  {
    && InList(x, s.linked[l]) && Before(x, At(key)) && key !in s.linked[l]
    && forall k :: k in s.linked[l] && Before(x, At(k)) ==> key < k
  }

  ghost predicate WriterInv(s: State)
    requires |s.linked| == MAX_HEIGHT && s.maxHeight <= MAX_HEIGHT
  {
    match s.writer
    case Resting => s.linked[0] == s.finished
    case Searching(key, x, level, prev) =>
      && level < s.maxHeight && InList(x, s.linked[level]) && Before(x, At(key)) && key !in s.linked[0]
        && s.linked[0] == s.finished
      && forall l: nat :: level < l < s.maxHeight ==> l in prev && Precedes(s, prev[l], key, l)
    case Choosing(key, prev) =>
      && key !in s.linked[0] && s.linked[0] == s.finished
      && forall l: nat :: l < s.maxHeight ==> l in prev && Precedes(s, prev[l], key, l)
    case Linking(key, height, prev, i, copied) =>
      && 1 <= height <= s.maxHeight && i < height
      && (forall l: nat :: l < i ==> key in s.linked[l])
      && (forall l: nat :: i <= l < height ==> l in prev && Precedes(s, prev[l], key, l))
      && (copied ==>
            && Link(prev[i], i) in s.next && Link(At(key), i) in s.next
            && s.next[Link(At(key), i)] == s.next[Link(prev[i], i)])
      && s.linked[0] - {key} == s.finished && key !in s.finished
  }

  /** What a search may look for behind x. */
  ghost predicate Towards(goal: Goal, x: Ref) {
    match goal
    case NotBefore(target) => Before(x, At(target))
    case LastBefore(target) => Before(x, At(target))
    case Last => x != Null
    case After(_) => false
  }

  /** The result is right for a list of these keys. */
  ghost predicate Right(goal: Goal, result: Ref, keys: set<int>) {
    match goal
    case NotBefore(target) =>
      result != Head && (result.At? ==> result.key >= target) && forall k :: k in keys && k >= target ==>
        result.At? && result.key <= k
    case LastBefore(target) =>
      result != Null && (result.At? ==> result.key < target) && forall k :: k in keys && k < target ==>
        result.At? && k <= result.key
    case Last => result != Null && forall k :: k in keys ==> result.At? && k <= result.key
    case After(key) =>
      result != Head && (result.At? ==> result.key > key) && forall k :: k in keys && k > key ==>
        result.At? && result.key <= k
  }

  ghost predicate ReaderInv(s: State, r: Reader)
    requires |s.linked| == MAX_HEIGHT
  {
    match r
    case Seeking(goal, x, level, since) =>
      level < MAX_HEIGHT && InList(x, s.linked[level]) && Towards(goal, x) && since <= s.finished
    case Found(goal, result, since, seen) =>
      && since <= seen <= s.linked[0] && (result.At? ==> result.key in seen) && Right(goal, result, seen)
  }

  ghost predicate Inv(s: State) {
    && LevelsSorted(s) && WriterInv(s)
    && forall id :: id in s.readers ==> ReaderInv(s, s.readers[id])
  }

  // ----- Steps

  ghost predicate Enabled(s: State, step: Step)
    requires |s.linked| == MAX_HEIGHT
  {
    match step
    case StartInsert(key) => s.writer.Resting? && key !in s.linked[0]
    case SearchStep => s.writer.Searching?
    case ChooseHeight(height) => s.writer.Choosing? && 1 <= height <= MAX_HEIGHT
    case CopyLink => s.writer.Linking? && !s.writer.copied
    case Publish => s.writer.Linking? && s.writer.copied
    case StartRead(_, goal, height) => !goal.After? && 1 <= height <= s.maxHeight  // a height stored at some time
    case ReadStep(id) => id in s.readers && s.readers[id].Seeking?
    case NextStep(id) => id in s.readers && s.readers[id].Found? && s.readers[id].result.At?
  }

  ghost function Apply(s: State, step: Step): State
    requires Inv(s) && Enabled(s, step)
  {
    match step
    case StartInsert(key) => s.(writer := Searching(key, Head, s.maxHeight - 1, map[]))
    case SearchStep => ApplySearch(s)
    case ChooseHeight(height) => ApplyHeight(s, height)
    case CopyLink => ApplyCopy(s)
    case Publish => ApplyPublish(s)
    case StartRead(id, goal, height) => s.(readers := s.readers[id := Seeking(goal, Head, height - 1, s.finished)])
    case ReadStep(id) => s.(readers := s.readers[id := Load(s, s.readers[id])])
    case NextStep(id) =>
      var k := s.readers[id].result.key;
      s.(readers := s.readers[id := Found(After(k), s.next[Link(At(k), 0)], s.finished, s.linked[0])])
  }

  /** One load of FindGreaterOrEqual, as the writer runs it. */
  ghost function ApplySearch(s: State): State
    requires Inv(s) && s.writer.Searching?
  {
    var w := s.writer;
    var next := s.next[Link(w.x, w.level)];
    if KeyIsAfterNode(w.key, next) then s.(writer := w.(x := next))
    else
      var prev := w.prev[w.level := w.x];
      if w.level == 0 then s.(writer := Choosing(w.key, prev))
      else s.(writer := w.(level := w.level - 1, prev := prev))
  }

  ghost function ApplyHeight(s: State, height: nat): State
    requires Inv(s) && s.writer.Choosing?
  {
    var w := s.writer;
    var prev := if height <= s.maxHeight then w.prev
                else map l: nat | l < height :: if l < s.maxHeight then w.prev[l] else Head;
    s.(writer := Linking(w.key, height, prev, 0, false),
       maxHeight := if height > s.maxHeight then height else s.maxHeight)
  }

  /** The store that puts the node into a level; the last one ends the insert. */
  ghost function ApplyPublish(s: State): State
    requires Inv(s) && s.writer.Linking?
  {
    var w := s.writer;
    var t := s.(next := s.next[Link(w.prev[w.i], w.i) := At(w.key)],
                linked := s.linked[w.i := s.linked[w.i] + {w.key}]);
    if w.i + 1 < w.height then t.(writer := w.(i := w.i + 1, copied := false))
    else t.(writer := Resting, finished := s.finished + {w.key})
  }

  /** One load of a search. */
  ghost function Load(s: State, r: Reader): Reader
    requires Inv(s) && r.Seeking? && ReaderInv(s, r)
  {
    var next := s.next[Link(r.x, r.level)];
    var onward := match r.goal
      case NotBefore(target) => KeyIsAfterNode(target, next)
      case LastBefore(target) => next != Null && Before(next, At(target))
      case Last => next != Null
      case After(_) => false;
    if onward then r.(x := next)
    else if r.level > 0 then r.(level := r.level - 1)
    else Found(r.goal, if r.goal.NotBefore? then next else r.x, r.since, s.linked[0])
  }

  // ----- The invariant is kept

  /** A search step moves to a node before its target, or has found what it looks for. */
  lemma LoadKeeps(s: State, r: Reader)
    requires Inv(s) && r.Seeking? && ReaderInv(s, r)
    ensures ReaderInv(s, Load(s, r))
  {
    hide WriterInv;
    var y := s.next[Link(r.x, r.level)];
    assert Follows(s.linked[r.level], r.x, y);
    if r.level > 0 { assert s.linked[r.level - 1 + 1] <= s.linked[r.level - 1]; }
  }

  lemma NextKeeps(s: State, k: int)
    requires Inv(s) && k in s.linked[0]
    ensures Link(At(k), 0) in s.next && ReaderInv(s, Found(After(k), s.next[Link(At(k), 0)], s.finished, s.linked[0]))
  {
    hide WriterInv;
    assert InList(At(k), s.linked[0]);
    assert Follows(s.linked[0], At(k), s.next[Link(At(k), 0)]);
  }

  /** Readers are not disturbed by a list that grows. */
  lemma GrowthKeepsReader(s: State, t: State, r: Reader)
    requires |s.linked| == |t.linked| == MAX_HEIGHT && ReaderInv(s, r) && s.finished <= t.finished
    requires forall l :: 0 <= l < MAX_HEIGHT ==> s.linked[l] <= t.linked[l]
    ensures ReaderInv(t, r)
  {
  }

  lemma SearchKeeps(s: State)
    requires Inv(s) && s.writer.Searching?
    ensures LevelsSorted(ApplySearch(s)) && WriterInv(ApplySearch(s))
  {
    var w := s.writer;
    var y := s.next[Link(w.x, w.level)];
    assert Follows(s.linked[w.level], w.x, y);
    BelowZero(s, w.key, w.level);
    if w.level > 0 { assert s.linked[w.level - 1 + 1] <= s.linked[w.level - 1]; }
  }

  /** A key that the lowest level lacks is on no level. */
  lemma {:induction false} BelowZero(s: State, key: int, l: nat)
    requires LevelsSorted(s) && l < MAX_HEIGHT && key !in s.linked[0]
    ensures key !in s.linked[l]
  {
    if l > 0 {
      BelowZero(s, key, l - 1);
      assert s.linked[l - 1 + 1] <= s.linked[l - 1];
    }
  }

  lemma HeightKeeps(s: State, height: nat)
    requires Inv(s) && s.writer.Choosing? && 1 <= height <= MAX_HEIGHT
    ensures LevelsSorted(ApplyHeight(s, height)) && WriterInv(ApplyHeight(s, height))
  {
    hide ReaderInv;
    forall l: nat | l < height ensures l < MAX_HEIGHT && s.writer.key !in s.linked[l] { BelowZero(s, s.writer.key, l); }
  }

  ghost function ApplyCopy(s: State): State
    requires Inv(s) && s.writer.Linking?
  {
    var w := s.writer;
    s.(next := s.next[Link(At(w.key), w.i) := s.next[Link(w.prev[w.i], w.i)]], writer := w.(copied := true))
  }

  /** Writing the links of a node that is not on the level disturbs nobody. */
  lemma CopyKeeps(s: State)
    requires Inv(s) && s.writer.Linking?
    ensures LevelsSorted(ApplyCopy(s)) && WriterInv(ApplyCopy(s))
  {
    hide ReaderInv;
    var w := s.writer;
    var t := ApplyCopy(s);
    assert Precedes(s, w.prev[w.i], w.key, w.i);
    forall l, x | 0 <= l < MAX_HEIGHT && InList(x, t.linked[l])
      ensures Link(x, l) in t.next && Follows(t.linked[l], x, t.next[Link(x, l)])
    {
      assert InList(x, s.linked[l]) && Follows(s.linked[l], x, s.next[Link(x, l)]);
    }
  }

  /** The one store that publishes a node puts it in its place in the level. */
  lemma PublishSorts(s: State)
    requires Inv(s) && s.writer.Linking? && s.writer.copied
    ensures LevelsSorted(ApplyPublish(s))
  {
    hide ReaderInv;
    var w, t := s.writer, ApplyPublish(s);
    var p := w.prev[w.i];
    assert Precedes(s, p, w.key, w.i);
    assert Follows(s.linked[w.i], p, s.next[Link(p, w.i)]);
    forall l, x | 0 <= l < MAX_HEIGHT && InList(x, t.linked[l])
      ensures Link(x, l) in t.next && Follows(t.linked[l], x, t.next[Link(x, l)])
    {
      if l != w.i || x != At(w.key) { assert InList(x, s.linked[l]) && Follows(s.linked[l], x, s.next[Link(x, l)]); }
    }
    forall l | 0 <= l < MAX_HEIGHT - 1 ensures t.linked[l + 1] <= t.linked[l] {
      assert s.linked[l + 1] <= s.linked[l];
    }
  }

  lemma PublishKeepsWriter(s: State)
    requires Inv(s) && s.writer.Linking? && s.writer.copied
    ensures WriterInv(ApplyPublish(s))
  {
    hide ReaderInv, LevelsSorted;
    assert |s.linked| == MAX_HEIGHT && s.maxHeight <= MAX_HEIGHT by { Bounds(s); }
    var w, t := s.writer, ApplyPublish(s);
    forall l: nat | w.i + 1 <= l < w.height ensures l in w.prev && Precedes(t, w.prev[l], w.key, l) {
      assert Precedes(s, w.prev[l], w.key, l);
    }
  }

  lemma Bounds(s: State)
    requires LevelsSorted(s)
    ensures |s.linked| == MAX_HEIGHT && 1 <= s.maxHeight <= MAX_HEIGHT && s.finished <= s.linked[0]
  {
  }

  lemma StepKeeps(s: State, step: Step)
    requires Inv(s) && Enabled(s, step)
    ensures Inv(Apply(s, step)) && s.finished <= Apply(s, step).finished
  {
    hide LevelsSorted, WriterInv, ReaderInv, ApplySearch, ApplyHeight, ApplyPublish, Load;
    Bounds(s);
    var t := Apply(s, step);
    match step
    case StartInsert(key) => StartKeeps(s, key); Grows(s, step); OnlyWriter(s, t);
    case SearchStep => SearchKeeps(s); Grows(s, step); OnlyWriter(s, t);
    case ChooseHeight(height) => HeightKeeps(s, height); Grows(s, step); OnlyWriter(s, t);
    case CopyLink => CopyKeeps(s); Grows(s, step); OnlyWriter(s, t);
    case Publish => PublishSorts(s); PublishKeepsWriter(s); Grows(s, step); OnlyWriter(s, t);
    case StartRead(id, goal, height) => ReadStarts(s, goal, height); OnlyReader(s, t, id);
    case ReadStep(id) => LoadKeeps(s, s.readers[id]); OnlyReader(s, t, id);
    case NextStep(id) =>
      FoundIsLinked(s, id);
      NextKeeps(s, s.readers[id].result.key);
      OnlyReader(s, t, id);
  }

  ghost predicate WriterStep(step: Step) {
    step.StartInsert? || step.SearchStep? || step.ChooseHeight? || step.CopyLink? || step.Publish?
  }

  lemma Grows(s: State, step: Step)
    requires Inv(s) && Enabled(s, step) && WriterStep(step)
    ensures var t := Apply(s, step);
            && t.readers == s.readers && |s.linked| == |t.linked| == MAX_HEIGHT && s.finished <= t.finished
            && forall l :: 0 <= l < MAX_HEIGHT ==> s.linked[l] <= t.linked[l]
  {
    hide ReaderInv;
  }

  lemma StartKeeps(s: State, key: int)
    requires Inv(s) && s.writer.Resting? && key !in s.linked[0]
    ensures var t := s.(writer := Searching(key, Head, s.maxHeight - 1, map[])); LevelsSorted(t) && WriterInv(t)
  {
    hide ReaderInv;
  }

  lemma ReadStarts(s: State, goal: Goal, height: nat)
    requires Inv(s) && !goal.After? && 1 <= height <= s.maxHeight
    ensures ReaderInv(s, Seeking(goal, Head, height - 1, s.finished))
  {
  }

  lemma FoundIsLinked(s: State, id: nat)
    requires Inv(s) && id in s.readers && s.readers[id].Found? && s.readers[id].result.At?
    ensures s.readers[id].result.key in s.linked[0]
  {
    assert ReaderInv(s, s.readers[id]);
  }

  /** Steps of the writer only add keys, and leave the readers' own state alone. */
  lemma OnlyWriter(s: State, t: State)
    requires Inv(s) && LevelsSorted(t) && WriterInv(t) && t.readers == s.readers
             && |s.linked| == |t.linked| == MAX_HEIGHT
    requires (forall l :: 0 <= l < MAX_HEIGHT ==> s.linked[l] <= t.linked[l]) && s.finished <= t.finished
    ensures Inv(t)
  {
    hide LevelsSorted, WriterInv, ReaderInv;
    forall id | id in t.readers ensures ReaderInv(t, t.readers[id]) {
      GrowthKeepsReader(s, t, s.readers[id]);
    }
  }

  /** Steps of a reader change nothing but that reader. */
  lemma OnlyReader(s: State, t: State, id: nat)
    requires Inv(s) && |s.linked| == MAX_HEIGHT && id in t.readers && t == s.(readers := s.readers[id := t.readers[id]])
    requires ReaderInv(s, t.readers[id])
    ensures Inv(t)
  {
    SameList(s, t);
    forall i | i in t.readers ensures ReaderInv(t, t.readers[i]) {
      if i != id { assert ReaderInv(s, s.readers[i]); }
    }
  }

  lemma SameList(s: State, t: State)
    requires LevelsSorted(s) && WriterInv(s) && t == s.(readers := t.readers)
    ensures LevelsSorted(t) && WriterInv(t)
  {
  }

  // ----- Runs

  function Empty(): State {
    State(map l: nat | l < MAX_HEIGHT :: Link(Head, l) := Null, 1, seq(MAX_HEIGHT, _ => {}), {}, Resting, map[])
  }

  ghost function Start(): (s: State)
    ensures Inv(s)
  {
    EmptyIsGood();
    Empty()
  }

  lemma EmptyIsGood()
    ensures Inv(Empty())
  {
    var s := Empty();
    forall l | 0 <= l < MAX_HEIGHT ensures Link(Head, l) in s.next && s.next[Link(Head, l)] == Null {}
  }

  ghost function Do(s: State, step: Step): (t: State)
    requires Inv(s) && Enabled(s, step)
    ensures Inv(t)
  {
    StepKeeps(s, step);
    Apply(s, step)
  }

  ghost predicate LegalRun(s: State, steps: seq<Step>)
    requires Inv(s)
    decreases |steps|
  {
    steps == [] || (Enabled(s, steps[0]) && LegalRun(Do(s, steps[0]), steps[1..]))
  }

  ghost function Run(s: State, steps: seq<Step>): (t: State)
    requires Inv(s) && LegalRun(s, steps)
    ensures Inv(t)
    decreases |steps|
  {
    if steps == [] then s else Run(Do(s, steps[0]), steps[1..])
  }

  // ----- What the levels are

  ghost predicate Ascending(list: seq<int>) {
    forall i, j :: 0 <= i < j < |list| ==> list[i] < list[j]
  }

  /** Following the links of a level from x one meets exactly these keys, and then NULL. */
  ghost predicate Chain(next: map<Link, Ref>, level: nat, x: Ref, list: seq<int>)
    decreases |list|
  {
    && Link(x, level) in next
    && if list == [] then next[Link(x, level)] == Null
       else next[Link(x, level)] == At(list[0]) && Chain(next, level, At(list[0]), list[1..])
  }

  lemma {:induction false} SortedListOf(keys: set<int>) returns (list: seq<int>)
    ensures Ascending(list) && (forall k :: k in keys ==> k in list) && forall i :: 0 <= i < |list| ==> list[i] in keys
  {
    if exists k :: k in keys {
      var m := Greatest(keys);
      var front := SortedListOf(keys - {m});
      list := front + [m];
    } else {
      list := [];
    }
  }

  lemma {:induction false} Greatest(keys: set<int>) returns (m: int)
    requires exists k :: k in keys
    ensures m in keys && forall k :: k in keys ==> k <= m
  {
    var k :| k in keys;
    if exists j :: j in keys - {k} {
      var j := Greatest(keys - {k});
      m := if j > k then j else k;
      forall i | i in keys ensures i <= m { assert i == k || i in keys - {k}; }
    } else {
      m := k;
      forall i | i in keys ensures i <= m { assert i == k || i in keys - {k}; }
    }
  }

  lemma {:induction false} FollowsChain(s: State, l: nat, x: Ref, list: seq<int>)
    requires LevelsSorted(s) && l < MAX_HEIGHT && InList(x, s.linked[l]) && Ascending(list)
    requires forall k :: k in s.linked[l] && Before(x, At(k)) ==> k in list
    requires forall i :: 0 <= i < |list| ==> list[i] in s.linked[l] && Before(x, At(list[i]))
    ensures Chain(s.next, l, x, list)
    decreases |list|
  {
    var y := s.next[Link(x, l)];
    assert Follows(s.linked[l], x, y);
    if list != [] {
      assert list[0] in s.linked[l] && Before(x, At(list[0]));
      assert y.At? && y.key in list;
      assert y == At(list[0]);
      forall k | k in s.linked[l] && list[0] < k ensures k in list[1..] {
        assert k in list;
        var i :| 0 <= i < |list| && list[i] == k;
        assert list[1..][i - 1] == k;
      }
      FollowsChain(s, l, At(list[0]), list[1..]);
    }
  }

  /** In every reachable state each level is a strictly ascending list, and a sublist of the level below. */
  lemma LevelsAreLists(steps: seq<Step>, l: nat) returns (list: seq<int>)
    requires LegalRun(Start(), steps) && l < MAX_HEIGHT
    ensures var s := Run(Start(), steps);
            && |s.linked| == MAX_HEIGHT && Ascending(list) && Chain(s.next, l, Head, list)
            && (forall i :: 0 <= i < |list| ==> list[i] in s.linked[l]) && (forall k :: k in s.linked[l] ==> k in list)
            && (l > 0 ==> s.linked[l] <= s.linked[l - 1])
  {
    hide LegalRun, Run, WriterInv, ReaderInv;
    var s := Run(Start(), steps);
    list := SortedListOf(s.linked[l]);
    FollowsChain(s, l, Head, list);
    if l > 0 { assert s.linked[l - 1 + 1] <= s.linked[l - 1]; }
  }

  // ----- What lookups return

  ghost predicate Untouched(steps: seq<Step>, id: nat) {
    forall i :: 0 <= i < |steps|
      ==> !(steps[i].StartRead? && steps[i].id == id) && !(steps[i].NextStep? && steps[i].id == id)
  }

  ghost predicate SameSearch(s: State, id: nat, goal: Goal, since: set<int>) {
    id in s.readers && s.readers[id].goal == goal && s.readers[id].since == since
  }

  lemma {:induction false} SearchGoesOn(s: State, steps: seq<Step>, id: nat, goal: Goal, since: set<int>)
    requires Inv(s) && LegalRun(s, steps) && Untouched(steps, id) && SameSearch(s, id, goal, since)
    ensures SameSearch(Run(s, steps), id, goal, since)
    decreases |steps|
  {
    hide Inv;
    if steps != [] {
      StepSearch(s, steps[0], id, goal, since);
      assert Untouched(steps[1..], id);
      SearchGoesOn(Do(s, steps[0]), steps[1..], id, goal, since);
    }
  }

  lemma StepSearch(s: State, step: Step, id: nat, goal: Goal, since: set<int>)
    requires Inv(s) && Enabled(s, step) && SameSearch(s, id, goal, since)
    requires !(step.StartRead? && step.id == id) && !(step.NextStep? && step.id == id)
    ensures SameSearch(Apply(s, step), id, goal, since)
  {
    hide LevelsSorted, WriterInv, ReaderInv;
  }

  /** Whatever runs before and beside it, a lookup that ends has the right answer for all keys whose Insert
      had finished when it began: nothing smaller than its target, and nothing behind a finished key that
      answers it. The key it returns is in the list. */
  lemma LookupIsRight(before: seq<Step>, id: nat, goal: Goal, height: nat, beside: seq<Step>)
    requires LegalRun(Start(), before)
    requires Enabled(Run(Start(), before), StartRead(id, goal, height))
    requires LegalRun(Do(Run(Start(), before), StartRead(id, goal, height)), beside) && Untouched(beside, id)
    ensures var s := Run(Start(), before);
            var t := Run(Do(s, StartRead(id, goal, height)), beside);
            && id in t.readers && |t.linked| == MAX_HEIGHT
            && (t.readers[id].Found? ==>
                  var result := t.readers[id].result;
                  && Right(goal, result, s.finished) && (result.At? ==> result.key in t.linked[0])
                  && (goal.NotBefore? && goal.target in s.finished ==> result == At(goal.target)))
  {
    hide LegalRun, Run, LevelsSorted, WriterInv;
    var s := Run(Start(), before);
    var u := Do(s, StartRead(id, goal, height));
    SearchGoesOn(u, beside, id, goal, s.finished);
    var t := Run(u, beside);
    Bounds(t);
    assert ReaderInv(t, t.readers[id]);
  }
}
