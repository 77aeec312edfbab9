/** What an Insert of skiplist.h leaves behind, and that inserts and lookups come to their ends. */
module SkipInserts {
  import opened SkipLists

  // ----- What an Insert links

  /** The level's keys, with the new one below the height that it was given. */
  function WithKey(keys: set<int>, key: int, l: nat, height: nat): set<int> {
    if l < height then keys + {key} else keys
  }

  /** How far the Insert has come that began with these keys on the levels; height is 0 until it is drawn. */
  ghost predicate Inserting(linked: seq<set<int>>, finished: set<int>, key: int, height: nat, s: State) {
    && |s.linked| == |linked| == MAX_HEIGHT && height <= MAX_HEIGHT
    && match s.writer
       case Searching(k, _, _, _) => k == key && height == 0 && s.linked == linked && s.finished == finished
       case Choosing(k, _) => k == key && height == 0 && s.linked == linked && s.finished == finished
       case Linking(k, h, _, i, _) =>
         && k == key && h == height && i < height && s.finished == finished
         && forall l: nat :: l < MAX_HEIGHT ==> s.linked[l] == WithKey(linked[l], key, l, i)
       case Resting =>
         && height > 0 && s.finished == finished + {key}
         && forall l: nat :: l < MAX_HEIGHT ==> s.linked[l] == WithKey(linked[l], key, l, height)
  }

  /** The height that these steps give the node, 0 if they give it none. */
  function Drawn(height: nat, step: Step): nat {
    if step.ChooseHeight? then step.height else height
  }

  function LastDrawn(height: nat, steps: seq<Step>): nat
    decreases |steps|
  {
    if steps == [] then height else LastDrawn(Drawn(height, steps[0]), steps[1..])
  }

  lemma InsertBegins(s: State, key: int)
    requires Inv(s) && Enabled(s, StartInsert(key))
    ensures Inserting(s.linked, s.finished, key, 0, Apply(s, StartInsert(key)))
  {
    hide WriterInv, ReaderInv;
  }

  lemma InsertGoesOn(linked: seq<set<int>>, finished: set<int>, key: int, height: nat, s: State, step: Step)
    requires Inv(s) && Enabled(s, step) && Inserting(linked, finished, key, height, s) && !step.StartInsert?
    ensures Inserting(linked, finished, key, Drawn(height, step), Apply(s, step))
  {
    hide LevelsSorted, WriterInv, ReaderInv;
    Bounds(s);
  }

  lemma {:induction false} RunGoesOn(linked: seq<set<int>>, finished: set<int>, key: int, height: nat, s: State,
                                     steps: seq<Step>)
    requires Inv(s) && LegalRun(s, steps) && Inserting(linked, finished, key, height, s)
    requires forall i :: 0 <= i < |steps| ==> !steps[i].StartInsert?
    ensures Inserting(linked, finished, key, LastDrawn(height, steps), Run(s, steps))
    decreases |steps|
  {
    hide Inv, Inserting, Enabled, Apply;
    if steps != [] {
      InsertGoesOn(linked, finished, key, height, s, steps[0]);
      RunGoesOn(linked, finished, key, Drawn(height, steps[0]), Do(s, steps[0]), steps[1..]);
    }
  }

  /** Whatever runs beside it, an Insert that has returned has put its key into the levels below the height
      that it drew, into no other, and has changed nothing else on any level. */
  lemma InsertLinks(before: seq<Step>, key: int, beside: seq<Step>)
    requires LegalRun(Start(), before) && Enabled(Run(Start(), before), StartInsert(key))
    requires LegalRun(Do(Run(Start(), before), StartInsert(key)), beside)
    requires forall i :: 0 <= i < |beside| ==> !beside[i].StartInsert?
    ensures var s := Run(Start(), before);
            var t := Run(Do(s, StartInsert(key)), beside);
            t.writer.Resting? ==>
              && |s.linked| == |t.linked| == MAX_HEIGHT && 1 <= LastDrawn(0, beside) <= MAX_HEIGHT
              && t.finished == s.finished + {key}
              && forall l: nat, k :: l < MAX_HEIGHT ==>
                   (k in t.linked[l] <==> k in s.linked[l] || (k == key && l < LastDrawn(0, beside)))
  {
    hide LegalRun, Run, LevelsSorted, WriterInv, ReaderInv, Enabled;
    var s := Run(Start(), before);
    InsertBegins(s, key);
    RunGoesOn(s.linked, s.finished, key, 0, Do(s, StartInsert(key)), beside);
  }

  // ----- Ends

  function Behind(keys: set<int>, x: Ref): set<int> {
    set k | k in keys && Before(x, At(k))
  }

  lemma Fewer(keys: set<int>, x: Ref, y: Ref)
    requires y.At? && y.key in keys && Before(x, y)
    ensures |Behind(keys, y)| < |Behind(keys, x)|
  {
    var a, b := Behind(keys, y), Behind(keys, x);
    assert forall k :: k in a ==> k in b - {y.key};
    Smaller(a, b - {y.key});
    assert y.key in b;
  }

  lemma {:induction false} Smaller(a: set<int>, b: set<int>)
    requires a <= b
    ensures |a| <= |b|
  {
    assert b == a + (b - a);
  }

  /** A load of a search ends it, goes down, or has fewer keys before it on its level. */
  lemma LoadProgresses(s: State, r: Reader)
    requires Inv(s) && r.Seeking? && ReaderInv(s, r)
    ensures var t := Load(s, r);
            t.Seeking? ==>
              || t.level < r.level
              || (t.level == r.level < |s.linked| &&
                  |Behind(s.linked[r.level], t.x)| < |Behind(s.linked[r.level], r.x)|)
  {
    hide WriterInv, Behind;
    var y := s.next[Link(r.x, r.level)];
    assert Follows(s.linked[r.level], r.x, y);
    if y.At? { Fewer(s.linked[r.level], r.x, y); }
  }

  /** A lookup that runs alone ends. */
  lemma {:induction false} LookupEnds(s: State, id: nat) returns (steps: seq<Step>)
    requires Inv(s) && id in s.readers && s.readers[id].Seeking?
    ensures LegalRun(s, steps) && id in Run(s, steps).readers && Run(s, steps).readers[id].Found?
    ensures forall i :: 0 <= i < |steps| ==> steps[i] == ReadStep(id)
    decreases s.readers[id].level, |Behind(s.linked[s.readers[id].level], s.readers[id].x)|
  {
    hide LevelsSorted, WriterInv, Behind;
    Bounds(s);
    var r := s.readers[id];
    assert ReaderInv(s, r);
    LoadProgresses(s, r);
    var t := Do(s, ReadStep(id));
    var rest: seq<Step> := [];
    if t.readers[id].Seeking? {
      rest := LookupEnds(t, id);
    }
    steps := [ReadStep(id)] + rest;
    assert steps[1..] == rest;
  }

  /** What an Insert has before it. */
  ghost function Stage(s: State): (nat, nat, nat)
    requires Inv(s)
  {
    match s.writer
    case Resting => (0, 0, 0)
    case Searching(_, x, level, _) => (3, level, |Behind(s.linked[level], x)|)
    case Choosing(_, _) => (2, 0, 0)
    case Linking(_, height, _, i, copied) => (1, height - i, if copied then 0 else 1)
  }

  ghost predicate Less(a: (nat, nat, nat), b: (nat, nat, nat)) {
    a.0 < b.0 || (a.0 == b.0 && (a.1 < b.1 || (a.1 == b.1 && a.2 < b.2)))
  }

  /** Every step of an Insert brings it nearer to its end. */
  lemma InsertProgresses(s: State, step: Step)
    requires Inv(s) && Enabled(s, step) && WriterStep(step) && !step.StartInsert?
    ensures Less(Stage(Do(s, step)), Stage(s))
  {
    hide ReaderInv, Behind;
    if step.SearchStep? {
      var w := s.writer;
      var y := s.next[Link(w.x, w.level)];
      assert Follows(s.linked[w.level], w.x, y);
      if y.At? { Fewer(s.linked[w.level], w.x, y); }
    }
  }

  /** And until then there is always a step that it can take. */
  lemma InsertCanStep(s: State) returns (step: Step)
    requires Inv(s) && !s.writer.Resting?
    ensures Enabled(s, step) && WriterStep(step) && !step.StartInsert?
  {
    match s.writer
    case Searching(_, _, _, _) => step := SearchStep;
    case Choosing(_, _) => step := ChooseHeight(1);
    case Linking(_, _, _, _, copied) => step := if copied then Publish else CopyLink;
  }

  ghost predicate Undrawn(s: State) {
    s.writer.Searching? || s.writer.Choosing?
  }

  lemma DrawnOnce(s: State, step: Step)
    requires Inv(s) && Enabled(s, step) && WriterStep(step) && !step.StartInsert?
    ensures step.ChooseHeight? ==> Undrawn(s) && !Undrawn(Do(s, step))
    ensures !step.ChooseHeight? ==> (Undrawn(s) <==> Undrawn(Do(s, step)))
  {
    hide LevelsSorted, WriterInv, ReaderInv;
    Bounds(s);
  }

  /** An Insert that runs alone ends, whatever height it draws. */
  lemma {:induction false} InsertEnds(s: State, height: nat) returns (steps: seq<Step>)
    requires Inv(s) && 1 <= height <= MAX_HEIGHT
    ensures LegalRun(s, steps) && Run(s, steps).writer.Resting?
    ensures forall i :: 0 <= i < |steps| ==> WriterStep(steps[i]) && !steps[i].StartInsert?
    ensures forall h: nat :: LastDrawn(h, steps) == if Undrawn(s) then height else h
    decreases Stage(s).0, Stage(s).1, Stage(s).2
  {
    hide Inv, Stage, Do, Undrawn, WriterStep;
    steps := [];
    if s.writer.Resting? {
      NoneDrawn(s);
    } else {
      var step := InsertCanStep(s);
      step := WithHeight(s, step, height);
      InsertProgresses(s, step);
      DrawnOnce(s, step);
      var rest := InsertEnds(Do(s, step), height);
      steps := [step] + rest;
      assert steps[1..] == rest;
    }
  }

  lemma NoneDrawn(s: State)
    requires s.writer.Resting?
    ensures !Undrawn(s)
  {
  }

  lemma WithHeight(s: State, step: Step, height: nat) returns (t: Step)
    requires Inv(s) && Enabled(s, step) && WriterStep(step) && !step.StartInsert? && 1 <= height <= MAX_HEIGHT
    ensures Enabled(s, t) && WriterStep(t) && !t.StartInsert? && (t.ChooseHeight? ==> t.height == height)
  {
    t := if step.ChooseHeight? then ChooseHeight(height) else step;
  }
}
