/** Mounting an object file set from its two alternating logs, and crashes at any moment: RecoverFileSet,
    OpenFileSetForWriting and the logging of external/pdlfs-common/src/ofs_impl.cc and ofs_impl.h. A log here is
    the list of its complete records; module OfsStorage has the bytes. */
module OfsRecovery {
  import opened Coding
  import opened KvBatches
  import opened OfsRecords

  // ----- Recovery

  datatype Time = At(micros: nat) | Unreadable

  /** Access: the time of the first record, or 0 without one. */
  function Access(log: seq<Bytes>): Time {
    if log == [] then At(0) else if |log[0]| < 8 then Unreadable else At(DecodeFixed64(log[0], 0))
  }

  function Replay(log: seq<Bytes>, f: Files): Option<Files> {
    if log == [] then Some(f)
    else
      match RedoUndo(log[0], f)
      case None => None
      case Some(g) => Replay(log[1..], g)
  }

  datatype Choice = NoLog | Newer(which: nat) | Unclear

  /** The log to recover from, by the times of both. */
  function Choose(time1: Time, time2: Time): Choice {
    if time1.Unreadable? || time2.Unreadable? then Unclear
    else if time1.micros == 0 && time2.micros == 0 then NoLog
    else if time1.micros == time2.micros then Unclear
    else Newer(if time1.micros > time2.micros then 0 else 1)
  }

  datatype Recovery = NotFound | Loaded(f: Files, next: nat) | Corruption

  /** RecoverFileSet, on the complete records of the logs: replays the newer log; the other one is next. */
  function Recover(logs: seq<seq<Bytes>>): Recovery
    requires |logs| == 2
  {
    match Choose(Access(logs[0]), Access(logs[1]))
    case NoLog => NotFound
    case Unclear => Corruption
    case Newer(w) =>
      match Replay(logs[w], NOTHING)
      case None => Corruption
      case Some(f) => Loaded(f, 1 - w)
  }

  lemma {:induction false} ReplaySnoc(log: seq<Bytes>, r: Bytes, f: Files)
    ensures Replay(log + [r], f) == match Replay(log, f) { case None => None case Some(g) => RedoUndo(r, g) }
  {
    hide RedoUndo;
    if log == [] {
      assert [] + [r] == [r] && [r][1..] == [];
    } else {
      assert (log + [r])[1..] == log[1..] + [r];
      match RedoUndo(log[0], f)
      case None =>
      case Some(g) => ReplaySnoc(log[1..], r, g);
    }
  }

  // ----- The file set as a state machine

  datatype Phase = Unmounted | Opening(next: nat, f: Files) | Mounted(which: nat, files: map<Bytes, Bytes>)

  /** The logs in the store, the mounted file set, and the time of the newest record. History: the operations
      that have survived, from the beginning of the file set on and whatever log they were written to; and
      how many of them the snapshot of the mounted log stands for. */
  datatype State = State(logs: seq<seq<Bytes>>, phase: Phase, clock: nat, ops: seq<Op>, base: nat)

  datatype Step =
    | Mount | WriteSnapshot(names: seq<Bytes>, objects: seq<Bytes>, now: nat) | Log(op: Op, now: nat) | Unmount
    | Crash(keep: nat)

  /** An operation that the file set logs, with names that replay accepts. */
  ghost predicate Sound(op: Op) {
    && (op.kind == TRY_CREATE_OBJ || op.kind == LINK || op.kind == UNLINK_AND_DEL || op.kind == UNLINK
        || op.kind == OBJ_DELETED)
    && 0 < |op.name1| < WORD32 && |op.name2| < WORD32
    && (op.kind == LINK || op.kind == UNLINK_AND_DEL ==> 0 < |op.name2|)
  }

  ghost predicate Enabled(s: State, step: Step)
    requires |s.logs| == 2
  {
    match step
    case Mount => s.phase.Unmounted? && !Recover(s.logs).Corruption?
    case WriteSnapshot(names, objects, now) =>
      s.phase.Opening? && s.clock < now < WORD64 && Lists(names, s.phase.f.files.Keys)
        && Lists(objects, s.phase.f.garbage)
      && |names| + |objects| < WORD32
    case Log(op, now) => s.phase.Mounted? && s.clock < now < WORD64 && Sound(op)
    case Unmount => s.phase.Mounted?
    case Crash(keep) => s.phase.Mounted? ==> s.phase.which < 2 && keep <= |s.logs[s.phase.which]|
  }

  function ApplyOp(op: Op, files: map<Bytes, Bytes>): map<Bytes, Bytes> {
    if op.kind == LINK then files[op.name1 := op.name2]
    else if op.kind == UNLINK || op.kind == UNLINK_AND_DEL then files - {op.name1}
    else files
  }

  ghost function Apply(s: State, step: Step): State
    requires Inv(s) && Enabled(s, step)
  {
    match step
    case Mount =>
      // The log to write is emptied before it gets its snapshot
      var r := Recover(s.logs);
      if r.NotFound? then s.(logs := s.logs[0 := []], phase := Opening(0, NOTHING))
      else s.(logs := s.logs[r.next := []], phase := Opening(r.next, r.f))
    case WriteSnapshot(names, objects, now) =>
      SnapshotLength(names, objects, s.phase.f);
      s.(logs := s.logs[s.phase.next := [EncodeRecord(now, Snapshot(names, objects, s.phase.f.files))]],
         phase := Mounted(s.phase.next, s.phase.f.files), clock := now, base := |s.ops|)
    case Log(op, now) =>
      var w := s.phase.which;
      s.(logs := s.logs[w := s.logs[w] + [EncodeRecord(now, [op])]], phase := Mounted(w, ApplyOp(op, s.phase.files)),
         clock := now, ops := s.ops + [op])
    case Unmount => s.(phase := Unmounted)
    case Crash(keep) =>
      // The log being written keeps a prefix of its records
      if s.phase.Mounted? then
        var w := s.phase.which;
        s.(logs := s.logs[w := s.logs[w][..keep]], phase := Unmounted,
           ops := if keep == 0 then s.ops[..s.base] else s.ops[..s.base + keep - 1])
      else s.(phase := Unmounted)
  }

  lemma SnapshotLength(names: seq<Bytes>, objects: seq<Bytes>, f: Files)
    requires Lists(names, f.files.Keys) && Lists(objects, f.garbage)
    ensures |Snapshot(names, objects, f.files)| == |names| + |objects|
  {
    LinksLength(names, f.files);
    DeletesLength(objects);
  }

  lemma {:induction false} LinksLength(names: seq<Bytes>, files: map<Bytes, Bytes>)
    requires forall i :: 0 <= i < |names| ==> names[i] in files
    ensures |Links(names, files)| == |names|
  {
    if names != [] { LinksLength(names[..|names| - 1], files); }
  }

  lemma {:induction false} DeletesLength(objects: seq<Bytes>)
    ensures |Deletes(objects)| == |objects|
  {
    if objects != [] { DeletesLength(objects[..|objects| - 1]); }
  }

  // ----- The invariant

  /** Replaying the log gives what the operations, from the beginning on, have made. */
  ghost predicate Restores(log: seq<Bytes>, ops: seq<Op>) {
    Replay(log, NOTHING) == ExecuteAll(ops, NOTHING)
  }

  /** A log that is not being written: it restores everything, or nothing has happened. */
  ghost predicate Intact(log: seq<Bytes>, ops: seq<Op>) {
    if log == [] then ops == [] else Restores(log, ops)
  }

  ghost predicate AllSound(ops: seq<Op>) {
    forall i :: 0 <= i < |ops| ==> Sound(ops[i])
  }

  /** The first record has a time, not later than the clock. */
  ghost predicate Timed(log: seq<Bytes>, clock: nat) {
    Access(log).At? && Access(log).micros <= clock && (log != [] ==> Access(log).micros > 0)
  }

  /** Every prefix of the log being written, from its snapshot on, restores the operations up to there. */
  ghost predicate Current(log: seq<Bytes>, ops: seq<Op>, base: nat) {
    && log != [] && base + |log| - 1 == |ops|
    && forall k :: 1 <= k <= |log| ==> Restores(log[..k], ops[..base + k - 1])
  }

  /** The newer log restores everything. */
  ghost predicate Newest(logs: seq<seq<Bytes>>, ops: seq<Op>)
    requires |logs| == 2 && Access(logs[0]).At? && Access(logs[1]).At?
  {
    var t1, t2 := Access(logs[0]).micros, Access(logs[1]).micros;
    if t1 == 0 && t2 == 0 then ops == [] && logs == [[], []]
    else t1 != t2 && Restores(logs[if t1 > t2 then 0 else 1], ops)
  }

  ghost predicate Inv(s: State) {
    && |s.logs| == 2 && AllSound(s.ops) && Timed(s.logs[0], s.clock) && Timed(s.logs[1], s.clock)
    && match s.phase
       case Unmounted => Newest(s.logs, s.ops)
       case Opening(next, f) =>
         next < 2 && s.logs[next] == [] && Intact(s.logs[1 - next], s.ops) && ExecuteAll(s.ops, NOTHING) == Some(f)
       case Mounted(w, files) =>
         && w < 2 && Access(s.logs[w]).micros > Access(s.logs[1 - w]).micros
         && Current(s.logs[w], s.ops, s.base) && Intact(s.logs[1 - w], s.ops[..s.base])
         && ExecuteAll(s.ops, NOTHING).Some? && ExecuteAll(s.ops, NOTHING).value.files == files
  }

  // ----- Operations

  lemma SoundExecutes(op: Op, f: Files)
    requires Sound(op)
    ensures Execute(op, f).Some? && Execute(op, f).value.files == ApplyOp(op, f.files)
    ensures NamesOk(f) ==> NamesOk(Execute(op, f).value)
  {
  }

  lemma {:induction false} AllExecute(ops: seq<Op>)
    requires AllSound(ops)
    ensures ExecuteAll(ops, NOTHING).Some? && NamesOk(ExecuteAll(ops, NOTHING).value)
  {
    hide Execute;
    if ops != [] {
      var front, last := ops[..|ops| - 1], ops[|ops| - 1];
      AllExecute(front);
      assert ops == front + [last];
      ExecuteJoined(front, [last], NOTHING);
      SoundExecutes(last, ExecuteAll(front, NOTHING).value);
      ExecuteOne(last, ExecuteAll(front, NOTHING).value);
    }
  }

  lemma {:induction false} ExecuteLast(ops: seq<Op>, op: Op)
    requires AllSound(ops) && Sound(op)
    ensures AllSound(ops + [op]) && ExecuteAll(ops, NOTHING).Some?
    ensures ExecuteAll(ops + [op], NOTHING) == Execute(op, ExecuteAll(ops, NOTHING).value)
  {
    hide Execute, Sound;
    AllExecute(ops);
    ExecuteJoined(ops, [op], NOTHING);
    ExecuteOne(op, ExecuteAll(ops, NOTHING).value);
  }

  /** Logging an operation extends what the log restores. */
  lemma LogRestores(log: seq<Bytes>, ops: seq<Op>, op: Op, now: nat)
    requires Restores(log, ops) && AllSound(ops) && Sound(op) && now < WORD64
    ensures Restores(log + [EncodeRecord(now, [op])], ops + [op])
  {
    hide Execute, EncodeRecord, RedoUndo, Replay, ExecuteAll;
    ExecuteLast(ops, op);
    ReplaySnoc(log, EncodeRecord(now, [op]), NOTHING);
    var f := ExecuteAll(ops, NOTHING).value;
    RecordRoundTrip(now, [op], f);
    ExecuteOne(op, f);
  }

  lemma SnapshotIs(names: seq<Bytes>, objects: seq<Bytes>, f: Files, ops: seq<Op>, now: nat)
    requires AllSound(ops) && ExecuteAll(ops, NOTHING) == Some(f) && Lists(names, f.files.Keys)
             && Lists(objects, f.garbage)
    requires now < WORD64 && |Snapshot(names, objects, f.files)| < WORD32
    ensures var r := EncodeRecord(now, Snapshot(names, objects, f.files)); Restores([r], ops) && Access([r]) == At(now)
  {
    hide Execute, EncodeRecord, RedoUndo, ExecuteAll, Snapshot, DecodeFixed64;
    AllExecute(ops);
    SnapshotFits(names, objects, f);
    SnapshotRestores(names, objects, f);
    var r := EncodeRecord(now, Snapshot(names, objects, f.files));
    RecordRoundTrip(now, Snapshot(names, objects, f.files), NOTHING);
    assert [r] == [] + [r];
    ReplaySnoc([], r, NOTHING);
  }

  // ----- Steps keep the invariant

  lemma MountKeeps(s: State)
    requires Inv(s) && Enabled(s, Mount)
    ensures Inv(Apply(s, Mount))
  {
    hide Replay, ExecuteAll, RedoUndo, AllSound, DecodeFixed64;
    NothingYet();
  }

  lemma NothingYet()
    ensures ExecuteAll([], NOTHING) == Some(NOTHING)
  {
  }

  lemma WriteKeeps(s: State, names: seq<Bytes>, objects: seq<Bytes>, now: nat)
    requires Inv(s) && Enabled(s, WriteSnapshot(names, objects, now))
    ensures Inv(Apply(s, WriteSnapshot(names, objects, now)))
  {
    hide Replay, ExecuteAll, RedoUndo, Sound, DecodeFixed64, EncodeRecord, Snapshot, Access;
    SnapshotLength(names, objects, s.phase.f);
    SnapshotIs(names, objects, s.phase.f, s.ops, now);
    var t := Apply(s, WriteSnapshot(names, objects, now));
    assert t.ops[..t.base] == t.ops;
    assert t.logs[s.phase.next][..1] == t.logs[s.phase.next];
  }

  lemma LogKeeps(s: State, op: Op, now: nat)
    requires Inv(s) && Enabled(s, Log(op, now))
    ensures Inv(Apply(s, Log(op, now)))
  {
    hide Replay, ExecuteAll, RedoUndo, Sound, DecodeFixed64, EncodeRecord, Restores, Execute;
    var w, t := s.phase.which, Apply(s, Log(op, now));
    var log := t.logs[w];
    ExecuteLast(s.ops, op);
    SoundExecutes(op, ExecuteAll(s.ops, NOTHING).value);
    forall k | 1 <= k <= |log| ensures Restores(log[..k], t.ops[..s.base + k - 1]) {
      if k < |log| {
        assert log[..k] == s.logs[w][..k] && t.ops[..s.base + k - 1] == s.ops[..s.base + k - 1];
      } else {
        assert s.logs[w][..k - 1] == s.logs[w] && s.ops[..s.base + k - 2] == s.ops;
        LogRestores(s.logs[w], s.ops, op, now);
        assert log[..k] == log && t.ops[..s.base + k - 1] == t.ops;
      }
    }
    assert t.ops[..s.base] == s.ops[..s.base];
  }

  lemma UnmountKeeps(s: State)
    requires Inv(s) && Enabled(s, Unmount)
    ensures Inv(Apply(s, Unmount))
  {
    hide Replay, ExecuteAll, RedoUndo, Sound, DecodeFixed64, Restores;
    var w := s.phase.which;
    assert s.logs[w][..|s.logs[w]|] == s.logs[w] && s.ops[..|s.ops|] == s.ops;
  }

  lemma CrashKeeps(s: State, keep: nat)
    requires Inv(s) && Enabled(s, Crash(keep))
    ensures Inv(Apply(s, Crash(keep)))
  {
    hide Replay, ExecuteAll, RedoUndo, Sound, DecodeFixed64, Restores;
  }

  lemma StepKeeps(s: State, step: Step)
    requires Inv(s) && Enabled(s, step)
    ensures Inv(Apply(s, step))
  {
    hide Inv, Apply;
    match step
    case Mount => MountKeeps(s);
    case WriteSnapshot(names, objects, now) => WriteKeeps(s, names, objects, now);
    case Log(op, now) => LogKeeps(s, op, now);
    case Unmount => UnmountKeeps(s);
    case Crash(keep) => CrashKeeps(s, keep);
  }

  // ----- Runs

  ghost function Start(): (s: State)
    ensures Inv(s)
  {
    State([[], []], Unmounted, 0, [], 0)
  }

  ghost function Do(s: State, step: Step): (t: State)
    requires Inv(s) && Enabled(s, step)
    ensures Inv(t)
  {
    StepKeeps(s, step);
    Apply(s, step)
  }

  ghost predicate LegalRun(s: State, steps: seq<Step>)
    requires Inv(s)
    decreases |steps|
  {
    steps == [] || (Enabled(s, steps[0]) && LegalRun(Do(s, steps[0]), steps[1..]))
  }

  ghost function Run(s: State, steps: seq<Step>): (t: State)
    requires Inv(s) && LegalRun(s, steps)
    ensures Inv(t)
    decreases |steps|
  {
    if steps == [] then s else Run(Do(s, steps[0]), steps[1..])
  }

  /** What an unmounted file set recovers. */
  lemma UnmountedRecovers(s: State)
    requires Inv(s) && s.phase.Unmounted?
    ensures |s.logs| == 2 && ExecuteAll(s.ops, NOTHING).Some?
    ensures match Recover(s.logs)
            case NotFound => s.ops == []
            case Loaded(f, _) => f == ExecuteAll(s.ops, NOTHING).value && LeftBy(f, s.ops)
            case Corruption => false
  {
    hide Replay, ExecuteAll, Sound, DecodeFixed64, LeftBy;
    AllExecute(s.ops);
    ExecuteAllLeaves(s.ops);
  }

  /** After any run of mounts, logged operations, unmounts and crashes, an unmounted file set is never corrupt:
      the next mount finds nothing if nothing was ever written, and otherwise the files and the garbage that
      the surviving operations, from the beginning on, have left: a file is linked by the last operation that
      names it, and an object is garbage if the last operation that names it abandons it. */
  lemma RecoveryIsRight(steps: seq<Step>)
    requires LegalRun(Start(), steps) && Run(Start(), steps).phase.Unmounted?
    ensures var s := Run(Start(), steps);
            && |s.logs| == 2 && ExecuteAll(s.ops, NOTHING).Some?
            && match Recover(s.logs)
               case NotFound => s.ops == []
               case Loaded(f, _) => f == ExecuteAll(s.ops, NOTHING).value && LeftBy(f, s.ops)
               case Corruption => false
  {
    hide LegalRun, Run, Replay, ExecuteAll, Recover, LeftBy;
    UnmountedRecovers(Run(Start(), steps));
  }

  /** A crash loses operations of the mounted log only, and from its end: with keep records left of it, those
      after the snapshot and the first keep - 1 operations; without the snapshot, all since the mount. */
  lemma CrashLosesSuffix(s: State, keep: nat)
    requires Inv(s) && s.phase.Mounted? && keep <= |s.logs[s.phase.which]|
    ensures Enabled(s, Crash(keep))
    ensures var t := Do(s, Crash(keep));
            && t.ops <= s.ops && |t.ops| == s.base + (if keep == 0 then 0 else keep - 1)
            && match Recover(t.logs)
               case NotFound => t.ops == []
               case Loaded(f, next) => Some(f) == ExecuteAll(t.ops, NOTHING) && (keep > 0 ==> next == 1 - s.phase.which)
               case Corruption => false
  {
    hide Replay, ExecuteAll, Sound, DecodeFixed64;
    AllExecute(Do(s, Crash(keep)).ops);
  }

  /** UnlinkFileSet with deletion removes log 1 and then log 2. If it stops in between, the next mount finds
      what the newer log restores when that is log 2; when it is log 1, it finds what log 2 does, the files
      from before the last mount. */
  lemma HalfDeleted(s: State)
    requires Inv(s) && s.phase.Mounted?
    ensures match Recover(s.logs[0 := []])
            case NotFound => s.phase.which == 0 && s.logs[1] == []
            case Loaded(f, _) =>
              Some(f) == if s.phase.which == 0 then ExecuteAll(s.ops[..s.base], NOTHING) else ExecuteAll(s.ops, NOTHING)
            case Corruption => false
  {
    hide Replay, ExecuteAll, Sound, DecodeFixed64;
    AllExecute(s.ops[..s.base]);
    var w := s.phase.which;
    assert s.logs[w][..|s.logs[w]|] == s.logs[w] && s.ops[..|s.ops|] == s.ops;
  }

  // ----- A file that comes back

  lemma {:induction false} RunSnoc(s: State, steps: seq<Step>, last: Step)
    requires Inv(s) && LegalRun(s, steps) && Enabled(Run(s, steps), last)
    ensures LegalRun(s, steps + [last]) && Run(s, steps + [last]) == Do(Run(s, steps), last)
    decreases |steps|
  {
    hide Inv, Enabled, Do;
    if steps == [] {
      assert [] + [last] == [last] && [last][1..] == [];
    } else {
      assert (steps + [last])[1..] == steps[1..] + [last];
      RunSnoc(Do(s, steps[0]), steps[1..], last);
    }
  }

  /** Unmounting and mounting again opens the other log, with everything restored. */
  lemma Remount(s: State)
    requires Inv(s) && s.phase.Mounted?
    ensures Enabled(s, Unmount) && Enabled(Do(s, Unmount), Mount)
    ensures var t := Do(Do(s, Unmount), Mount);
            && s.phase.which < 2 && ExecuteAll(s.ops, NOTHING).Some?
            && t.phase == Opening(1 - s.phase.which, ExecuteAll(s.ops, NOTHING).value)
            && t.ops == s.ops && t.clock == s.clock && |t.logs| == 2
  {
    hide Replay, ExecuteAll, Sound, DecodeFixed64;
    var w := s.phase.which;
    assert s.logs[w][..|s.logs[w]|] == s.logs[w] && s.ops[..|s.ops|] == s.ops;
  }

  /** Mounts s again and writes a snapshot of its one file. */
  lemma RemountRun(steps: seq<Step>, name: Bytes, obj: Bytes) returns (longer: seq<Step>)
    requires LegalRun(Start(), steps)
    requires var s := Run(Start(), steps);
             && s.phase.Mounted? && s.clock + 1 < WORD64
             && ExecuteAll(s.ops, NOTHING) == Some(Files(map[name := obj], {}))
    ensures LegalRun(Start(), longer)
    ensures var s, t := Run(Start(), steps), Run(Start(), longer);
            && t.phase.Mounted? && s.phase.which < 2 && t.phase.which == 1 - s.phase.which && t.ops == s.ops
            && t.base == |s.ops| && t.clock == s.clock + 1
  {
    hide LegalRun, Run, Inv, ExecuteAll, Recover, Snapshot, EncodeRecord;
    var s := Run(Start(), steps);
    Remount(s);
    RunSnoc(Start(), steps, Unmount);
    RunSnoc(Start(), steps + [Unmount], Mount);
    var write := WriteSnapshot([name], [], s.clock + 1);
    longer := steps + [Unmount] + [Mount] + [write];
    RunSnoc(Start(), steps + [Unmount] + [Mount], write);
  }

  /** The older log in HalfDeleted can hold a file that is gone: link a file, mount twice more, unlink it. The
      file set is empty then, as its deletion demands; but if only log 1 is deleted the file is there again. */
  lemma DeletedFileReturns() returns (steps: seq<Step>)
    ensures LegalRun(Start(), steps)
    ensures var s := Run(Start(), steps);
            && s.phase == Mounted(0, map[]) && |s.logs| == 2
            && Recover(s.logs[0 := []]).Loaded? && Recover(s.logs[0 := []]).f.files == map[[97] := [98]]
  {
    hide LegalRun, Run, Inv, Recover, Execute, ExecuteAll, Do;
    var third := ThirdMount();
    var unlink := Log(Op(UNLINK, [97], []), 5);
    UnlinkAllowed(Run(Start(), third));
    steps := third + [unlink];
    RunSnoc(Start(), third, unlink);
    LastUnlinked(Run(Start(), third));
  }

  /** The one file linked, and the set mounted on its first log again. */
  lemma ThirdMount() returns (steps: seq<Step>)
    ensures LegalRun(Start(), steps) && OneFileLinked(Run(Start(), steps))
  {
    hide LegalRun, Run, Inv, Execute, ExecuteAll, Do;
    var first := FirstFile();
    var second := RemountRun(first, [97], [98]);
    steps := RemountRun(second, [97], [98]);
    MountedFiles(Run(Start(), steps));
  }

  ghost predicate OneFileLinked(s: State) {
    && s.phase == Mounted(0, map[[97] := [98]]) && s.clock == 4 && s.ops == [Op(LINK, [97], [98])] && s.base == 1
    && ExecuteAll(s.ops, NOTHING) == Some(Files(map[[97] := [98]], {}))
  }

  lemma UnlinkAllowed(s: State)
    requires Inv(s) && OneFileLinked(s)
    ensures |s.logs| == 2 && Enabled(s, Log(Op(UNLINK, [97], []), 5))
  {
    hide ExecuteAll;
  }

  lemma LastUnlinked(s: State)
    requires Inv(s) && OneFileLinked(s) && |s.logs| == 2 && Enabled(s, Log(Op(UNLINK, [97], []), 5))
    ensures var t := Do(s, Log(Op(UNLINK, [97], []), 5));
            && t.phase == Mounted(0, map[]) && |t.logs| == 2
            && Recover(t.logs[0 := []]).Loaded? && Recover(t.logs[0 := []]).f.files == map[[97] := [98]]
  {
    hide Inv, Recover, Execute, ExecuteAll;
    var t := Do(s, Log(Op(UNLINK, [97], []), 5));
    MountedFiles(t);
    HalfDeleted(t);
    assert t.ops[..t.base] == s.ops;
    NeverNotFound(t);
  }

  /** A file set with one file, made in its first log. */
  lemma FirstFile() returns (steps: seq<Step>)
    ensures LegalRun(Start(), steps)
    ensures var s := Run(Start(), steps);
            && s.phase.Mounted? && s.phase.which == 0 && s.clock == 2 && s.ops == [Op(LINK, [97], [98])]
            && ExecuteAll(s.ops, NOTHING) == Some(Files(map[[97] := [98]], {}))
  {
    hide LegalRun, Run, Inv, Snapshot, EncodeRecord, Execute, ExecuteAll;
    var link := Op(LINK, [97], [98]);
    ExecuteOne(link, NOTHING);
    LinkOne();
    EmptyRun();
    RunSnoc(Start(), [], Mount);
    RunSnoc(Start(), [] + [Mount], WriteSnapshot([], [], 1));
    RunSnoc(Start(), [] + [Mount] + [WriteSnapshot([], [], 1)], Log(link, 2));
    steps := [] + [Mount] + [WriteSnapshot([], [], 1)] + [Log(link, 2)];
    assert [] + [link] == [link];
  }

  lemma LinkOne()
    ensures Execute(Op(LINK, [97], [98]), NOTHING) == Some(Files(map[[97] := [98]], {}))
  {
    var obj: Bytes := [98];
    var none: set<Bytes> := {};
    assert none - {obj} == none;
  }

  lemma EmptyRun()
    ensures LegalRun(Start(), []) && Run(Start(), []) == Start()
  {
  }

  lemma MountedFiles(s: State)
    requires Inv(s) && s.phase.Mounted?
    ensures |s.logs| == 2 && ExecuteAll(s.ops, NOTHING).Some? && ExecuteAll(s.ops, NOTHING).value.files == s.phase.files
  {
    hide ExecuteAll, Restores, Intact, Current, Timed, Newest, AllSound, Access;
  }

  /** With operations from before the mount there is something in the other log. */
  lemma NeverNotFound(s: State)
    requires Inv(s) && s.phase.Mounted? && 0 < s.base <= |s.ops|
    ensures Recover(s.logs[0 := []]) != NotFound
  {
    hide Inv, Recover, Access;
    SecondLogTimed(s);
    var left := s.logs[0 := []];
    OneTimeIsFound(left);
  }

  lemma OneTimeIsFound(logs: seq<seq<Bytes>>)
    requires |logs| == 2 && |logs[0]| == 0 && Access(logs[1]).At? && Access(logs[1]).micros > 0
    ensures Recover(logs) != NotFound
  {
    hide Replay;
    assert Choose(Access(logs[0]), Access(logs[1])) == Newer(1);
  }

  lemma SecondLogTimed(s: State)
    requires Inv(s) && s.phase.Mounted? && 0 < s.base <= |s.ops|
    ensures |s.logs| == 2 && Access(s.logs[1]).At? && Access(s.logs[1]).micros > 0
  {
    hide ExecuteAll, Replay, Access, Restores, Sound;
    assert |s.ops[..s.base]| == s.base;
  }

  // ----- Collecting garbage

  /** The objects that the store has deleted, noted in order. */
  function Deletions(objects: seq<Bytes>, done: seq<bool>): seq<Op>
    requires |done| == |objects|
  {
    if objects == [] then []
    else
      var n := |objects| - 1;
      Deletions(objects[..n], done[..n]) + if done[n] then [Op(OBJ_DELETED, objects[n], [])] else []
  }

  lemma NoDeletions()
    ensures Deletions([], []) == []
  {
  }

  lemma DeletionsSnoc(objects: seq<Bytes>, done: seq<bool>, i: nat)
    requires i < |objects| == |done|
    ensures Deletions(objects[..i + 1], done[..i + 1]) ==
            Deletions(objects[..i], done[..i]) + if done[i] then [Op(OBJ_DELETED, objects[i], [])] else []
  {
    assert objects[..i + 1][..i] == objects[..i] && done[..i + 1][..i] == done[..i];
  }

  /** After it an object is garbage exactly if it was and has not been deleted. */
  lemma {:induction false} DeletionsLeave(ops: seq<Op>, objects: seq<Bytes>, done: seq<bool>, x: Bytes)
    requires |done| == |objects|
    ensures LastAbandons(ops + Deletions(objects, done), x) <==>
            LastAbandons(ops, x) && forall i :: 0 <= i < |objects| && objects[i] == x ==> !done[i]
  {
    hide LastAbandons;
    if objects == [] {
      assert ops + [] == ops;
    } else {
      var n := |objects| - 1;
      var front, kept := objects[..n], done[..n];
      DeletionsLeave(ops, front, kept, x);
      assert forall i :: 0 <= i < n ==> front[i] == objects[i] && kept[i] == done[i];
      if done[n] {
        var op := Op(OBJ_DELETED, objects[n], []);
        assert ops + Deletions(objects, done) == ops + Deletions(front, kept) + [op];
        AbandonsSnoc(ops + Deletions(front, kept), op, x);
      } else {
        assert Deletions(front, kept) + [] == Deletions(front, kept);
      }
    }
  }

  // ----- The mounted file set

  /** FileSet: logs first, then updates its map. */
  class FileSet {
    var files: map<Bytes, Bytes>
    var log: seq<Bytes>
    ghost var ops: seq<Op>

    /** The log restores the map. */
    ghost predicate Valid()
      reads this
    {
      AllSound(ops) && Restores(log, ops) && ExecuteAll(ops, NOTHING).Some?
        && ExecuteAll(ops, NOTHING).value.files == files
    }

    constructor (names: seq<Bytes>, objects: seq<Bytes>, f: Files, ghost ops: seq<Op>, now: nat)
      requires AllSound(ops) && ExecuteAll(ops, NOTHING) == Some(f) && Lists(names, f.files.Keys)
               && Lists(objects, f.garbage)
      requires now < WORD64 && |names| + |objects| < WORD32
      ensures Valid() && files == f.files && this.ops == ops
    {
      SnapshotLength(names, objects, f);
      SnapshotIs(names, objects, f, ops, now);
      files, log, this.ops := f.files, [EncodeRecord(now, Snapshot(names, objects, f.files))], ops;
    }

    method AddRecord(op: Op, now: nat)
      requires AllSound(ops) && Restores(log, ops) && Sound(op) && now < WORD64
      modifies this`log, this`ops
      ensures log == old(log) + [EncodeRecord(now, [op])] && ops == old(ops) + [op]
      ensures AllSound(ops) && Restores(log, ops) && ExecuteAll(old(ops), NOTHING).Some?
      ensures ExecuteAll(ops, NOTHING) == Execute(op, ExecuteAll(old(ops), NOTHING).value)
    {
      hide Restores, Sound, Execute, ExecuteAll;
      LogRestores(log, ops, op, now);
      ExecuteLast(ops, op);
      log := log + [EncodeRecord(now, [op])];
      ops := ops + [op];
    }

    method TryCreateObject(obj: Bytes, now: nat)
      requires Valid() && 0 < |obj| < WORD32 && now < WORD64
      modifies this
      ensures Valid() && files == old(files) && ops == old(ops) + [Op(TRY_CREATE_OBJ, obj, [])]
    {
      hide Restores, AllSound, ExecuteAll;
      AddRecord(Op(TRY_CREATE_OBJ, obj, []), now);
    }

    method Link(name: Bytes, obj: Bytes, now: nat)
      requires Valid() && 0 < |name| < WORD32 && 0 < |obj| < WORD32 && now < WORD64
      modifies this
      ensures Valid() && files == old(files)[name := obj] && ops == old(ops) + [Op(LINK, name, obj)]
    {
      hide Restores, AllSound, ExecuteAll;
      AddRecord(Op(LINK, name, obj), now);
      files := files[name := obj];
    }

    method UnlinkAndDelete(name: Bytes, obj: Bytes, now: nat)
      requires Valid() && 0 < |name| < WORD32 && 0 < |obj| < WORD32 && now < WORD64
      modifies this
      ensures Valid() && files == old(files) - {name} && ops == old(ops) + [Op(UNLINK_AND_DEL, name, obj)]
    {
      hide Restores, AllSound, ExecuteAll;
      AddRecord(Op(UNLINK_AND_DEL, name, obj), now);
      files := files - {name};
    }

    method Unlink(name: Bytes, now: nat)
      requires Valid() && 0 < |name| < WORD32 && now < WORD64
      modifies this
      ensures Valid() && files == old(files) - {name} && ops == old(ops) + [Op(UNLINK, name, [])]
    {
      hide Restores, AllSound, ExecuteAll;
      AddRecord(Op(UNLINK, name, []), now);
      files := files - {name};
    }

    method DeletedObject(obj: Bytes, now: nat)
      requires Valid() && 0 < |obj| < WORD32 && now < WORD64
      modifies this
      ensures Valid() && files == old(files) && ops == old(ops) + [Op(OBJ_DELETED, obj, [])]
    {
      hide Restores, AllSound, ExecuteAll;
      AddRecord(Op(OBJ_DELETED, obj, []), now);
    }

    /** The garbage collection of a mount: deletes each object that may be garbage, and notes those that the
        store has deleted. */
    method CollectGarbage(objects: seq<Bytes>, done: seq<bool>, now: nat)
      requires Valid() && |done| == |objects| && now + |objects| < WORD64
      requires forall i :: 0 <= i < |objects| ==> 0 < |objects[i]| < WORD32
      modifies this
      ensures Valid() && files == old(files) && ops == old(ops) + Deletions(objects, done)
    {
      hide Valid;
      NoDeletions();
      var i := 0;
      while i < |objects|
        invariant 0 <= i <= |objects| && Valid() && files == old(files)
        invariant ops == old(ops) + Deletions(objects[..i], done[..i])
      {
        DeletionsSnoc(objects, done, i);
        if done[i] {
          DeletedObject(objects[i], now + i);
        }
        i := i + 1;
      }
      assert objects[..i] == objects && done[..i] == done;
    }

    // ----- File operations; done says whether the object store did its part

    /** PutFile and NewWritableFile: announces the object, makes it, and links it. */
    method PutFile(name: Bytes, objectName: Bytes, done: bool, now: nat) returns (good: bool)
      requires Valid() && 0 < |name| < WORD32 && 0 < |objectName| < WORD32 && now + 1 < WORD64
      requires forall k :: k in files ==> 0 < |files[k]| < WORD32
      modifies this
      ensures Valid() && good == done
      ensures var obj := if name in old(files) then old(files)[name] else objectName;
              && files == (if done then old(files)[name := obj] else old(files))
              && ops == old(ops) + [Op(TRY_CREATE_OBJ, obj, [])] + if done then [Op(LINK, name, obj)] else []
    {
      hide Valid;
      var obj := if name in files then files[name] else objectName;
      TryCreateObject(obj, now);
      if done {
        Link(name, obj, now + 1);
      }
      good := done;
    }

    /** DeleteFile: unlinks the file, deletes its object, and notes that it is gone; a failed deletion is left
        to the next mount. */
    method DeleteFile(name: Bytes, done: bool, now: nat) returns (found: bool)
      requires Valid() && |name| < WORD32 && now + 1 < WORD64
      requires forall k :: k in files ==> 0 < |k| && 0 < |files[k]| < WORD32
      modifies this
      ensures Valid() && found == (name in old(files)) && files == old(files) - {name}
      ensures ops == old(ops) + (if found then [Op(UNLINK_AND_DEL, name, old(files)[name])] else [])
                              + if found && done then [Op(OBJ_DELETED, old(files)[name], [])] else []
    {
      hide Valid;
      if name !in files {
        assert files - {name} == files;
        return false;
      }
      var obj := files[name];
      UnlinkAndDelete(name, obj, now);
      if done {
        DeletedObject(obj, now + 1);
      }
      found := true;
    }
  }

  // ----- Operations on two file sets, which may be the same

  /** Rename: links the object to its new name before it unlinks the old one. */
  method Rename(sset: FileSet, dset: FileSet, from: Bytes, to: Bytes, now: nat) returns (good: bool)
    requires sset.Valid() && dset.Valid() && |from| < WORD32 && 0 < |to| < WORD32 && now + 1 < WORD64
    requires forall k :: k in sset.files ==> 0 < |k| && 0 < |sset.files[k]| < WORD32
    modifies sset, dset
    ensures sset.Valid() && dset.Valid() && good == (from in old(sset.files) && to !in old(dset.files))
    ensures good ==> var obj := old(sset.files)[from];
                     && (sset != dset ==>
                           && dset.files == old(dset.files)[to := obj]
                             && dset.ops == old(dset.ops) + [Op(LINK, to, obj)]
                           && sset.files == old(sset.files) - {from}
                             && sset.ops == old(sset.ops) + [Op(UNLINK, from, [])])
                     && (sset == dset ==>
                           && sset.files == old(sset.files)[to := obj] - {from}
                           && sset.ops == old(sset.ops) + [Op(LINK, to, obj)] + [Op(UNLINK, from, [])])
    ensures !good ==> sset.files == old(sset.files) && sset.ops == old(sset.ops)
    ensures !good ==> dset.files == old(dset.files) && dset.ops == old(dset.ops)
  {
    hide FileSet.Valid;
    if from !in sset.files {
      return false;
    }
    var obj := sset.files[from];
    if to in dset.files {
      return false;
    }
    dset.Link(to, obj, now);
    sset.Unlink(from, now + 1);
    good := true;
  }

  /** CopyFile: the copy gets the object that the name has, or a new one; done says whether the object store
      made the copy. */
  method CopyFile(sset: FileSet, dset: FileSet, from: Bytes, to: Bytes, objectName: Bytes, done: bool, now: nat)
    returns (found: bool, source: Bytes, good: bool)
    requires sset.Valid() && dset.Valid() && 0 < |to| < WORD32 && 0 < |objectName| < WORD32 && now + 1 < WORD64
    requires forall k :: k in dset.files ==> 0 < |dset.files[k]| < WORD32
    modifies dset
    ensures sset.Valid() && dset.Valid() && found == (from in old(sset.files)) && good == (found && done)
    ensures found ==> source == old(sset.files)[from]
    ensures found ==> var obj := if to in old(dset.files) then old(dset.files)[to] else objectName;
                      && dset.files == (if done then old(dset.files)[to := obj] else old(dset.files))
                      && dset.ops == old(dset.ops) + [Op(TRY_CREATE_OBJ, obj, [])]
                        + if done then [Op(LINK, to, obj)] else []
    ensures !found ==> dset.files == old(dset.files) && dset.ops == old(dset.ops)
  {
    hide FileSet.Valid;
    if from !in sset.files {
      return false, [], false;
    }
    found, source := true, sset.files[from];
    good := dset.PutFile(to, objectName, done, now);
  }
}
