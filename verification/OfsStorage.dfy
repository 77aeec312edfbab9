/** Object file sets down to the bytes of their logs: RecoverFileSet of external/pdlfs-common/src/ofs_impl.cc
    over the log reader, and crashes that cut the log being written at any byte. */
module OfsStorage {
  import opened Coding
  import opened OfsRecords
  import opened OfsRecovery
  import ByteBits
  import LogFormat
  import LogFiles

  // ----- Records as octets

  function OctetOf(b: Byte): bv8 {
    ByteOfByteRange();
    ByteBits.ByteOf(b, 8)
  }

  lemma ByteOfByteRange()
    ensures ByteBits.Pow2(8) == 256
  {
    ByteBits.SmallPowers();
  }

  function Octets(b: Bytes): (o: seq<bv8>)
    ensures |o| == |b|
  {
    seq(|b|, i requires 0 <= i < |b| => OctetOf(b[i]))
  }

  function Numbers(o: seq<bv8>): (b: Bytes)
    ensures |b| == |o|
  {
    seq(|o|, i requires 0 <= i < |o| => o[i] as int)
  }

  lemma NumbersOfOctets(b: Bytes)
    ensures Numbers(Octets(b)) == b
  {
    var c := Numbers(Octets(b));
    hide OctetOf;
    forall i | 0 <= i < |b| ensures c[i] == b[i] { OctetValue(b[i]); }
  }

  lemma OctetValue(b: Byte)
    ensures OctetOf(b) as int == b
  {
    hide ByteBits.ByteOf, ByteBits.LowBits, ByteBits.Pow2;
    ByteOfByteRange();
    ByteBits.ByteOfValue(b, 8);
    ByteBits.ByteValue(OctetOf(b));
  }

  function AllOctets(log: seq<Bytes>): (o: seq<seq<bv8>>)
    ensures |o| == |log|
  {
    seq(|log|, i requires 0 <= i < |log| => Octets(log[i]))
  }

  // ----- Scanning and recovering

  datatype Scanned = Entry(record: Bytes, next: nat) | NoMore | Dropped

  /** The next record of a scanner at position q; any report makes its status a corruption. */
  function Scan(file: seq<bv8>, q: nat): (s: Scanned)
    requires q <= |file|
    ensures s.Entry? ==> q < s.next <= |file|
  {
    var r := LogFormat.ReadLogical(file, true, q, false, []);
    if r.drops != [] then Dropped
    else
      match r.found
      case NoRecord => NoMore
      case Record(data) => Entry(Numbers(data), r.next)
  }

  function AccessFile(file: seq<bv8>): Time {
    match Scan(file, 0)
    case Dropped => Unreadable
    case NoMore => At(0)
    case Entry(record, _) => if |record| < 8 then Unreadable else At(DecodeFixed64(record, 0))
  }

  function ReplayFile(file: seq<bv8>, q: nat, f: Files): Option<Files>
    requires q <= |file|
    decreases |file| - q
  {
    match Scan(file, q)
    case Dropped => None
    case NoMore => Some(f)
    case Entry(record, next) =>
      match RedoUndo(record, f)
      case None => None
      case Some(g) => ReplayFile(file, next, g)
  }

  /** What RecoverFileSet makes of the bytes of the two logs; a log that does not exist is empty. */
  function RecoverFiles(files: seq<seq<bv8>>): Recovery
    requires |files| == 2
  {
    match Choose(AccessFile(files[0]), AccessFile(files[1]))
    case NoLog => NotFound
    case Unclear => Corruption
    case Newer(w) =>
      match ReplayFile(files[w], 0, NOTHING)
      case None => Corruption
      case Some(f) => Loaded(f, 1 - w)
  }

  method Access(file: seq<bv8>) returns (time: Time)
    ensures time == AccessFile(file)
  {
    hide LogFormat.ReadLogical;
    var reader := new LogFiles.Reader(file, true);
    var found := reader.ReadRecord();
    if reader.drops != [] {
      return Unreadable;
    }
    match found
    case NoRecord => return At(0);
    case Record(data) =>
      var record := Numbers(data);
      return if |record| < 8 then Unreadable else At(DecodeFixed64(record, 0));
  }

  method RecoverFileSet(files: seq<seq<bv8>>) returns (r: Recovery)
    requires |files| == 2
    ensures r == RecoverFiles(files)
  {
    hide LogFormat.ReadLogical, RedoUndo, AccessFile;
    var time1 := Access(files[0]);
    var time2 := Access(files[1]);
    var choice := Choose(time1, time2);
    if choice.Unclear? {
      return Corruption;
    }
    if choice.NoLog? {
      return NotFound;
    }
    var file := files[choice.which];
    var reader := new LogFiles.Reader(file, true);
    var f := NOTHING;
    ghost var q := 0;
    var found := reader.ReadRecord();
    while reader.drops == [] && found.Record?
      invariant reader.Valid() && reader.file == file && reader.checksum && q <= |file|
      invariant var r := LogFormat.ReadLogical(file, true, q, false, []);
                found == r.found && reader.Position() == r.next && reader.drops == r.drops
      invariant ReplayFile(file, 0, NOTHING) == ReplayFile(file, q, f)
      decreases |file| - q
    {
      var done := RedoUndoLoop(Numbers(found.data), f);
      if done.None? {
        return Corruption;
      }
      f := done.value;
      q := reader.Position();
      found := reader.ReadRecord();
    }
    if reader.drops != [] {
      return Corruption;
    }
    return Loaded(f, 1 - choice.which);
  }

  // ----- Files and the records they hold

  /** Reading the file gives exactly these records and no report. */
  ghost predicate ReadsAs(file: seq<bv8>, q: nat, log: seq<Bytes>) {
    q <= |file| && LogFormat.ReadRun(file, true, q) == LogFormat.Contents(AllOctets(log), [])
  }

  lemma ScanStep(file: seq<bv8>, q: nat, log: seq<Bytes>)
    requires ReadsAs(file, q, log)
    ensures log == [] ==> Scan(file, q).NoMore?
    ensures log != [] ==>
              var s := Scan(file, q);
              s.Entry? && s.record == log[0] && ReadsAs(file, s.next, log[1..])
  {
    hide LogFormat.ReadLogical;
    var r := LogFormat.ReadLogical(file, true, q, false, []);
    if r.found.Record? {
      var rest := LogFormat.ReadRun(file, true, r.next);
      assert ([r.found.data] + rest.records)[0] == AllOctets(log)[0] == Octets(log[0]);
      assert ([r.found.data] + rest.records)[1..] == rest.records;
      assert AllOctets(log)[1..] == AllOctets(log[1..]);
      NumbersOfOctets(log[0]);
    }
  }

  lemma {:induction false} ReplaySame(file: seq<bv8>, q: nat, log: seq<Bytes>, f: Files)
    requires ReadsAs(file, q, log)
    ensures ReplayFile(file, q, f) == Replay(log, f)
    decreases |log|
  {
    hide Scan, RedoUndo, LogFormat.ReadRun;
    ScanStep(file, q, log);
    if log != [] {
      match RedoUndo(log[0], f)
      case None =>
      case Some(g) => ReplaySame(file, Scan(file, q).next, log[1..], g);
    }
  }

  lemma AccessSame(file: seq<bv8>, log: seq<Bytes>)
    requires ReadsAs(file, 0, log)
    ensures AccessFile(file) == OfsRecovery.Access(log)
  {
    hide LogFormat.ReadLogical, LogFormat.ReadRun;
    ScanStep(file, 0, log);
  }

  /** Recovery sees no more of the files than their records. */
  lemma RecoverSame(files: seq<seq<bv8>>, logs: seq<seq<Bytes>>)
    requires |files| == 2 && |logs| == 2 && ReadsAs(files[0], 0, logs[0]) && ReadsAs(files[1], 0, logs[1])
    ensures RecoverFiles(files) == Recover(logs)
  {
    hide AccessFile, OfsRecovery.Access, ReplayFile, Replay, ReadsAs;
    AccessSame(files[0], logs[0]);
    AccessSame(files[1], logs[1]);
    ReplaySame(files[0], 0, logs[0], NOTHING);
    ReplaySame(files[1], 0, logs[1], NOTHING);
  }

  // ----- Files that are written

  function LogBytes(log: seq<Bytes>): seq<bv8> {
    LogFormat.RunBytes(0, AllOctets(log))
  }

  /** Appending to a log of q bytes. */
  function Appended(file: seq<bv8>, record: Bytes): seq<bv8> {
    file + LogFormat.RecordBytes(|file|, Octets(record), true)
  }

  lemma {:induction false} RunSnoc(q: nat, records: seq<seq<bv8>>, r: seq<bv8>)
    ensures LogFormat.RunBytes(q, records + [r]) ==
            LogFormat.RunBytes(q, records) + LogFormat.RecordBytes(q + |LogFormat.RunBytes(q, records)|, r, true)
    decreases |records|
  {
    hide LogFormat.RecordBytes;
    if records == [] {
      assert ([] + [r])[1..] == [];
    } else {
      var next := q + |LogFormat.RecordBytes(q, records[0], true)|;
      RunSnoc(next, records[1..], r);
      assert (records + [r])[1..] == records[1..] + [r];
    }
  }

  lemma AppendedIs(log: seq<Bytes>, record: Bytes)
    ensures Appended(LogBytes(log), record) == LogBytes(log + [record])
  {
    hide LogFormat.RecordBytes, LogFormat.RunBytes, Octets;
    assert AllOctets(log + [record]) == AllOctets(log) + [Octets(record)];
    RunSnoc(0, AllOctets(log), Octets(record));
  }

  /** How many records of a log lie wholly in its first p bytes. */
  function Whole(log: seq<Bytes>, p: nat): (n: nat)
    ensures n <= |log|
  {
    LogFormat.Complete(0, AllOctets(log), p)
  }

  /** A written log that is cut at any byte reads as its records before the cut. */
  lemma CutReads(log: seq<Bytes>, p: nat)
    requires p <= |LogBytes(log)|
    ensures ReadsAs(LogBytes(log)[..p], 0, log[..Whole(log, p)])
  {
    hide LogFormat.RunBytes, LogFormat.Complete, LogFormat.ReadRun, Octets;
    var file, n := LogBytes(log)[..p], Whole(log, p);
    assert file[0..] == file;
    LogFormat.ReadBackRun(file, true, 0, AllOctets(log));
    assert AllOctets(log)[..n] == AllOctets(log[..n]);
  }

  lemma WrittenReads(log: seq<Bytes>)
    ensures ReadsAs(LogBytes(log), 0, log)
  {
    hide LogFormat.RunBytes, LogFormat.Complete, LogFormat.ReadRun, Octets;
    assert LogBytes(log)[0..] == LogBytes(log) == LogBytes(log)[..|LogBytes(log)|];
    CutReads(log, |LogBytes(log)|);
    AllWhole(0, AllOctets(log), |LogBytes(log)|);
    assert log[..|log|] == log;
  }

  lemma {:induction false} AllWhole(q: nat, records: seq<seq<bv8>>, p: nat)
    requires q + |LogFormat.RunBytes(q, records)| <= p
    ensures LogFormat.Complete(q, records, p) == |records|
    decreases |records|
  {
    hide LogFormat.RecordBytes;
    if records != [] { AllWhole(q + |LogFormat.RecordBytes(q, records[0], true)|, records[1..], p); }
  }

  // ----- The file set on bytes

  /** The bytes of both logs, and the rest as in OfsRecovery.State; kept are the records that the bytes hold. */
  datatype Disk = Disk(files: seq<seq<bv8>>, phase: Phase, clock: nat, ops: seq<Op>, base: nat, kept: seq<seq<Bytes>>)

  function View(d: Disk): State {
    State(d.kept, d.phase, d.clock, d.ops, d.base)
  }

  /** A step of the machine on records other than a crash, or a crash that keeps some bytes of the log being
      written: within the snapshot, within a later record, or behind everything. */
  datatype Event = Does(step: Step) | Cut(bytes: nat)

  ghost predicate Allowed(d: Disk, e: Event)
    requires |d.files| == 2 && |d.kept| == 2
  {
    match e
    case Cut(p) => d.phase.Mounted? ==> d.phase.which < 2 && p <= |d.files[d.phase.which]|
    case Does(Crash(_)) => false
    case Does(Mount) => d.phase.Unmounted? && !RecoverFiles(d.files).Corruption?
    case Does(step) => Enabled(View(d), step)
  }

  ghost predicate DiskInv(d: Disk) {
    && Inv(View(d)) && |d.files| == 2 && ReadsAs(d.files[0], 0, d.kept[0]) && ReadsAs(d.files[1], 0, d.kept[1])
    && (d.phase.Opening? ==> d.files[d.phase.next] == [])
    && (d.phase.Mounted? ==> d.files[d.phase.which] == LogBytes(d.kept[d.phase.which]))
  }

  ghost function After(d: Disk, e: Event): Disk
    requires DiskInv(d) && Allowed(d, e)
  {
    match e
    case Does(Mount) =>
      var r := RecoverFiles(d.files);
      var next := if r.NotFound? then 0 else r.next;
      RecoverSame(d.files, d.kept);
      d.(files := d.files[next := []], kept := d.kept[next := []],
         phase := Opening(next, if r.NotFound? then NOTHING else r.f))
    case Does(WriteSnapshot(names, objects, now)) =>
      SnapshotLength(names, objects, d.phase.f);
      var w, record := d.phase.next, EncodeRecord(now, Snapshot(names, objects, d.phase.f.files));
      d.(files := d.files[w := Appended(d.files[w], record)], kept := d.kept[w := [record]],
         phase := Mounted(w, d.phase.f.files), clock := now, base := |d.ops|)
    case Does(Log(op, now)) =>
      var w, record := d.phase.which, EncodeRecord(now, [op]);
      d.(files := d.files[w := Appended(d.files[w], record)], kept := d.kept[w := d.kept[w] + [record]],
         phase := Mounted(w, ApplyOp(op, d.phase.files)), clock := now, ops := d.ops + [op])
    case Does(_) => d.(phase := Unmounted)
    case Cut(p) =>
      if d.phase.Mounted? then
        var w := d.phase.which;
        var n := Whole(d.kept[w], p);
        d.(files := d.files[w := d.files[w][..p]], kept := d.kept[w := d.kept[w][..n]], phase := Unmounted,
           ops := if n == 0 then d.ops[..d.base] else d.ops[..d.base + n - 1])
      else d.(phase := Unmounted)
  }

  /** What the event is on records. */
  ghost function OnRecords(d: Disk, e: Event): Step
    requires |d.kept| == 2 && (e.Cut? && d.phase.Mounted? ==> d.phase.which < 2)
  {
    match e
    case Does(step) => step
    case Cut(p) => Crash(if d.phase.Mounted? then Whole(d.kept[d.phase.which], p) else 0)
  }

  /** Every event on bytes is a step on records, a cut at a byte one that keeps the whole records. */
  lemma EventIsStep(d: Disk, e: Event)
    requires DiskInv(d) && Allowed(d, e)
    ensures Enabled(View(d), OnRecords(d, e)) && View(After(d, e)) == Apply(View(d), OnRecords(d, e))
  {
    hide Inv, ReadsAs, RecoverFiles, Recover, LogBytes, Whole, Sound, Snapshot, EncodeRecord, Appended;
    InvShape(d);
    RecoverSame(d.files, d.kept);
  }

  lemma InvShape(d: Disk)
    requires DiskInv(d)
    ensures |d.kept| == 2 && (d.phase.Mounted? ==> d.phase.which < 2)
    ensures d.phase.Opening? ==> d.phase.next < 2 && d.kept[d.phase.next] == []
  {
    hide Timed, Newest, Current, Intact;
  }

  lemma EventKeeps(d: Disk, e: Event)
    requires DiskInv(d) && Allowed(d, e)
    ensures DiskInv(After(d, e))
  {
    hide Inv, Apply, LogBytes, Whole, ReadsAs, Sound, Snapshot, EncodeRecord, Appended, RecoverFiles;
    InvShape(d);
    EventIsStep(d, e);
    StepKeeps(View(d), OnRecords(d, e));
    FilesKept(d, e);
  }

  lemma FilesKept(d: Disk, e: Event)
    requires DiskInv(d) && Allowed(d, e)
    ensures var t := After(d, e);
            && |t.files| == 2 && |t.kept| == 2 && ReadsAs(t.files[0], 0, t.kept[0]) && ReadsAs(t.files[1], 0, t.kept[1])
            && (t.phase.Opening? ==> t.phase.next < 2 && t.files[t.phase.next] == [])
            && (t.phase.Mounted? ==> t.phase.which < 2 && t.files[t.phase.which] == LogBytes(t.kept[t.phase.which]))
  {
    hide Inv, LogBytes, Whole, ReadsAs, Sound, Snapshot, EncodeRecord, Appended, RecoverFiles;
    InvShape(d);
    NoRecords();
    match e
    case Does(Mount) =>
      RecoveredNext(d.files);
      WrittenReads([]);
    case Does(WriteSnapshot(names, objects, now)) =>
      SnapshotLength(names, objects, d.phase.f);
      var record := EncodeRecord(now, Snapshot(names, objects, d.phase.f.files));
      AppendedIs([], record);
      assert [] + [record] == [record];
      WrittenReads([record]);
    case Does(Log(op, now)) =>
      var log, record := d.kept[d.phase.which], EncodeRecord(now, [op]);
      AppendedIs(log, record);
      WrittenReads(log + [record]);
    case Does(_) =>
    case Cut(p) =>
      if d.phase.Mounted? { CutReads(d.kept[d.phase.which], p); }
  }

  lemma NoRecords()
    ensures LogBytes([]) == []
  {
  }

  lemma RecoveredNext(files: seq<seq<bv8>>)
    requires |files| == 2
    ensures RecoverFiles(files).Loaded? ==> RecoverFiles(files).next < 2
  {
    hide AccessFile, ReplayFile;
  }

  // ----- Runs

  lemma EmptyDisk()
    ensures DiskInv(Disk([[], []], Unmounted, 0, [], 0, [[], []]))
  {
    hide ReadsAs, Inv;
    WrittenReads([]);
    NoRecords();
    assert View(Disk([[], []], Unmounted, 0, [], 0, [[], []])) == OfsRecovery.Start();
  }

  ghost function NewDisk(): (d: Disk)
    ensures DiskInv(d)
  {
    EmptyDisk();
    Disk([[], []], Unmounted, 0, [], 0, [[], []])
  }

  ghost predicate LegalEvents(d: Disk, events: seq<Event>)
    requires DiskInv(d)
    decreases |events|
  {
    events == [] || (Allowed(d, events[0]) && LegalEvents(Next(d, events[0]), events[1..]))
  }

  ghost function Next(d: Disk, e: Event): (t: Disk)
    requires DiskInv(d) && Allowed(d, e)
    ensures DiskInv(t)
  {
    EventKeeps(d, e);
    After(d, e)
  }

  ghost function Events(d: Disk, events: seq<Event>): (t: Disk)
    requires DiskInv(d) && LegalEvents(d, events)
    ensures DiskInv(t)
    decreases |events|
  {
    if events == [] then d else Events(Next(d, events[0]), events[1..])
  }

  /** After any run of mounts, logged operations, unmounts and crashes at any byte, an unmounted file set is
      never corrupt: from the bytes of the logs the next mount finds the files and the garbage that the
      surviving operations, from the beginning on, have left, each by the last of them that names it. */
  lemma ByteRecoveryIsRight(events: seq<Event>)
    requires LegalEvents(NewDisk(), events) && Events(NewDisk(), events).phase.Unmounted?
    ensures var d := Events(NewDisk(), events);
            && |d.files| == 2 && ExecuteAll(d.ops, NOTHING).Some?
            && match RecoverFiles(d.files)
               case NotFound => d.ops == []
               case Loaded(f, _) => f == ExecuteAll(d.ops, NOTHING).value && LeftBy(f, d.ops)
               case Corruption => false
  {
    hide LegalEvents, Events, RecoverFiles, Recover, ExecuteAll, ReadsAs, Inv, LeftBy;
    var d := Events(NewDisk(), events);
    InvShape(d);
    RecoverSame(d.files, d.kept);
    UnmountedRecovers(View(d));
  }

  /** A crash that leaves p bytes of the log being written loses exactly the operations whose records, in the
      order they were logged since the mount, do not lie wholly in those bytes: with the snapshot cut too, all
      of them. The next mount finds what the others have made. */
  lemma CutLosesSuffix(d: Disk, p: nat)
    requires DiskInv(d) && d.phase.Mounted? && Allowed(d, Cut(p))
    ensures var t := Next(d, Cut(p)); var records := AllOctets(d.kept[d.phase.which]);
            && t.ops <= d.ops && d.base <= |t.ops|
            && (forall k: nat :: 0 < k < |records| ==>
                  (d.base + k - 1 < |t.ops| <==> LogFormat.WrittenThrough(records, k) <= p))
            && match RecoverFiles(t.files)
               case NotFound => t.ops == []
               case Loaded(f, _) => Some(f) == ExecuteAll(t.ops, NOTHING) && LeftBy(f, t.ops)
               case Corruption => false
  {
    hide RecoverFiles, Recover, ExecuteAll, ReadsAs, Inv, LeftBy, LogFormat.Complete, LogFormat.RunBytes;
    InvShape(d);
    var w, t := d.phase.which, Next(d, Cut(p));
    var records := AllOctets(d.kept[w]);
    OpsOfLog(d);
    forall k: nat | k < |records| ensures k < Whole(d.kept[w], p) <==> LogFormat.WrittenThrough(records, k) <= p {
      LogFormat.CompleteMeansWritten(0, records, p, k);
    }
    InvShape(t);
    RecoverSame(t.files, t.kept);
    UnmountedRecovers(View(t));
  }

  lemma OpsOfLog(d: Disk)
    requires DiskInv(d) && d.phase.Mounted?
    ensures |d.kept| == 2 && d.phase.which < 2 && d.base + |d.kept[d.phase.which]| - 1 == |d.ops|
    ensures |d.kept[d.phase.which]| > 0
  {
  }
}
