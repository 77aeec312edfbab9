/** The log records of an object file set and what replaying them does: external/pdlfs-common/src/ofs_impl.h
    and ofs_impl.cc. */
module OfsRecords {
  import opened Coding
  import opened KvBatches
  import opened Sequences

  // ----- Operations

  const NO_OP: Byte := 0x00
  const TRY_CREATE_OBJ: Byte := 0x01
  const UNLINK_AND_DEL: Byte := 0x02
  const DEL_OBJ: Byte := 0x03
  const UNLINK: Byte := 0xf0
  const LINK: Byte := 0xf1
  const OBJ_DELETED: Byte := 0xf2

  datatype Op = Op(kind: Byte, name1: Bytes, name2: Bytes)

  /** The files of a set with their objects, and the objects that may be garbage. */
  datatype Files = Files(files: map<Bytes, Bytes>, garbage: set<Bytes>)

  const NOTHING: Files := Files(map[], {})

  datatype Option<T> = Some(value: T) | None

  /** Execute, behind its parsing. */
  function Execute(op: Op, f: Files): Option<Files> {
    if op.kind == TRY_CREATE_OBJ || op.kind == DEL_OBJ then
      if op.name1 == [] then None else Some(f.(garbage := f.garbage + {op.name1}))
    else if op.kind == LINK then
      if op.name1 == [] || op.name2 == [] then None
      else Some(Files(f.files[op.name1 := op.name2], f.garbage - {op.name2}))
    else if op.kind == UNLINK_AND_DEL then
      if op.name1 == [] || op.name2 == [] then None
      else Some(Files(f.files - {op.name1}, f.garbage + {op.name2}))
    else if op.kind == UNLINK then
      if op.name1 == [] then None else Some(f.(files := f.files - {op.name1}))
    else if op.kind == OBJ_DELETED then
      if op.name1 == [] then None else Some(f.(garbage := f.garbage - {op.name1}))
    else if op.kind == NO_OP then Some(f)
    else None
  }

  function ExecuteAll(ops: seq<Op>, f: Files): Option<Files> {
    if ops == [] then Some(f)
    else
      match Execute(ops[0], f)
      case None => None
      case Some(g) => ExecuteAll(ops[1..], g)
  }

  lemma {:induction false} ExecuteJoined(a: seq<Op>, b: seq<Op>, f: Files)
    ensures ExecuteAll(a + b, f) == match ExecuteAll(a, f) { case None => None case Some(g) => ExecuteAll(b, g) }
  {
    hide Execute;
    if a == [] {
      assert a + b == b;
    } else {
      assert (a + b)[1..] == a[1..] + b;
      match Execute(a[0], f)
      case None =>
      case Some(g) => ExecuteJoined(a[1..], b, g);
    }
  }

  // ----- What a run of operations means, operation by operation

  /** A kind that replay knows, with the names it needs. */
  ghost predicate Accepted(op: Op) {
    match op.kind
    case 0x00 => true
    case 0x01 => op.name1 != []
    case 0x02 => op.name1 != [] && op.name2 != []
    case 0x03 => op.name1 != []
    case 0xf0 => op.name1 != []
    case 0xf1 => op.name1 != [] && op.name2 != []
    case 0xf2 => op.name1 != []
    case _ => false
  }

  /** The operation names the object x, as what it makes, links or deletes. */
  ghost predicate NamesObject(op: Op, x: Bytes) {
    || (op.kind in {TRY_CREATE_OBJ, DEL_OBJ, OBJ_DELETED} && op.name1 == x)
    || (op.kind in {LINK, UNLINK_AND_DEL} && op.name2 == x)
  }

  /** It does so as something that may be garbage from then on. */
  ghost predicate Abandons(op: Op, x: Bytes) {
    NamesObject(op, x) && op.kind in {TRY_CREATE_OBJ, DEL_OBJ, UNLINK_AND_DEL}
  }

  /** The operation says what the file k is, or that there is none. */
  ghost predicate NamesFile(op: Op, k: Bytes) {
    op.kind in {LINK, UNLINK, UNLINK_AND_DEL} && op.name1 == k
  }

  /** Of the operations that name the object, the last abandons it. */
  ghost predicate LastAbandons(ops: seq<Op>, x: Bytes) {
    exists i :: 0 <= i < |ops| && Abandons(ops[i], x) && forall j :: i < j < |ops| ==> !NamesObject(ops[j], x)
  }

  /** Of the operations that name the file, the last links it to the object. */
  ghost predicate LastLinks(ops: seq<Op>, k: Bytes, x: Bytes) {
    exists i :: 0 <= i < |ops| && ops[i] == Op(LINK, k, x) && forall j :: i < j < |ops| ==> !NamesFile(ops[j], k)
  }

  /** The files and the garbage are those that the operations left, each by the last that names it. */
  ghost predicate LeftBy(f: Files, ops: seq<Op>) {
    && (forall x :: x in f.garbage <==> LastAbandons(ops, x))
    && (forall k, x :: k in f.files && f.files[k] == x <==> LastLinks(ops, k, x))
  }

  lemma AbandonsSnoc(ops: seq<Op>, op: Op, x: Bytes)
    ensures LastAbandons(ops + [op], x) <==> Abandons(op, x) || (!NamesObject(op, x) && LastAbandons(ops, x))
  {
    hide Abandons, NamesObject;
    var all := ops + [op];
    if Abandons(op, x) { assert all[|ops|] == op; }
    if LastAbandons(ops, x) && !NamesObject(op, x) {
      var i :| 0 <= i < |ops| && Abandons(ops[i], x) && forall j :: i < j < |ops| ==> !NamesObject(ops[j], x);
      assert all[i] == ops[i];
    }
    if LastAbandons(all, x) {
      var i :| 0 <= i < |all| && Abandons(all[i], x) && forall j :: i < j < |all| ==> !NamesObject(all[j], x);
      if i < |ops| {
        assert all[|ops|] == op;
        assert forall j :: i < j < |ops| ==> ops[j] == all[j];
        assert ops[i] == all[i];
      }
    }
  }

  lemma LinksSnoc(ops: seq<Op>, op: Op, k: Bytes, x: Bytes)
    ensures LastLinks(ops + [op], k, x) <==> op == Op(LINK, k, x) || (!NamesFile(op, k) && LastLinks(ops, k, x))
  {
    hide NamesFile;
    var all := ops + [op];
    if op == Op(LINK, k, x) { assert all[|ops|] == op; }
    if LastLinks(ops, k, x) && !NamesFile(op, k) {
      var i :| 0 <= i < |ops| && ops[i] == Op(LINK, k, x) && forall j :: i < j < |ops| ==> !NamesFile(ops[j], k);
      assert all[i] == ops[i];
    }
    if LastLinks(all, k, x) {
      var i :| 0 <= i < |all| && all[i] == Op(LINK, k, x) && forall j :: i < j < |all| ==> !NamesFile(all[j], k);
      if i < |ops| {
        assert all[|ops|] == op;
        assert forall j :: i < j < |ops| ==> ops[j] == all[j];
        assert ops[i] == all[i];
      }
    }
  }

  lemma OneOperation(op: Op, f: Files)
    ensures Execute(op, f).Some? <==> Accepted(op)
  {
  }

  lemma GarbageAfter(op: Op, f: Files, x: Bytes)
    requires Accepted(op) && Execute(op, f).Some?
    ensures x in Execute(op, f).value.garbage <==> Abandons(op, x) || (!NamesObject(op, x) && x in f.garbage)
  {
  }

  lemma FileAfter(op: Op, f: Files, k: Bytes, x: Bytes)
    requires Accepted(op) && Execute(op, f).Some?
    ensures var g := Execute(op, f).value.files;
            k in g && g[k] == x <==> op == Op(LINK, k, x) || (!NamesFile(op, k) && k in f.files && f.files[k] == x)
  {
  }

  ghost predicate AllAccepted(ops: seq<Op>) {
    forall i :: 0 <= i < |ops| ==> Accepted(ops[i])
  }

  lemma AcceptedSnoc(ops: seq<Op>, op: Op)
    ensures AllAccepted(ops + [op]) <==> AllAccepted(ops) && Accepted(op)
  {
    hide Accepted;
    var all := ops + [op];
    assert all[|ops|] == op && forall i :: 0 <= i < |ops| ==> all[i] == ops[i];
  }

  /** Replay accepts exactly the runs of accepted operations, and what it leaves each file and each object is
      by the last operation that names it. */
  lemma {:induction false} ExecuteAllLeaves(ops: seq<Op>)
    ensures ExecuteAll(ops, NOTHING).Some? <==> AllAccepted(ops)
    ensures ExecuteAll(ops, NOTHING).Some? ==> LeftBy(ExecuteAll(ops, NOTHING).value, ops)
  {
    hide Execute, Accepted, Abandons, NamesObject, NamesFile, LastAbandons, LastLinks, AllAccepted, ExecuteAll;
    if ops == [] {
      NothingLeft();
    } else {
      var front, last := ops[..|ops| - 1], ops[|ops| - 1];
      assert ops == front + [last];
      ExecuteAllLeaves(front);
      ExecuteJoined(front, [last], NOTHING);
      AcceptedSnoc(front, last);
      if ExecuteAll(front, NOTHING).Some? {
        var f := ExecuteAll(front, NOTHING).value;
        ExecuteOne(last, f);
        OneOperation(last, f);
        if Accepted(last) { OneMoreLeaves(front, last, f); }
      }
    }
  }

  lemma OneMoreLeaves(ops: seq<Op>, op: Op, f: Files)
    requires LeftBy(f, ops) && Accepted(op) && Execute(op, f).Some?
    ensures LeftBy(Execute(op, f).value, ops + [op])
  {
    hide Execute, Accepted, Abandons, NamesObject, NamesFile, LastAbandons, LastLinks;
    var g := Execute(op, f).value;
    forall x ensures x in g.garbage <==> LastAbandons(ops + [op], x) {
      AbandonsSnoc(ops, op, x);
      GarbageAfter(op, f, x);
    }
    forall k, x ensures k in g.files && g.files[k] == x <==> LastLinks(ops + [op], k, x) {
      LinksSnoc(ops, op, k, x);
      FileAfter(op, f, k, x);
    }
  }

  lemma NothingLeft()
    ensures ExecuteAll([], NOTHING) == Some(NOTHING) && LeftBy(NOTHING, []) && AllAccepted([])
  {
  }

  // ----- Records

  function EncodeOp(op: Op): Bytes {
    [op.kind] + (LengthPrefixed(op.name1) + LengthPrefixed(op.name2))
  }

  function EncodeOps(ops: seq<Op>): Bytes {
    if ops == [] then [] else EncodeOp(ops[0]) + EncodeOps(ops[1..])
  }

  ghost predicate FitsRecord(time: nat, ops: seq<Op>) {
    time < WORD64 && |ops| < WORD32 && forall i :: 0 <= i < |ops| ==> |ops[i].name1| < WORD32 && |ops[i].name2| < WORD32
  }

  function EncodeRecord(time: nat, ops: seq<Op>): Bytes
    requires time < WORD64 && |ops| < WORD32
  {
    Fixed64(time) + (Fixed32(|ops|) + EncodeOps(ops))
  }

  datatype ParsedOp = ParsedOp(op: Op, next: nat) | NoOp

  function ParseOp(data: Bytes, p: nat): (r: ParsedOp)
    requires p <= |data|
    ensures r.ParsedOp? ==> p < r.next <= |data|
  {
    if p == |data| then NoOp
    else
      match ParsePiece(data, p + 1)
      case NoPiece => NoOp
      case Piece(name1, q) =>
        match ParsePiece(data, q)
        case NoPiece => NoOp
        case Piece(name2, next) => ParsedOp(Op(data[p], name1, name2), next)
  }

  function ExecuteParsed(data: Bytes, p: nat, n: nat, f: Files): Option<Files>
    requires p <= |data|
    decreases n
  {
    if n == 0 then Some(f)
    else
      match ParseOp(data, p)
      case NoOp => None
      case ParsedOp(op, next) =>
        match Execute(op, f)
        case None => None
        case Some(g) => ExecuteParsed(data, next, n - 1, g)
  }

  /** RedoUndo: replays a record; None is a corruption. */
  function RedoUndo(record: Bytes, f: Files): Option<Files> {
    if |record| < 12 then None else ExecuteParsed(record, 12, DecodeFixed32(record, 8), f)
  }

  method RedoUndoLoop(record: Bytes, f: Files) returns (r: Option<Files>)
    ensures r == RedoUndo(record, f)
  {
    hide Execute, ParseOp;
    if |record| < 8 {
      return None;
    }
    if |record| < 12 {
      return None;
    }
    var n, p: nat, g := DecodeFixed32(record, 8), 12, f;
    while n > 0
      invariant p <= |record| && RedoUndo(record, f) == ExecuteParsed(record, p, n, g)
    {
      var parsed := ParseOp(record, p);
      if parsed.NoOp? {
        return None;
      }
      var done := Execute(parsed.op, g);
      if done.None? {
        return None;
      }
      p, g := parsed.next, done.value;
      n := n - 1;
    }
    return Some(g);
  }

  lemma OpRoundTrip(data: Bytes, p: nat, op: Op)
    requires Holds(data, p, EncodeOp(op)) && |op.name1| < WORD32 && |op.name2| < WORD32
    ensures p <= |data| && ParseOp(data, p) == ParsedOp(op, p + |EncodeOp(op)|)
  {
    hide LengthPrefixed, ParsePiece;
    HoldsAt(data, p, EncodeOp(op), 0);
    HoldsParts(data, p, [op.kind], LengthPrefixed(op.name1) + LengthPrefixed(op.name2));
    HoldsParts(data, p + 1, LengthPrefixed(op.name1), LengthPrefixed(op.name2));
    PieceRoundTrip(data, p + 1, op.name1);
    PieceRoundTrip(data, p + 1 + |LengthPrefixed(op.name1)|, op.name2);
  }

  lemma {:induction false} OpsRoundTrip(data: Bytes, p: nat, ops: seq<Op>, f: Files)
    requires Holds(data, p, EncodeOps(ops))
    requires forall i :: 0 <= i < |ops| ==> |ops[i].name1| < WORD32 && |ops[i].name2| < WORD32
    ensures p <= |data| && ExecuteParsed(data, p, |ops|, f) == ExecuteAll(ops, f)
    decreases |ops|
  {
    hide Execute, EncodeOp, ParseOp;
    if ops != [] {
      HoldsParts(data, p, EncodeOp(ops[0]), EncodeOps(ops[1..]));
      OpRoundTrip(data, p, ops[0]);
      match Execute(ops[0], f)
      case None =>
      case Some(g) => OpsRoundTrip(data, p + |EncodeOp(ops[0])|, ops[1..], g);
    }
  }

  /** Replaying a record does what its operations say, and its first bytes are its time. */
  lemma RecordRoundTrip(time: nat, ops: seq<Op>, f: Files)
    requires FitsRecord(time, ops)
    ensures var r := EncodeRecord(time, ops);
            |r| >= 12 && DecodeFixed64(r, 0) == time && RedoUndo(r, f) == ExecuteAll(ops, f)
  {
    hide Fixed64, Fixed32, DecodeFixed64, DecodeFixed32, EncodeOps;
    var r := EncodeRecord(time, ops);
    assert Holds(r, 0, Fixed64(time));
    HoldsSuffix(Fixed64(time), Fixed32(|ops|) + EncodeOps(ops));
    HoldsParts(r, 8, Fixed32(|ops|), EncodeOps(ops));
    Fixed64RoundTrip(r, 0, time);
    Fixed32RoundTrip(r, 8, |ops|);
    OpsRoundTrip(r, 12, ops, f);
  }

  // ----- Snapshots

  /** The names in some order, each once. */
  ghost predicate Lists(names: seq<Bytes>, s: set<Bytes>) {
    && (forall i, j :: 0 <= i < j < |names| ==> names[i] != names[j])
    && (forall i :: 0 <= i < |names| ==> names[i] in s) && forall x :: x in s ==> x in names
  }

  function Links(names: seq<Bytes>, files: map<Bytes, Bytes>): seq<Op>
    requires forall i :: 0 <= i < |names| ==> names[i] in files
  {
    if names == [] then []
    else
      var front, last := names[..|names| - 1], names[|names| - 1];
      Links(front, files) + [Op(LINK, last, files[last])]
  }

  function Deletes(objects: seq<Bytes>): seq<Op> {
    if objects == [] then [] else Deletes(objects[..|objects| - 1]) + [Op(DEL_OBJ, objects[|objects| - 1], [])]
  }

  /** MakeSnapshot: the files in the order of the table, then the garbage. */
  function Snapshot(names: seq<Bytes>, objects: seq<Bytes>, files: map<Bytes, Bytes>): seq<Op>
    requires forall i :: 0 <= i < |names| ==> names[i] in files
  {
    Links(names, files) + Deletes(objects)
  }

  ghost predicate NamesOk(f: Files) {
    && (forall k :: k in f.files ==> 0 < |k| < WORD32 && 0 < |f.files[k]| < WORD32)
    && forall x :: x in f.garbage ==> 0 < |x| < WORD32
  }

  /** The map restricted to some names. */
  function Restrict(files: map<Bytes, Bytes>, names: seq<Bytes>): map<Bytes, Bytes> {
    map k | k in files && k in names :: files[k]
  }

  lemma {:induction false} LinksRestore(names: seq<Bytes>, f: Files)
    requires NamesOk(f) && forall i :: 0 <= i < |names| ==> names[i] in f.files
    ensures ExecuteAll(Links(names, f.files), NOTHING) == Some(Files(Restrict(f.files, names), {}))
  {
    if names == [] {
      assert Restrict(f.files, names) == map[];
      assert Links(names, f.files) == [];
    } else {
      var front, last := names[..|names| - 1], names[|names| - 1];
      LinksRestore(front, f);
      var op := Op(LINK, last, f.files[last]);
      ExecuteJoined(Links(front, f.files), [op], NOTHING);
      ExecuteOne(op, Files(Restrict(f.files, front), {}));
      assert names == front + [last];
      assert {} - {op.name2} == {};
      assert Restrict(f.files, front)[last := f.files[last]] == Restrict(f.files, names);
    }
  }

  lemma ExecuteOne(op: Op, f: Files)
    ensures ExecuteAll([op], f) == Execute(op, f)
  {
    assert [op][1..] == [];
    hide Execute;
    match Execute(op, f)
    case None =>
    case Some(g) => assert ExecuteAll([], g) == Some(g);
  }

  function Members(objects: seq<Bytes>): set<Bytes> {
    set x | x in objects
  }

  lemma {:induction false} DeletesRestore(objects: seq<Bytes>, f: Files)
    requires forall i :: 0 <= i < |objects| ==> objects[i] != []
    ensures ExecuteAll(Deletes(objects), f) == Some(f.(garbage := f.garbage + Members(objects)))
  {
    if objects == [] {
      assert f.garbage + Members(objects) == f.garbage;
    } else {
      var front, last := objects[..|objects| - 1], objects[|objects| - 1];
      DeletesRestore(front, f);
      var g := f.(garbage := f.garbage + Members(front));
      ExecuteJoined(Deletes(front), [Op(DEL_OBJ, last, [])], f);
      ExecuteOne(Op(DEL_OBJ, last, []), g);
      assert objects == front + [last];
      assert g.garbage + {last} == f.garbage + Members(objects);
    }
  }

  /** Replaying a snapshot restores the files and the garbage. */
  lemma SnapshotRestores(names: seq<Bytes>, objects: seq<Bytes>, f: Files)
    requires NamesOk(f) && Lists(names, f.files.Keys) && Lists(objects, f.garbage)
    ensures ExecuteAll(Snapshot(names, objects, f.files), NOTHING) == Some(f)
  {
    hide Execute, ExecuteAll;
    LinksRestore(names, f);
    DeletesRestore(objects, Files(Restrict(f.files, names), {}));
    ExecuteJoined(Links(names, f.files), Deletes(objects), NOTHING);
    assert Restrict(f.files, names) == f.files;
    assert {} + Members(objects) == f.garbage;
  }

  lemma {:induction false} SnapshotFits(names: seq<Bytes>, objects: seq<Bytes>, f: Files)
    requires NamesOk(f) && (forall i :: 0 <= i < |names| ==> names[i] in f.files) && forall i :: 0 <= i < |objects| ==>
             objects[i] in f.garbage
    ensures var ops := Snapshot(names, objects, f.files);
            |ops| == |names| + |objects| && forall i :: 0 <= i < |ops| ==>
              |ops[i].name1| < WORD32 && |ops[i].name2| < WORD32
  {
    LinksFit(names, f);
    DeletesFit(objects, f);
  }

  lemma {:induction false} LinksFit(names: seq<Bytes>, f: Files)
    requires NamesOk(f) && forall i :: 0 <= i < |names| ==> names[i] in f.files
    ensures var ops := Links(names, f.files);
            |ops| == |names| && forall i :: 0 <= i < |ops| ==> |ops[i].name1| < WORD32 && |ops[i].name2| < WORD32
  {
    if names != [] { LinksFit(names[..|names| - 1], f); }
  }

  lemma {:induction false} DeletesFit(objects: seq<Bytes>, f: Files)
    requires NamesOk(f) && forall i :: 0 <= i < |objects| ==> objects[i] in f.garbage
    ensures var ops := Deletes(objects);
            |ops| == |objects| && forall i :: 0 <= i < |ops| ==> |ops[i].name1| < WORD32 && |ops[i].name2| < WORD32
  {
    if objects != [] { DeletesFit(objects[..|objects| - 1], f); }
  }
}
