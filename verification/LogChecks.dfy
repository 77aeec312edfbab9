/** What reading with checksums promises of any file at all, damaged or not: log_reader.cc of
    external/pdlfs-common delivers only what carries the right checksums, and reports what it drops. */
module LogChecks {
  import opened ByteBits
  import opened Crc32c
  import opened Crc32cStandard
  import opened LogFormat

  /** A fragment of the file at a position. */
  datatype Part = Part(pos: nat, code: bv8, payload: seq<bv8>)

  /** It lies in one block, and its header has its length, its type and the masked checksum of type and
      payload. */
  ghost predicate IsFragment(file: seq<bv8>, p: Part) {
    var end := p.pos + HEADER + |p.payload|;
    && end <= |file| && p.pos % BLOCK + HEADER + |p.payload| <= BLOCK
    && DecodeFixed16(file[p.pos + 4..p.pos + 6]) == |p.payload| && file[p.pos + 6] == p.code
    && file[p.pos + HEADER..end] == p.payload
    && DecodeFixed32(file[p.pos..p.pos + 4]) == Mask(Value([p.code] + p.payload))
  }

  function End(p: Part): nat {
    p.pos + HEADER + |p.payload|
  }

  /** Where ReadPhysical finds the next header: behind what is left of a block that is too short for one. */
  function HeaderAt(file: seq<bv8>, q: nat): nat {
    if BLOCK - q % BLOCK < HEADER then q + (BLOCK - q % BLOCK) else q
  }

  /** The type and payload that are returned are those of a fragment with the right checksum. */
  lemma {:induction false} PhysicalIsChecked(file: seq<bv8>, q: nat)
    requires q <= |file|
    ensures var r := ReadPhysical(file, true, q);
            r.code != EOF && r.code != BAD_RECORD ==>
              var p := Part(HeaderAt(file, q), r.code, r.payload);
              IsFragment(file, p) && r.next == End(p) && r.drops == []
    decreases |file| - q
  {
    hide DecodeFixed16, DecodeFixed32, Value, Mask, Unmask;
    var end := BlockEnd(file, q);
    if end - q < HEADER {
      if end == q - q % BLOCK + BLOCK {
        assert end % BLOCK == 0;
        PhysicalIsChecked(file, end);
      }
    } else {
      var length := DecodeFixed16(file[q + 4..q + 6]);
      if HEADER + length <= end - q {
        var t, payload := file[q + 6], file[q + HEADER..q + HEADER + length];
        assert file[q + 6..q + HEADER + length] == [t] + payload;
        MaskRoundTrip(Value([t] + payload));
        MaskRoundTrip(DecodeFixed32(file[q..q + 4]));
      }
    }
  }

  /** Where a header is, a length that leaves the block or a checksum that is not that of type and payload drops
      the rest of the block, and reports it. Only a zero header, as preallocated files have them, is dropped in
      silence, and a length that leaves a file which ends inside the block is taken for a torn write. */
  lemma DamageIsReported(file: seq<bv8>, q: nat)
    requires q <= |file| && q + HEADER <= BlockEnd(file, q)
    ensures var end := BlockEnd(file, q); var full := end % BLOCK == 0;
            var length := DecodeFixed16(file[q + 4..q + 6]);
            && (HEADER + length > end - q && full ==>
                  ReadPhysical(file, true, q) == Physical(BAD_RECORD, [], end, [end - q]))
            && (HEADER + length > end - q && !full ==> ReadPhysical(file, true, q) == Physical(EOF, [], |file|, []))
            && (HEADER + length <= end - q && (file[q + 6] != ZERO_TYPE || length > 0)
                && DecodeFixed32(file[q..q + 4]) != Mask(Value(file[q + 6..q + HEADER + length])) ==>
                  ReadPhysical(file, true, q) == Physical(BAD_RECORD, [], end, [end - q]))
  {
    hide DecodeFixed16, DecodeFixed32, Value, Mask, Unmask;
    var end := BlockEnd(file, q);
    FullBlock(file, q);
    MaskRoundTrip(DecodeFixed32(file[q..q + 4]));
  }

  lemma FullBlock(file: seq<bv8>, q: nat)
    requires q <= |file| && q < BlockEnd(file, q)
    ensures BlockEnd(file, q) == q - q % BLOCK + BLOCK <==> BlockEnd(file, q) % BLOCK == 0
  {
    var start := q - q % BLOCK;
    assert start == BLOCK * (q / BLOCK);
    var end := BlockEnd(file, q);
    assert end == start + (end - start) && 0 < end - start <= BLOCK;
  }

  // ----- Logical records

  /** Fragments of the file one behind the other, all before some position. */
  ghost predicate Chain(file: seq<bv8>, parts: seq<Part>, from: nat, to: nat) {
    && (forall i :: 0 <= i < |parts| ==> IsFragment(file, parts[i]) && from <= parts[i].pos && End(parts[i]) <= to)
    && forall i, j :: 0 <= i < j < |parts| ==> End(parts[i]) <= parts[j].pos
  }

  function Joined(parts: seq<Part>): seq<bv8> {
    if parts == [] then [] else Joined(parts[..|parts| - 1]) + parts[|parts| - 1].payload
  }

  /** A first fragment and middle ones. */
  ghost predicate Begins(parts: seq<Part>) {
    && |parts| > 0 && parts[0].code == FIRST
    && forall i :: 0 < i < |parts| ==> parts[i].code == MIDDLE
  }

  /** One full fragment, or a first one, middle ones and a last one. */
  ghost predicate MakesRecord(parts: seq<Part>) {
    || (|parts| == 1 && parts[0].code == FULL)
    || (|parts| > 1 && Begins(parts[..|parts| - 1]) && parts[|parts| - 1].code == LAST)
  }

  lemma ChainSnoc(file: seq<bv8>, parts: seq<Part>, p: Part, from: nat, q: nat, to: nat)
    requires Chain(file, parts, from, q) && IsFragment(file, p) && from <= q <= p.pos && End(p) == to
    ensures Chain(file, parts + [p], from, to) && Joined(parts + [p]) == Joined(parts) + p.payload
    ensures Chain(file, [p], from, to) && Joined([p]) == p.payload
  {
    hide IsFragment;
    assert (parts + [p])[..|parts|] == parts;
    assert [p][..0] == [] && [] + p.payload == p.payload;
  }

  /** What a reader with checksums has gathered so far. */
  ghost predicate Gathered(file: seq<bv8>, parts: seq<Part>, from: nat, q: nat, fragmented: bool, scratch: seq<bv8>) {
    fragmented ==> Chain(file, parts, from, q) && Begins(parts) && Joined(parts) == scratch
  }

  /** A record that is delivered is made of fragments of the file with the right checksums, whole and in order. */
  lemma {:induction false} LogicalIsChecked(file: seq<bv8>, q: nat, fragmented: bool, scratch: seq<bv8>,
                                            parts: seq<Part>, from: nat) returns (all: seq<Part>)
    requires from <= q <= |file| && Gathered(file, parts, from, q, fragmented, scratch)
    ensures var r := ReadLogical(file, true, q, fragmented, scratch);
            r.found.Record? ==> MakesRecord(all) && Chain(file, all, from, r.next) && Joined(all) == r.found.data
    decreases |file| - q
  {
    hide IsFragment, ReadPhysical, Chain, Joined, Begins;
    var r := ReadPhysical(file, true, q);
    PhysicalIsChecked(file, q);
    all := [];
    var p := Part(HeaderAt(file, q), r.code, r.payload);
    var fine := r.code != EOF && r.code != BAD_RECORD;
    if fine {
      NoChain(file, from, q);
      ChainSnoc(file, if fragmented then parts else [], p, from, q, r.next);
    }
    match Handle(r.code, r.payload, fragmented, scratch)
    case Stop(found, _) =>
      if found.Record? {
        all := if r.code == FULL then [p] else parts + [p];
        assert (parts + [p])[..|parts|] == parts;
        BeginsMeans(parts);
      }
    case Continue(fragmented', scratch', _) =>
      var next := if r.code == FIRST then [p] else if fine && fragmented then parts + [p] else [];
      BeginsMore(parts, p);
      all := LogicalIsChecked(file, r.next, fragmented', scratch', next, from);
  }

  lemma NoChain(file: seq<bv8>, from: nat, q: nat)
    ensures Chain(file, [], from, q)
  {
  }

  lemma BeginsMeans(parts: seq<Part>)
    ensures Begins(parts) ==> |parts| > 0
  {
  }

  lemma BeginsMore(parts: seq<Part>, p: Part)
    ensures p.code == FIRST ==> Begins([p])
    ensures Begins(parts) && p.code == MIDDLE ==> Begins(parts + [p])
  {
  }

  /** So every record that a file read with checksums yields is made of such fragments, each behind the last. */
  lemma {:induction false} RunIsChecked(file: seq<bv8>, q: nat, k: nat) returns (parts: seq<Part>)
    requires q <= |file| && k < |ReadRun(file, true, q).records|
    ensures MakesRecord(parts) && Chain(file, parts, q, |file|) && Joined(parts) == ReadRun(file, true, q).records[k]
    decreases |file| - q
  {
    hide ReadLogical, MakesRecord, Joined, IsFragment;
    var r := ReadLogical(file, true, q, false, []);
    NoChain(file, q, q);
    if k == 0 {
      parts := LogicalIsChecked(file, q, false, [], [], q);
    } else {
      parts := RunIsChecked(file, r.next, k - 1);
    }
  }

  // ----- Every byte accounted for

  function Total(ns: seq<nat>): nat {
    if ns == [] then 0 else Total(ns[..|ns| - 1]) + ns[|ns| - 1]
  }

  lemma {:induction false} TotalJoined(a: seq<nat>, b: seq<nat>)
    ensures Total(a + b) == Total(a) + Total(b)
  {
    if b == [] {
      assert a + b == a;
    } else {
      TotalJoined(a, b[..|b| - 1]);
      assert (a + b)[..|a + b| - 1] == a + b[..|b| - 1];
    }
  }

  /** The payloads of the fragments from q on, and what is reported of damaged blocks between them. */
  function Readable(file: seq<bv8>, q: nat): nat
    requires q <= |file|
    decreases |file| - q
  {
    var r := ReadPhysical(file, true, q);
    if r.code == EOF then Total(r.drops)
    else Total(r.drops) + (if r.code == BAD_RECORD then 0 else |r.payload|) + Readable(file, r.next)
  }

  /** What has been gathered of a record when the file ends. */
  function Unfinished(file: seq<bv8>, q: nat, fragmented: bool, scratch: seq<bv8>): seq<bv8>
    requires q <= |file|
    decreases |file| - q
  {
    var r := ReadPhysical(file, true, q);
    match Handle(r.code, r.payload, fragmented, scratch)
    case Stop(found, _) => if found.NoRecord? then scratch else []
    case Continue(fragmented', scratch', _) => Unfinished(file, r.next, fragmented', scratch')
  }

  lemma HandleAccounts(code: bv8, payload: seq<bv8>, fragmented: bool, scratch: seq<bv8>)
    requires code != EOF && (!fragmented ==> scratch == [])
    ensures var good := if code == BAD_RECORD then 0 else |payload|;
            match Handle(code, payload, fragmented, scratch)
            case Stop(found, drops) => found.Record? && |scratch| + good == |found.data| + Total(drops)
            case Continue(fragmented', scratch', drops) =>
              (!fragmented' ==> scratch' == []) && |scratch| + good == |scratch'| + Total(drops)
  {
    OneTotal(|payload|);
    OneTotal(|scratch|);
    OneTotal(|payload| + if fragmented then |scratch| else 0);
  }

  lemma OneTotal(n: nat)
    ensures Total([n]) == n && Total([]) == 0
  {
    assert [n][..0] == [];
  }

  lemma {:induction false} LogicalAccounts(file: seq<bv8>, q: nat, fragmented: bool, scratch: seq<bv8>)
    requires q <= |file| && (!fragmented ==> scratch == [])
    ensures var r := ReadLogical(file, true, q, fragmented, scratch);
            |scratch| + Readable(file, q) ==
            (if r.found.Record? then |r.found.data| + Readable(file, r.next)
             else |Unfinished(file, q, fragmented, scratch)|) + Total(r.drops)
    decreases |file| - q
  {
    hide ReadPhysical, Handle, Total;
    var r := ReadPhysical(file, true, q);
    if r.code == EOF {
      AtEnd(r.payload, fragmented, scratch);
      TotalJoined(r.drops, []);
      OneTotal(0);
    } else {
      HandleAccounts(r.code, r.payload, fragmented, scratch);
      match Handle(r.code, r.payload, fragmented, scratch)
      case Stop(found, drops) => TotalJoined(r.drops, drops);
      case Continue(fragmented', scratch', drops) =>
        LogicalAccounts(file, r.next, fragmented', scratch');
        var rest := ReadLogical(file, true, r.next, fragmented', scratch');
        TotalJoined(r.drops, drops);
        TotalJoined(r.drops + drops, rest.drops);
    }
  }

  lemma AtEnd(payload: seq<bv8>, fragmented: bool, scratch: seq<bv8>)
    ensures Handle(EOF, payload, fragmented, scratch) == Stop(NoRecord, [])
  {
  }

  function Bytes(records: seq<seq<bv8>>): nat {
    if records == [] then 0 else |records[0]| + Bytes(records[1..])
  }

  function UnfinishedRun(file: seq<bv8>, q: nat): seq<bv8>
    requires q <= |file|
    decreases |file| - q
  {
    var r := ReadLogical(file, true, q, false, []);
    if r.found.NoRecord? then Unfinished(file, q, false, []) else UnfinishedRun(file, r.next)
  }

  /** Nothing is lost in silence: of any file, what its fragments hold and what is dropped with damaged blocks is
      in the records delivered, in the reports, or in a record that the end of the file cuts short. */
  lemma {:induction false} RunAccounts(file: seq<bv8>, q: nat)
    requires q <= |file|
    ensures var run := ReadRun(file, true, q);
            Readable(file, q) == Bytes(run.records) + Total(run.drops) + |UnfinishedRun(file, q)|
    decreases |file| - q
  {
    hide ReadLogical, Readable, Unfinished, Total;
    var r := ReadLogical(file, true, q, false, []);
    LogicalAccounts(file, q, false, []);
    if r.found.Record? {
      RunAccounts(file, r.next);
      TotalJoined(r.drops, ReadRun(file, true, r.next).drops);
    }
  }

  /** And that record's bytes are in fragments of the file with the right checksums, a first one and middle ones. */
  lemma {:induction false} UnfinishedIsChecked(file: seq<bv8>, q: nat, fragmented: bool, scratch: seq<bv8>,
                                               parts: seq<Part>, from: nat) returns (all: seq<Part>)
    requires from <= q <= |file| && Gathered(file, parts, from, q, fragmented, scratch)
    requires !fragmented ==> scratch == []
    ensures Unfinished(file, q, fragmented, scratch) != [] ==>
              Begins(all) && Chain(file, all, from, |file|) && Joined(all) == Unfinished(file, q, fragmented, scratch)
    decreases |file| - q
  {
    hide IsFragment, ReadPhysical, Chain, Joined, Begins;
    var r := ReadPhysical(file, true, q);
    PhysicalIsChecked(file, q);
    all := parts;
    var p := Part(HeaderAt(file, q), r.code, r.payload);
    var fine := r.code != EOF && r.code != BAD_RECORD;
    if fine {
      NoChain(file, from, q);
      ChainSnoc(file, if fragmented then parts else [], p, from, q, r.next);
    }
    match Handle(r.code, r.payload, fragmented, scratch)
    case Stop(found, _) => ChainLonger(file, parts, from, q);
    case Continue(fragmented', scratch', _) =>
      var next := if r.code == FIRST then [p] else if fine && fragmented then parts + [p] else [];
      BeginsMore(parts, p);
      all := UnfinishedIsChecked(file, r.next, fragmented', scratch', next, from);
  }

  lemma ChainLonger(file: seq<bv8>, parts: seq<Part>, from: nat, q: nat)
    requires q <= |file|
    ensures Chain(file, parts, from, q) ==> Chain(file, parts, from, |file|)
  {
    hide IsFragment;
  }

  /** Two types pass for what the reader itself uses to say that the file has ended and that a block is bad: a
      fragment that carries one of them and the right checksum ends the reading, or is dropped, without a report. */
  lemma SentinelTypes(file: seq<bv8>, q: nat, payload: seq<bv8>, t: bv8, fragmented: bool)
    requires t == EOF || t == BAD_RECORD
    requires |payload| < 65536 && q % BLOCK + HEADER + |payload| <= BLOCK
    requires q + HEADER + |payload| <= |file| && file[q..q + HEADER + |payload|] == Emit(t, payload)
    ensures t == EOF ==> ReadLogical(file, true, q, fragmented, []) == Logical(NoRecord, q + HEADER + |payload|, [])
    ensures t == BAD_RECORD ==>
              ReadLogical(file, true, q, false, []) == ReadLogical(file, true, q + HEADER + |payload|, false, [])
  {
    hide ReadPhysical, Emit;
    ReadWhole(file, true, q, t, payload);
  }

  // ----- Examples

  /** The log of one record "foo": masked checksum, length and type, each with its low byte first. */
  lemma OneRecord()
    ensures RecordBytes(0, [0x66, 0x6f, 0x6f], true) ==
            [0xdd, 0x5f, 0xb3, 0x7a, 0x03, 0x00, 0x01, 0x66, 0x6f, 0x6f]
  {
    hide Feed, Value, Extend;
    var foo: seq<bv8> := [0x66, 0x6f, 0x6f];
    Begun();
    var d := More([], 0x01, 0x66, 0x6f, 0x6f, 0xffff_ffff, 0xc57d13e7);
    assert d == [1] + foo;
    Finished(d, 0xc57d13e7, 0x3a82ec18);
    ExtendConcat(0, [1], foo);
    hide Mask, EncodeFixed32, EncodeFixed16, RecordBytes, Emit;
    MaskedFoo();
    ThreeAsBytes();
    EmitOfFoo(foo);
  }

  lemma MaskedFoo()
    ensures Mask(0x3a82ec18) == 0x7ab35fdd
    ensures EncodeFixed32(0x7ab35fdd) == [0xdd, 0x5f, 0xb3, 0x7a]
  {
  }

  lemma ThreeAsBytes()
    ensures EncodeFixed16(3) == [0x03, 0x00]
  {
    assert ByteOf(3, 8) == 3 && ByteOf(0, 8) == 0;
  }

  lemma EmitOfFoo(foo: seq<bv8>)
    requires |foo| == 3
    ensures RecordBytes(0, foo, true) ==
            EncodeFixed32(Mask(Extend(Value([1]), foo))) + EncodeFixed16(3) + [1] + foo
  {
    hide Value, Extend, Mask, EncodeFixed32, EncodeFixed16;
    assert foo[..3] == foo;
  }

  /** A record over three blocks has the types first, middle and last. */
  lemma LongRecord(data: seq<bv8>)
    requires |data| == 70000
    ensures var r := RecordBytes(0, data, true);
            && |r| == 70021 && r[6] == 2 && r[32768 + 6] == 3 && r[65536 + 6] == 4
  {
    hide Emit, RecordBytes;
    var n := BLOCK - HEADER;
    RecordBytesStep(0, data, true);
    RecordBytesStep(BLOCK, data[n..], false);
    RecordBytesStep(2 * BLOCK, data[n..][n..], false);
    TypeIsSixth(FIRST, data[..n]);
    TypeIsSixth(MIDDLE, data[n..][..n]);
    TypeIsSixth(LAST, data[n..][n..]);
    assert data[n..][n..][..|data| - 2 * n] == data[n..][n..];
  }

  lemma TypeIsSixth(t: bv8, payload: seq<bv8>)
    requires |payload| < 65536
    ensures Emit(t, payload)[6] == t
  {
    EmitLayout(t, payload);
  }
}
