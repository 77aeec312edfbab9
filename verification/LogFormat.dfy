/** The record log of external/pdlfs-common: blocks of 32768 bytes holding checksummed fragments. What
    log_writer.cc writes and log_reader.cc makes of a file, as functions of file positions. */
module LogFormat {
  import opened ByteBits
  import opened Crc32c
  import opened Sequences

  const BLOCK: nat := 32768
  const HEADER: nat := 7

  // Types of physical records; the last two are the reader's own.
  const ZERO_TYPE: bv8 := 0
  const FULL: bv8 := 1
  const FIRST: bv8 := 2
  const MIDDLE: bv8 := 3
  const LAST: bv8 := 4
  const EOF: bv8 := 5
  const BAD_RECORD: bv8 := 6

  // ----- Writing

  /** EmitPhysicalRecord: checksum, length and type, then the payload. */
  function Emit(t: bv8, payload: seq<bv8>): (r: seq<bv8>)
    requires |payload| < 65536
    ensures |r| == HEADER + |payload|
  {
    EncodeFixed32(Mask(Extend(Value([t]), payload))) + EncodeFixed16(|payload|) + [t] + payload
  }

  function FragmentType(begin: bool, end: bool): bv8 {
    if begin && end then FULL else if begin then FIRST else if end then LAST else MIDDLE
  }

  /** The part of the data that goes into the block at position q. */
  function FragmentLength(q: nat, left: nat): (n: nat)
    requires BLOCK - q % BLOCK >= HEADER
    ensures n <= left && n < 65536 && q % BLOCK + HEADER + n <= BLOCK
  {
    var avail := BLOCK - q % BLOCK - HEADER;
    if left < avail then left else avail
  }

  function Zeroes(n: nat): (s: seq<bv8>)
    ensures |s| == n
  {
    seq(n, _ => 0)
  }

  /** Writing what a block has left ends at the next block. */
  lemma BlockFilled(q: nat, n: nat)
    requires q % BLOCK + n == BLOCK
    ensures (q + n) % BLOCK == 0
  {
    assert q + n == BLOCK * (q / BLOCK + 1);
  }

  /** What AddRecord appends to a file of length q: a trailer when no header fits, then fragments. */
  function RecordBytes(q: nat, data: seq<bv8>, begin: bool): (r: seq<bv8>)
    ensures |r| > 0
    decreases |data|, BLOCK - q % BLOCK <= HEADER
  {
    var leftover := BLOCK - q % BLOCK;
    if leftover < HEADER then
      BlockFilled(q, leftover);
      Zeroes(leftover) + RecordBytes(q + leftover, data, begin)
    else
      var n := FragmentLength(q, |data|);
      var end := n == |data|;
      var fragment := Emit(FragmentType(begin, end), data[..n]);
      if end then fragment
      else
        BlockFilled(q, |fragment|);
        fragment + RecordBytes(q + |fragment|, data[n..], false)
  }

  /** The bytes of a run of records appended to a file of length q. */
  function RunBytes(q: nat, records: seq<seq<bv8>>): seq<bv8>
    decreases |records|
  {
    if records == [] then []
    else
      var first := RecordBytes(q, records[0], true);
      first + RunBytes(q + |first|, records[1..])
  }

  // ----- Reading

  /** One answer of ReadPhysicalRecord: its type, the payload, the position behind it and the sizes of
      the drops reported on the way. */
  datatype Physical = Physical(code: bv8, payload: seq<bv8>, next: nat, drops: seq<nat>)

  function BlockEnd(file: seq<bv8>, q: nat): nat {
    var end := q - q % BLOCK + BLOCK;
    if end <= |file| then end else |file|
  }

  function ReadPhysical(file: seq<bv8>, checksum: bool, q: nat): (r: Physical)
    requires q <= |file|
    ensures r.next <= |file| && (r.code != EOF ==> q < r.next)
    decreases |file| - q
  {
    var end := BlockEnd(file, q);
    var full := end == q - q % BLOCK + BLOCK;
    if end - q < HEADER then
      if full then ReadPhysical(file, checksum, end) else Physical(EOF, [], |file|, [])
    else
      var length := DecodeFixed16(file[q + 4..q + 6]);
      var t := file[q + 6];
      if HEADER + length > end - q then
        if full then Physical(BAD_RECORD, [], end, [end - q]) else Physical(EOF, [], |file|, [])
      else if t == ZERO_TYPE && length == 0 then Physical(BAD_RECORD, [], end, [])
      else if checksum && Value(file[q + 6..q + HEADER + length]) != Unmask(DecodeFixed32(file[q..q + 4])) then
        Physical(BAD_RECORD, [], end, [end - q])
      else Physical(t, file[q + HEADER..q + HEADER + length], q + HEADER + length, [])
  }

  datatype Found = Record(data: seq<bv8>) | NoRecord
  datatype Logical = Logical(found: Found, next: nat, drops: seq<nat>)

  /** What one physical record does to a reader that has gathered scratch so far. */
  datatype Outcome =
    | Stop(found: Found, drops: seq<nat>)
    | Continue(fragmented: bool, scratch: seq<bv8>, drops: seq<nat>)

  function Handle(code: bv8, payload: seq<bv8>, fragmented: bool, scratch: seq<bv8>): Outcome {
    var partial := if fragmented && scratch != [] then [|scratch|] else [];
    if code == FULL then Stop(Record(payload), partial)
    else if code == FIRST then Continue(true, payload, partial)
    else if code == MIDDLE then
      if fragmented then Continue(true, scratch + payload, []) else Continue(false, scratch, [|payload|])
    else if code == LAST then
      if fragmented then Stop(Record(scratch + payload), []) else Continue(false, scratch, [|payload|])
    else if code == EOF then Stop(NoRecord, [])
    else if code == BAD_RECORD then
      if fragmented then Continue(false, [], [|scratch|]) else Continue(false, scratch, [])
    else Continue(false, [], [|payload| + if fragmented then |scratch| else 0])
  }

  /** ReadRecord from position q, with the fragments gathered so far. */
  function ReadLogical(file: seq<bv8>, checksum: bool, q: nat, fragmented: bool, scratch: seq<bv8>): (r: Logical)
    requires q <= |file|
    ensures r.next <= |file| && (r.found.Record? ==> q < r.next)
    decreases |file| - q
  {
    var p := ReadPhysical(file, checksum, q);
    match Handle(p.code, p.payload, fragmented, scratch)
    case Stop(found, drops) => Logical(found, p.next, p.drops + drops)
    case Continue(fragmented', scratch', drops) =>
      var rest := ReadLogical(file, checksum, p.next, fragmented', scratch');
      Logical(rest.found, rest.next, p.drops + drops + rest.drops)
  }

  datatype Contents = Contents(records: seq<seq<bv8>>, drops: seq<nat>)

  /** Reading until ReadRecord finds no more. */
  function ReadRun(file: seq<bv8>, checksum: bool, q: nat): Contents
    requires q <= |file|
    decreases |file| - q
  {
    var r := ReadLogical(file, checksum, q, false, []);
    match r.found
    case NoRecord => Contents([], r.drops)
    case Record(data) =>
      var rest := ReadRun(file, checksum, r.next);
      Contents([data] + rest.records, r.drops + rest.drops)
  }

  // ----- One fragment in a file that may have been cut short

  lemma EmitLayout(t: bv8, payload: seq<bv8>)
    requires |payload| < 65536
    ensures var e := Emit(t, payload);
            && DecodeFixed16(e[4..6]) == |payload| && e[6] == t && e[HEADER..] == payload
            && Value(e[6..]) == Unmask(DecodeFixed32(e[..4]))
  {
    hide Extend, Value, Mask, Unmask, EncodeFixed16, DecodeFixed16, EncodeFixed32, DecodeFixed32;
    var e := Emit(t, payload);
    var crc := Extend(Value([t]), payload);
    Fixed32Length(Mask(crc));
    Fixed16Length(|payload|);
    assert e[..4] == EncodeFixed32(Mask(crc));
    assert e[4..6] == EncodeFixed16(|payload|);
    assert e[6..] == [t] + payload;
    Fixed16RoundTrip(|payload|);
    Fixed32RoundTrip(Mask(crc));
    MaskRoundTrip(crc);
    ExtendConcat(0, [t], payload);
  }

  lemma Fixed32Length(v: bv32)
    ensures |EncodeFixed32(v)| == 4
  {
  }

  lemma ReadWhole(file: seq<bv8>, checksum: bool, q: nat, t: bv8, payload: seq<bv8>)
    requires |payload| < 65536 && q % BLOCK + HEADER + |payload| <= BLOCK && t != ZERO_TYPE
    requires q + HEADER + |payload| <= |file| && file[q..q + HEADER + |payload|] == Emit(t, payload)
    ensures ReadPhysical(file, checksum, q) == Physical(t, payload, q + HEADER + |payload|, [])
  {
    hide Emit, Value, Unmask, DecodeFixed16, DecodeFixed32;
    var e := Emit(t, payload);
    EmitLayout(t, payload);
    var n := HEADER + |payload|;
    SubSlice(file, q, n, 4, 6);
    SubSlice(file, q, n, 0, 4);
    SubSlice(file, q, n, 6, n);
    SubSlice(file, q, n, HEADER, n);
    assert file[q + 6] == file[q..q + n][6];
  }

  lemma ReadTorn(file: seq<bv8>, checksum: bool, q: nat, t: bv8, payload: seq<bv8>)
    requires |payload| < 65536 && q % BLOCK + HEADER + |payload| <= BLOCK
    requires q <= |file| < q + HEADER + |payload| && file[q..] == Emit(t, payload)[..|file| - q]
    ensures ReadPhysical(file, checksum, q) == Physical(EOF, [], |file|, [])
  {
    hide Emit, Value, Unmask, DecodeFixed16, DecodeFixed32;
    var e := Emit(t, payload);
    EmitLayout(t, payload);
    if |file| - q >= HEADER {
      assert file[q..] == file[q..q + (|file| - q)];
      SubSlice(file, q, |file| - q, 4, 6);
      assert e[..|file| - q][4..6] == e[4..6];
    }
  }

  lemma SkipTrailer(file: seq<bv8>, checksum: bool, q: nat)
    requires q <= |file| && BLOCK - q % BLOCK < HEADER
    ensures var end := q + (BLOCK - q % BLOCK);
            ReadPhysical(file, checksum, q) ==
            if end <= |file| then ReadPhysical(file, checksum, end) else Physical(EOF, [], |file|, [])
  {
  }

  // ----- Torn logs

  /** The file from q on is what was written, as far as it goes. */
  ghost predicate Agrees(file: seq<bv8>, q: nat, written: seq<bv8>) {
    && q <= |file|
    && if |file| - q < |written| then file[q..] == written[..|file| - q]
       else file[q..q + |written|] == written
  }

  lemma AgreesBound(file: seq<bv8>, q: nat, written: seq<bv8>)
    requires Agrees(file, q, written)
    ensures q <= |file|
  {
  }

  /** A fragment that was written is read, or taken for the end of the file if it was cut. */
  lemma PhysicalAt(file: seq<bv8>, checksum: bool, q: nat, t: bv8, payload: seq<bv8>)
    requires |payload| < 65536 && q % BLOCK + HEADER + |payload| <= BLOCK && t != ZERO_TYPE
    requires Agrees(file, q, Emit(t, payload))
    ensures ReadPhysical(file, checksum, q) ==
            if q + HEADER + |payload| <= |file| then Physical(t, payload, q + HEADER + |payload|, [])
            else Physical(EOF, [], |file|, [])
  {
    hide Emit, ReadPhysical;
    if q + HEADER + |payload| <= |file| {
      ReadWhole(file, checksum, q, t, payload);
    } else {
      ReadTorn(file, checksum, q, t, payload);
    }
  }

  lemma AgreesAt(file: seq<bv8>, q: nat, written: seq<bv8>, k: nat)
    requires Agrees(file, q, written) && k < |written| && q + k < |file|
    ensures file[q + k] == written[k]
  {
    if |file| - q < |written| {
      assert file[q..][k] == written[..|file| - q][k];
    } else {
      assert file[q..q + |written|][k] == written[k];
    }
  }

  lemma AgreesFrom(file: seq<bv8>, q: nat, written: seq<bv8>)
    requires q <= |file| && forall k: nat :: k < |written| && q + k < |file| ==> file[q + k] == written[k]
    ensures Agrees(file, q, written)
  {
  }

  lemma AgreesSplit(file: seq<bv8>, q: nat, a: seq<bv8>, b: seq<bv8>)
    requires Agrees(file, q, a + b)
    ensures Agrees(file, q, a)
    ensures q + |a| <= |file| ==> Agrees(file, q + |a|, b)
  {
    AgreesBound(file, q, a + b);
    hide Agrees;
    forall k: nat | k < |a| && q + k < |file| ensures file[q + k] == a[k] { AgreesAt(file, q, a + b, k); }
    AgreesFrom(file, q, a);
    if q + |a| <= |file| {
      forall k: nat | k < |b| && q + |a| + k < |file| ensures file[q + |a| + k] == b[k] {
        AgreesAt(file, q, a + b, |a| + k);
      }
      AgreesFrom(file, q + |a|, b);
    }
  }

  /** A record is read back whole if its last byte is there, and is silently ignored otherwise. */
  lemma {:induction false} ReadBackRecord(file: seq<bv8>, checksum: bool, q: nat, data: seq<bv8>, begin: bool,
                                          scratch: seq<bv8>)
    requires Agrees(file, q, RecordBytes(q, data, begin)) && (begin ==> scratch == [])
    ensures var n := |RecordBytes(q, data, begin)|;
            ReadLogical(file, checksum, q, !begin, scratch) ==
            if q + n <= |file| then Logical(Record(scratch + data), q + n, [])
            else Logical(NoRecord, |file|, [])
    decreases |data|, BLOCK - q % BLOCK <= HEADER
  {
    hide Emit, ReadPhysical, ReadLogical, RecordBytes, Agrees;
    var leftover := BLOCK - q % BLOCK;
    AgreesBound(file, q, RecordBytes(q, data, begin));
    if leftover < HEADER {
      TrailerBytes(q, data, begin);
      AgreesSplit(file, q, Zeroes(leftover), RecordBytes(q + leftover, data, begin));
      SkipTrailer(file, checksum, q);
      if q + leftover <= |file| {
        ReadBackRecord(file, checksum, q + leftover, data, begin, scratch);
        SamePhysicalSameLogical(file, checksum, q, q + leftover, !begin, scratch);
      } else {
        EndsHere(file, checksum, q, !begin, scratch);
      }
    } else {
      ReadBackFragments(file, checksum, q, data, begin, scratch);
    }
  }

  lemma TrailerBytes(q: nat, data: seq<bv8>, begin: bool)
    requires BLOCK - q % BLOCK < HEADER
    ensures var leftover := BLOCK - q % BLOCK;
            (q + leftover) % BLOCK == 0
              && RecordBytes(q, data, begin) == Zeroes(leftover) + RecordBytes(q + leftover, data, begin)
  {
    hide Emit;
  }

  lemma EndsHere(file: seq<bv8>, checksum: bool, q: nat, fragmented: bool, scratch: seq<bv8>)
    requires q <= |file| && ReadPhysical(file, checksum, q) == Physical(EOF, [], |file|, [])
    ensures ReadLogical(file, checksum, q, fragmented, scratch) == Logical(NoRecord, |file|, [])
  {
    hide ReadPhysical;
  }

  lemma SamePhysicalSameLogical(file: seq<bv8>, checksum: bool, q: nat, q': nat, fragmented: bool, scratch: seq<bv8>)
    requires q <= |file| && q' <= |file| && ReadPhysical(file, checksum, q) == ReadPhysical(file, checksum, q')
    ensures ReadLogical(file, checksum, q, fragmented, scratch) == ReadLogical(file, checksum, q', fragmented, scratch)
  {
    hide ReadPhysical;
  }

  lemma JoinHalves(a: seq<bv8>, b: seq<bv8>, n: nat)
    requires n <= |b|
    ensures a + b[..n] + b[n..] == a + b
  {
  }

  lemma RecordBytesStep(q: nat, data: seq<bv8>, begin: bool)
    requires BLOCK - q % BLOCK >= HEADER
    ensures var n := FragmentLength(q, |data|);
            var end := n == |data|;
            var fragment := Emit(FragmentType(begin, end), data[..n]);
            && RecordBytes(q, data, begin)
              == (if end then fragment else fragment + RecordBytes(q + |fragment|, data[n..], false))
            && (!end ==> (q + |fragment|) % BLOCK == 0)
  {
    hide Emit;
    var n := FragmentLength(q, |data|);
    if n < |data| { BlockFilled(q, HEADER + n); }
  }

  lemma LogicalSteps(file: seq<bv8>, checksum: bool, q: nat, begin: bool, scratch: seq<bv8>)
    requires q <= |file| && (begin ==> scratch == [])
    ensures var p := ReadPhysical(file, checksum, q);
            var r := ReadLogical(file, checksum, q, !begin, scratch);
            p.drops == [] ==>
            && (p.code == EOF ==> r == Logical(NoRecord, p.next, []))
            && (p.code == FragmentType(begin, true) ==> r == Logical(Record(scratch + p.payload), p.next, []))
            && (p.code == FragmentType(begin, false)
                ==> r == ReadLogical(file, checksum, p.next, true, scratch + p.payload))
  {
    hide ReadPhysical;
    var p := ReadPhysical(file, checksum, q);
    assert [] + p.payload == p.payload;
    if p.drops == [] && p.code == FragmentType(begin, false) {
      var rest := ReadLogical(file, checksum, p.next, true, scratch + p.payload);
      assert [] + rest.drops == rest.drops;
    }
  }

  lemma {:induction false} ReadBackFragments(file: seq<bv8>, checksum: bool, q: nat, data: seq<bv8>, begin: bool,
                                             scratch: seq<bv8>)
    requires BLOCK - q % BLOCK >= HEADER
    requires Agrees(file, q, RecordBytes(q, data, begin)) && (begin ==> scratch == [])
    ensures var n := |RecordBytes(q, data, begin)|;
            ReadLogical(file, checksum, q, !begin, scratch) ==
            if q + n <= |file| then Logical(Record(scratch + data), q + n, [])
            else Logical(NoRecord, |file|, [])
    decreases |data|, BLOCK - q % BLOCK <= HEADER, 0
  {
    hide Emit, ReadPhysical, RecordBytes, ReadLogical, FragmentLength, Agrees;
    var n := FragmentLength(q, |data|);
    var end := n == |data|;
    var t := FragmentType(begin, end);
    var fragment := Emit(t, data[..n]);
    var next := q + |fragment|;
    RecordBytesStep(q, data, begin);
    AgreesBound(file, q, RecordBytes(q, data, begin));
    LogicalSteps(file, checksum, q, begin, scratch);
    if end {
      assert data[..n] == data;
      PhysicalAt(file, checksum, q, t, data);
    } else {
      AgreesSplit(file, q, fragment, RecordBytes(next, data[n..], false));
      PhysicalAt(file, checksum, q, t, data[..n]);
      if next <= |file| {
        ReadBackRecord(file, checksum, next, data[n..], false, scratch + data[..n]);
        JoinHalves(scratch, data, n);
      }
    }
  }

  /** How many of the records appended from q on end within the first p bytes. */
  function Complete(q: nat, records: seq<seq<bv8>>, p: nat): (n: nat)
    ensures n <= |records|
    decreases |records|
  {
    if records == [] then 0
    else
      var next := q + |RecordBytes(q, records[0], true)|;
      if next <= p then 1 + Complete(next, records[1..], p) else 0
  }

  /** Record k is among them exactly when the file up to and including it takes at most p bytes. */
  lemma {:induction false} CompleteMeansWritten(q: nat, records: seq<seq<bv8>>, p: nat, k: nat)
    requires k < |records|
    ensures k < Complete(q, records, p) <==> q + |RunBytes(q, records[..k + 1])| <= p
    decreases |records|
  {
    hide RecordBytes;
    var first := RecordBytes(q, records[0], true);
    var next := q + |first|;
    assert records[..k + 1][0] == records[0] && records[..k + 1][1..] == records[1..][..k];
    if k > 0 {
      CompleteMeansWritten(next, records[1..], p, k - 1);
    }
  }

  lemma {:induction false} ReadBackRun(file: seq<bv8>, checksum: bool, q: nat, records: seq<seq<bv8>>)
    requires Agrees(file, q, RunBytes(q, records)) && |file| <= q + |RunBytes(q, records)|
    ensures ReadRun(file, checksum, q) == Contents(records[..Complete(q, records, |file|)], [])
    decreases |records|
  {
    hide RecordBytes, ReadLogical;
    if records == [] {
      ReadAtEnd(file, checksum);
    } else {
      var first := RecordBytes(q, records[0], true);
      var next := q + |first|;
      AgreesSplit(file, q, first, RunBytes(next, records[1..]));
      ReadBackRecord(file, checksum, q, records[0], true, []);
      assert [] + records[0] == records[0];
      if next <= |file| {
        ReadBackRun(file, checksum, next, records[1..]);
        var n := Complete(next, records[1..], |file|);
        assert records[..n + 1] == [records[0]] + records[1..][..n];
      } else {
        assert records[..0] == [];
      }
    }
  }

  lemma ReadAtEnd(file: seq<bv8>, checksum: bool)
    ensures ReadLogical(file, checksum, |file|, false, []) == Logical(NoRecord, |file|, [])
  {
  }

  /** The length of a new log up to and including record k. */
  function WrittenThrough(records: seq<seq<bv8>>, k: nat): nat
    requires k < |records|
  {
    |RunBytes(0, records[..k + 1])|
  }

  /** Torn-log safety: cut a written log anywhere; reading returns exactly the records that were
      completely written, in order, and reports nothing. */
  lemma TornLog(records: seq<seq<bv8>>, p: nat, checksum: bool) returns (n: nat)
    requires p <= |RunBytes(0, records)|
    ensures n <= |records| && ReadRun(RunBytes(0, records)[..p], checksum, 0) == Contents(records[..n], [])
    ensures forall k: nat :: k < |records| ==> (k < n <==> WrittenThrough(records, k) <= p)
  {
    var file := RunBytes(0, records)[..p];
    assert file[0..] == file;
    ReadBackRun(file, checksum, 0, records);
    n := Complete(0, records, p);
    forall k: nat | k < |records| ensures k < n <==> WrittenThrough(records, k) <= p {
      CompleteMeansWritten(0, records, p, k);
    }
  }
}
