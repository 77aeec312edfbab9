/** The log writer and reader of external/pdlfs-common as objects over a file. */
module LogFiles {
  import opened ByteBits
  import opened Crc32c
  import opened LogFormat
  import opened Sequences

  class Writer {
    var dest: seq<bv8>
    var blockOffset: nat
    var offset: nat

    ghost predicate Valid()
      reads this
    {
      blockOffset <= BLOCK && blockOffset % BLOCK == |dest| % BLOCK && offset == |dest|
    }

    /** A writer that continues a file. */
    constructor (file: seq<bv8>)
      ensures Valid() && dest == file
    {
      dest := file;
      blockOffset := |file| % BLOCK;
      offset := |file|;
    }

    method AddRecord(data: seq<bv8>)
      requires Valid()
      modifies this
      ensures Valid() && dest == old(dest) + RecordBytes(old(|dest|), data, true)
    {
      hide Emit, RecordBytes, FragmentLength, Zeroes;
      var ptr, left := 0, |data|;
      var begin := true;
      ghost var whole := dest + RecordBytes(|dest|, data, true);
      assert data[0..] == data;
      var done := false;
      while !done
        invariant Valid() && 0 <= ptr && 0 <= left && ptr + left == |data|
        invariant if done then dest == whole
                  else dest + RecordBytes(|dest|, data[ptr..], begin) == whole
        decreases !done, left, BLOCK - |dest| % BLOCK <= HEADER
      {
        TrailerStep(dest, data[ptr..], begin);
        SwitchBlock();
        FragmentStep(dest, data, ptr, begin);
        var avail := BLOCK - blockOffset - HEADER;
        var n := if left < avail then left else avail;
        var end := left == n;
        EmitPhysicalRecord(FragmentType(begin, end), data[ptr..ptr + n]);
        ptr := ptr + n;
        left := left - n;
        begin := false;
        done := left == 0;
      }
    }

    /** Fills up a block that has no room for a header. */
    method SwitchBlock()
      requires Valid()
      modifies this
      ensures Valid() && dest == old(dest) + Zeroes(TrailerLength(old(|dest|)))
      ensures blockOffset == |dest| % BLOCK && BLOCK - blockOffset >= HEADER
    {
      var leftover := BLOCK - blockOffset;
      if leftover < HEADER {
        if leftover > 0 {
          dest := dest + Zeroes(leftover);
          offset := offset + leftover;
        }
        blockOffset := 0;
      }
    }

    method EmitPhysicalRecord(t: bv8, payload: seq<bv8>)
      requires Valid() && |payload| < 65536 && blockOffset + HEADER + |payload| <= BLOCK
      modifies this
      ensures Valid() && dest == old(dest) + Emit(t, payload)
      ensures blockOffset == old(blockOffset) + HEADER + |payload|
    {
      hide Extend, Value, Mask, EncodeFixed32, EncodeFixed16;
      var buf := EncodeFixed32(Mask(Extend(Value([t]), payload))) + EncodeFixed16(|payload|) + [t];
      assert buf + payload == Emit(t, payload);
      dest := dest + buf;
      dest := dest + payload;
      SameInBlock(blockOffset, old(|dest|), HEADER + |payload|);
      blockOffset := blockOffset + HEADER + |payload|;
      offset := offset + HEADER + |payload|;
      assert dest == old(dest) + Emit(t, payload);
    }
  }

  lemma SameInBlock(a: nat, b: nat, n: nat)
    requires a % BLOCK == b % BLOCK
    ensures (a + n) % BLOCK == (b + n) % BLOCK
  {
    WithinBlock(a, n);
    WithinBlock(b, n);
  }

  lemma WithinBlock(a: nat, n: nat)
    ensures (a + n) % BLOCK == (a % BLOCK + n) % BLOCK
  {
    var q := a / BLOCK;
    assert a + n == a % BLOCK + n + BLOCK * q;
  }

  lemma Associate(a: seq<bv8>, b: seq<bv8>, c: seq<bv8>)
    ensures a + (b + c) == a + b + c
  {
  }

  function TrailerLength(q: nat): nat {
    if BLOCK - q % BLOCK < HEADER then BLOCK - q % BLOCK else 0
  }

  lemma TrailerStep(dest: seq<bv8>, data: seq<bv8>, begin: bool)
    ensures var q := |dest|;
            var padded := dest + Zeroes(TrailerLength(q));
            && dest + RecordBytes(q, data, begin) == padded + RecordBytes(|padded|, data, begin)
            && BLOCK - |padded| % BLOCK >= HEADER
  {
    hide RecordBytes;
    var q := |dest|;
    var n := TrailerLength(q);
    TrailerOf(q, data, begin);
    if n == 0 {
      assert dest + Zeroes(0) == dest;
    } else {
      Associate(dest, Zeroes(n), RecordBytes(q + n, data, begin));
    }
  }

  lemma TrailerOf(q: nat, data: seq<bv8>, begin: bool)
    ensures var n := TrailerLength(q);
            && BLOCK - (q + n) % BLOCK >= HEADER
            && RecordBytes(q, data, begin) ==
               if n == 0 then RecordBytes(q, data, begin) else Zeroes(n) + RecordBytes(q + n, data, begin)
  {
    hide Emit;
    var n := TrailerLength(q);
    assert n > 0 ==> (q + n) % BLOCK == 0;
  }

  lemma FragmentStep(dest: seq<bv8>, data: seq<bv8>, ptr: nat, begin: bool)
    requires ptr <= |data| && BLOCK - |dest| % BLOCK >= HEADER
    ensures var left := |data| - ptr;
            var avail := BLOCK - |dest| % BLOCK - HEADER;
            var n := if left < avail then left else avail;
            var end := left == n;
            var after := dest + Emit(FragmentType(begin, end), data[ptr..ptr + n]);
            && dest + RecordBytes(|dest|, data[ptr..], begin) ==
               (if end then after else after + RecordBytes(|after|, data[ptr + n..], false))
            && (!end ==> |after| % BLOCK == 0)
  {
    hide Emit, RecordBytes;
    var rest := data[ptr..];
    RecordBytesStep(|dest|, rest, begin);
    var n := FragmentLength(|dest|, |rest|);
    var fragment := Emit(FragmentType(begin, n == |rest|), rest[..n]);
    assert rest[..n] == data[ptr..ptr + n];
    assert rest[n..] == data[ptr + n..];
    Associate(dest, fragment, RecordBytes(|dest| + |fragment|, rest[n..], false));
  }

  class Reader {
    const file: seq<bv8>
    const checksum: bool
    var fileOffset: nat  // bytes of the file handed out so far
    var buffer: seq<bv8>
    var eof: bool
    var drops: seq<nat>  // sizes reported to the reporter

    /** Where the next byte to be looked at lies in the file. */
    ghost function Position(): int
      reads this
    {
      fileOffset - |buffer|
    }

    ghost predicate Valid()
      reads this
    {
      && fileOffset <= |file| && |buffer| <= fileOffset
      && buffer == file[fileOffset - |buffer|..fileOffset]
      && (if eof then
            fileOffset == |file| && |buffer| <= |file| % BLOCK
          else
            fileOffset % BLOCK == 0 && |buffer| <= BLOCK)
    }

    constructor (file: seq<bv8>, checksum: bool)
      ensures Valid() && Position() == 0 && drops == []
      ensures this.file == file && this.checksum == checksum
    {
      this.file, this.checksum := file, checksum;
      fileOffset, buffer, eof, drops := 0, [], false, [];
    }

    /** Reads blocks until there is room for a header in the buffer, or the file ends. */
    method FillBuffer() returns (more: bool)
      requires Valid()
      modifies this
      ensures Valid() && drops == old(drops) && 0 <= Position()
      ensures more ==> |buffer| >= HEADER
      ensures more ==> ReadPhysical(file, checksum, Position()) == ReadPhysical(file, checksum, old(Position()))
      ensures !more ==> Position() == |file|
      ensures !more ==> ReadPhysical(file, checksum, old(Position())) == Physical(EOF, [], |file|, [])
    {
      hide ReadPhysical;
      while |buffer| < HEADER
        invariant Valid() && drops == old(drops) && 0 <= Position()
        invariant ReadPhysical(file, checksum, Position()) == ReadPhysical(file, checksum, old(Position()))
        decreases !eof, |file| - fileOffset
      {
        if eof {
          NothingLeft();
          buffer := [];
          assert file[fileOffset..fileOffset] == [];
          return false;
        }
        TrailerIsSkipped();
        ReadBlock();
      }
      return true;
    }

    /** Replaces the buffer by the next block of the file, which is short only at its end. */
    method ReadBlock()
      requires Valid() && !eof
      modifies this
      ensures Valid() && drops == old(drops) && Position() == old(fileOffset)
      ensures eof || old(fileOffset) + BLOCK == fileOffset
    {
      var n := if fileOffset + BLOCK <= |file| then BLOCK else |file| - fileOffset;
      buffer := file[fileOffset..fileOffset + n];
      fileOffset := fileOffset + n;
      if |buffer| < BLOCK {
        eof := true;
      }
    }

    method ReadPhysicalRecord() returns (t: bv8, payload: seq<bv8>)
      requires Valid()
      modifies this
      ensures Valid() && 0 <= Position()
      ensures var r := ReadPhysical(file, checksum, old(Position()));
              t == r.code && payload == r.payload && Position() == r.next && drops == old(drops) + r.drops
    {
      hide ReadPhysical;
      payload := [];
      var more := FillBuffer();
      if !more {
        return EOF, [];
      }
      t, payload := ParseBuffer();
    }

    /** Parses and checks the physical record at the front of the buffer. */
    method ParseBuffer() returns (t: bv8, payload: seq<bv8>)
      requires Valid() && |buffer| >= HEADER
      modifies this
      ensures Valid() && 0 <= Position()
      ensures var r := ReadPhysical(file, checksum, old(Position()));
              t == r.code && payload == r.payload && Position() == r.next && drops == old(drops) + r.drops
    {
      hide Value, Unmask, DecodeFixed16, DecodeFixed32;
      ghost var p := Position();
      payload := [];
      BufferBlock();
      var length := DecodeFixed16(buffer[4..6]);
      t := buffer[6];
      BufferSlices(p, length);
      var size := |buffer|;
      if HEADER + length > size {
        buffer := [];
        if !eof {
          drops := drops + [size];
          return BAD_RECORD, [];
        }
        return EOF, [];
      }
      if t == ZERO_TYPE && length == 0 {
        buffer := [];
        return BAD_RECORD, [];
      }
      if checksum && Value(buffer[6..HEADER + length]) != Unmask(DecodeFixed32(buffer[..4])) {
        buffer := [];
        drops := drops + [size];
        return BAD_RECORD, [];
      }
      payload := buffer[HEADER..HEADER + length];
      buffer := buffer[HEADER + length..];
    }

    lemma BufferSlices(p: nat, length: nat)
      requires Valid() && |buffer| >= HEADER && p == Position()
      ensures file[p + 4..p + 6] == buffer[4..6] && file[p..p + 4] == buffer[..4] && file[p + 6] == buffer[6]
      ensures HEADER + length <= |buffer| ==>
                && file[p + 6..p + HEADER + length] == buffer[6..HEADER + length]
                && file[p + HEADER..p + HEADER + length] == buffer[HEADER..HEADER + length]
                && file[p + HEADER + length..fileOffset] == buffer[HEADER + length..]
    {
      assert file[p..p + |buffer|] == buffer;
      assert buffer[0..4] == buffer[..4] && file[p..p + |buffer|][6] == file[p + 6];
      SubSlice(file, p, |buffer|, 4, 6);
      SubSlice(file, p, |buffer|, 0, 4);
      if HEADER + length <= |buffer| {
        SubSlice(file, p, |buffer|, 6, HEADER + length);
        SubSlice(file, p, |buffer|, HEADER, HEADER + length);
        SubSlice(file, p, |buffer|, HEADER + length, |buffer|);
      }
    }

    /** With too little left of a full block, the next block is looked at. */
    lemma TrailerIsSkipped()
      requires Valid() && !eof && |buffer| < HEADER
      ensures Position() >= 0 && ReadPhysical(file, checksum, Position()) == ReadPhysical(file, checksum, fileOffset)
    {
      hide Value, Unmask, DecodeFixed16, DecodeFixed32;
      if |buffer| > 0 {
        var q := Position();
        assert q % BLOCK == BLOCK - |buffer|;
        SkipTrailer(file, checksum, q);
      }
    }

    lemma NothingLeft()
      requires Valid() && eof && |buffer| < HEADER
      ensures Position() >= 0 && ReadPhysical(file, checksum, Position()) == Physical(EOF, [], |file|, [])
    {
      var q := Position();
      assert q % BLOCK + |buffer| == |file| % BLOCK;
    }

    /** The buffer reaches to the end of its block, or of the file. */
    lemma BufferBlock()
      requires Valid() && |buffer| >= HEADER
      ensures Position() >= 0 && BlockEnd(file, Position()) == Position() + |buffer| == fileOffset
      ensures eof <==> Position() - Position() % BLOCK + BLOCK > |file|
    {
      var q := Position();
      if eof {
        assert q % BLOCK + |buffer| == |file| % BLOCK;
      } else {
        assert q % BLOCK == (BLOCK - |buffer|) % BLOCK;
      }
    }

    /** What a fragment of the given type adds to the record being gathered, and what is dropped. */
    method TakeFragment(t: bv8, payload: seq<bv8>, fragmented: bool, scratch: seq<bv8>)
      returns (found: Found, stop: bool, inRecord: bool, gathered: seq<bv8>)
      modifies this`drops
      ensures match Handle(t, payload, fragmented, scratch)
              case Stop(r, d) => stop && found == r && drops == old(drops) + d
              case Continue(f, g, d) => !stop && inRecord == f && gathered == g && drops == old(drops) + d
    {
      found, stop, inRecord, gathered := NoRecord, false, fragmented, scratch;
      if t == FULL {
        if fragmented && |scratch| > 0 {
          drops := drops + [|scratch|];
        }
        found, stop := Record(payload), true;
      } else if t == FIRST {
        if fragmented && |scratch| > 0 {
          drops := drops + [|scratch|];
        }
        inRecord, gathered := true, payload;
      } else if t == MIDDLE {
        if !fragmented {
          drops := drops + [|payload|];
        } else {
          gathered := scratch + payload;
        }
      } else if t == LAST {
        if !fragmented {
          drops := drops + [|payload|];
        } else {
          found, stop := Record(scratch + payload), true;
        }
      } else if t == EOF {
        stop := true;
      } else if t == BAD_RECORD {
        if fragmented {
          drops := drops + [|scratch|];
          inRecord, gathered := false, [];
        }
      } else {
        drops := drops + [|payload| + if fragmented then |scratch| else 0];
        inRecord, gathered := false, [];
      }
    }

    /** Reads the next record, gathering its fragments. */
    method ReadRecord() returns (found: Found)
      requires Valid()
      modifies this
      ensures Valid()
      ensures var r := ReadLogical(file, checksum, old(Position()), false, []);
              found == r.found && Position() == r.next && drops == old(drops) + r.drops
    {
      hide ReadPhysical, ReadLogical, Handle;
      var scratch: seq<bv8> := [];
      var fragmented := false;
      ghost var goal := ReadLogical(file, checksum, Position(), false, []);
      while true
        invariant Valid() && 0 <= Position()
        invariant var r := ReadLogical(file, checksum, Position(), fragmented, scratch);
                  r.found == goal.found && r.next == goal.next && drops + r.drops == old(drops) + goal.drops
        decreases |file| - Position()
      {
        LogicalUnfold(file, checksum, Position(), fragmented, scratch, drops);
        StopsAtEnd(file, checksum, Position(), fragmented, scratch);
        var stop;
        var t, payload := ReadPhysicalRecord();
        found, stop, fragmented, scratch := TakeFragment(t, payload, fragmented, scratch);
        if stop {
          return;
        }
      }
    }
  }

  /** Gathering goes on only behind something that was read. */
  lemma StopsAtEnd(file: seq<bv8>, checksum: bool, q: nat, fragmented: bool, scratch: seq<bv8>)
    requires q <= |file|
    ensures var p := ReadPhysical(file, checksum, q); Handle(p.code, p.payload, fragmented, scratch).Continue? ==>
            q < p.next
  {
  }

  /** One turn of the gathering loop, seen from the drops reported before it. */
  lemma LogicalUnfold(file: seq<bv8>, checksum: bool, q: nat, fragmented: bool, scratch: seq<bv8>, before: seq<nat>)
    requires q <= |file|
    ensures var p := ReadPhysical(file, checksum, q);
            var r := ReadLogical(file, checksum, q, fragmented, scratch);
            match Handle(p.code, p.payload, fragmented, scratch)
            case Stop(found, drops) => r.found == found && r.next == p.next
              && before + r.drops == before + p.drops + drops
            case Continue(f, s, drops) =>
              var rest := ReadLogical(file, checksum, p.next, f, s);
              && r.found == rest.found && r.next == rest.next
              && before + r.drops == before + p.drops + drops + rest.drops
  {
    hide ReadPhysical, Handle;
    var p := ReadPhysical(file, checksum, q);
    match Handle(p.code, p.payload, fragmented, scratch)
    case Stop(found, drops) => AppendDrops(before, p.drops, drops, []);
    case Continue(f, s, drops) => AppendDrops(before, p.drops, drops, ReadLogical(file, checksum, p.next, f, s).drops);
  }

  lemma AppendDrops(a: seq<nat>, b: seq<nat>, c: seq<nat>, d: seq<nat>)
    ensures a + (b + c) == a + b + c && a + (b + c + d) == a + b + c + d
  {
  }

  /** Writes the records to a new file. */
  method WriteRun(records: seq<seq<bv8>>) returns (file: seq<bv8>)
    ensures file == RunBytes(0, records)
  {
    hide RecordBytes;
    var w := new Writer([]);
    var i := 0;
    while i < |records|
      invariant 0 <= i <= |records| && w.Valid()
      invariant w.dest + RunBytes(|w.dest|, records[i..]) == RunBytes(0, records)
    {
      ghost var first := RecordBytes(|w.dest|, records[i], true);
      assert records[i..][1..] == records[i + 1..];
      Associate(w.dest, first, RunBytes(|w.dest| + |first|, records[i + 1..]));
      w.AddRecord(records[i]);
      i := i + 1;
    }
    file := w.dest;
  }

  /** Reads a file until no record is found. */
  method ReadFile(file: seq<bv8>, checksum: bool) returns (out: seq<seq<bv8>>, drops: seq<nat>)
    ensures Contents(out, drops) == ReadRun(file, checksum, 0)
  {
    hide ReadRun, ReadLogical;
    var r := new Reader(file, checksum);
    out := [];
    ghost var all := ReadRun(file, checksum, 0);
    RunUnfold(file, checksum, 0, [], []);
    var found := r.ReadRecord();
    while found.Record?
      invariant r.Valid() && 0 <= r.Position() && r.checksum == checksum && r.file == file
      invariant match found
                case NoRecord => out == all.records && r.drops == all.drops
                case Record(data) =>
                  && out + [data] + ReadRun(file, checksum, r.Position()).records == all.records
                  && r.drops + ReadRun(file, checksum, r.Position()).drops == all.drops
      decreases found.Record?, |file| - r.Position()
    {
      out := out + [found.data];
      RunUnfold(file, checksum, r.Position(), out, r.drops);
      found := r.ReadRecord();
    }
    drops := r.drops;
  }

  lemma RunUnfold(file: seq<bv8>, checksum: bool, q: nat, records: seq<seq<bv8>>, drops: seq<nat>)
    requires q <= |file|
    ensures var r := ReadLogical(file, checksum, q, false, []);
            var all := ReadRun(file, checksum, q);
            match r.found
            case NoRecord => records + all.records == records && drops + all.drops == drops + r.drops
            case Record(data) =>
              var rest := ReadRun(file, checksum, r.next);
              && records + all.records == records + [data] + rest.records
              && drops + all.drops == drops + r.drops + rest.drops
  {
    hide ReadLogical;
  }

  /** A crash at any point: write the records, keep the first p bytes, read them back. */
  method WriteCrashRead(records: seq<seq<bv8>>, p: nat, checksum: bool) returns (out: seq<seq<bv8>>, drops: seq<nat>)
    requires p <= |RunBytes(0, records)|
    ensures out <= records && drops == []
    ensures forall k: nat :: k < |records| ==> (k < |out| <==> WrittenThrough(records, k) <= p)
  {
    hide RunBytes, ReadRun;
    var file := WriteRun(records);
    out, drops := ReadFile(file[..p], checksum);
    ghost var n := TornLog(records, p, checksum);
  }
}
