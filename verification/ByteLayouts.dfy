/** The formats byte by byte, on small inputs: what a reader and a writer that agree with each other could still
    both have wrong. */
module ByteLayouts {
  import opened Coding
  import opened KvBatches
  import opened OfsRecords
  import BlockFormat
  import DirectoryIndexes
  import ByteBits

  /** Words have their low byte first. */
  lemma LowByteFirst()
    ensures Fixed32(0x01020304) == [0x04, 0x03, 0x02, 0x01]
    ensures Fixed64(0x0102030405060708) == [0x08, 0x07, 0x06, 0x05, 0x04, 0x03, 0x02, 0x01]
    ensures Varint(300) == [0xac, 0x02]
  {
  }

  lemma SmallVarint(n: nat)
    requires n < 128
    ensures Varint(n) == [n]
  {
  }

  lemma ShortPiece(s: Bytes)
    requires |s| < 128
    ensures LengthPrefixed(s) == [|s|] + s
  {
    SmallVarint(|s|);
  }

  /** The body of an RPC with the pairs ("k", "vw") and ("m", ""). */
  lemma BatchOfTwo()
    ensures Body([Pair([0x6b], [0x76, 0x77]), Pair([0x6d], [])]) ==
            [0x02, 0x00, 0x00, 0x00, 0x01, 0x6b, 0x02, 0x76, 0x77, 0x01, 0x6d, 0x00]
  {
    hide LengthPrefixed;
    var p, q := Pair([0x6b], [0x76, 0x77]), Pair([0x6d], []);
    ShortPiece(p.key);
    ShortPiece(p.value);
    ShortPiece(q.key);
    ShortPiece(q.value);
    assert [p, q][1..] == [q] && [q][1..] == [];
    assert EncodePairs([q]) == EncodePair(q) + EncodePairs([]);
    assert EncodePairs([p, q]) == EncodePair(p) + EncodePair(q);
    assert Fixed32(2) == [0x02, 0x00, 0x00, 0x00];
  }

  /** The record of a PutFile at time 5: the object "o" announced, the file "f" linked to it. */
  lemma RecordOfPut()
    ensures EncodeRecord(5, [Op(TRY_CREATE_OBJ, [0x6f], []), Op(LINK, [0x66], [0x6f])]) ==
            [0x05, 0x00, 0x00, 0x00, 0x00, 0x00, 0x00, 0x00, 0x02, 0x00, 0x00, 0x00]
            + [0x01, 0x01, 0x6f, 0x00, 0xf1, 0x01, 0x66, 0x01, 0x6f]
  {
    hide LengthPrefixed, Fixed64, Fixed32;
    var a, b := Op(TRY_CREATE_OBJ, [0x6f], []), Op(LINK, [0x66], [0x6f]);
    ShortPiece(a.name1);
    ShortPiece(a.name2);
    ShortPiece(b.name1);
    ShortPiece(b.name2);
    assert [a, b][1..] == [b] && [b][1..] == [];
    assert EncodeOps([b]) == EncodeOp(b) + EncodeOps([]);
    assert EncodeOps([a, b]) == EncodeOp(a) + EncodeOp(b);
    FiveAndTwo();
  }

  lemma FiveAndTwo()
    ensures Fixed64(5) == [0x05, 0x00, 0x00, 0x00, 0x00, 0x00, 0x00, 0x00] && Fixed32(2) == [0x02, 0x00, 0x00, 0x00]
  {
  }

  /** The block of ("ab", "x") and ("ac", "yz"): the second entry shares a byte; one restart point, at 0. */
  lemma BlockOfTwo(block: Bytes)
    requires BlockFormat.IsBlock(block, [Pair([0x61, 0x62], [0x78]), Pair([0x61, 0x63], [0x79, 0x7a])], 16)
    ensures block == [0x00, 0x02, 0x01, 0x61, 0x62, 0x78, 0x01, 0x01, 0x02, 0x63, 0x79, 0x7a]
                     + [0x00, 0x00, 0x00, 0x00, 0x01, 0x00, 0x00, 0x00]
  {
    var p, q := Pair([0x61, 0x62], [0x78]), Pair([0x61, 0x63], [0x79, 0x7a]);
    hide Varint, BlockFormat.EntryBytes, BlockFormat.Shared, BlockFormat.Fixed32s;
    var ps := [p, q];
    assert BlockFormat.Data(ps, 16, 0) == [];
    assert BlockFormat.Data(ps, 16, 1) == [] + BlockFormat.EntryBytes(BlockFormat.Shared(ps, 16, 0), p);
    assert BlockFormat.Data(ps, 16, 2)
           == BlockFormat.Data(ps, 16, 1) + BlockFormat.EntryBytes(BlockFormat.Shared(ps, 16, 1), q);
    OneShared();
    TwoShares(ps);
    TwoEntries(p, q);
    OneRestart(ps);
  }

  lemma TwoShares(ps: seq<Pair>)
    requires |ps| == 2 && BlockFormat.CommonPrefix(ps[0].key, ps[1].key) == 1
    ensures BlockFormat.Shared(ps, 16, 0) == 0 && BlockFormat.Shared(ps, 16, 1) == 1
  {
  }

  lemma TwoEntries(p: Pair, q: Pair)
    requires p == Pair([0x61, 0x62], [0x78]) && q == Pair([0x61, 0x63], [0x79, 0x7a])
    ensures BlockFormat.EntryBytes(0, p) == [0x00, 0x02, 0x01, 0x61, 0x62, 0x78]
    ensures BlockFormat.EntryBytes(1, q) == [0x01, 0x01, 0x02, 0x63, 0x79, 0x7a]
  {
    hide Varint;
    SmallVarint(0);
    SmallVarint(1);
    SmallVarint(2);
  }

  lemma OneShared()
    ensures BlockFormat.CommonPrefix([0x61, 0x62], [0x61, 0x63]) == 1
  {
    var a, b: Bytes := [0x61, 0x62], [0x61, 0x63];
    assert a[1..] == [0x62] && b[1..] == [0x63];
    assert BlockFormat.CommonPrefix(a[1..], b[1..]) == 0;
  }

  lemma OneRestart(ps: seq<Pair>)
    requires |ps| == 2
    ensures BlockFormat.RestartCount(2, 16) == 1 && Fixed32(1) == [0x01, 0x00, 0x00, 0x00]
    ensures BlockFormat.Fixed32s(BlockFormat.Restarts(ps, 16)) == [0x00, 0x00, 0x00, 0x00]
  {
    var rs := BlockFormat.Restarts(ps, 16);
    assert rs == [0];
    assert [0][..0] == [];
    assert BlockFormat.Fixed32s([0]) == [] + Fixed32(0);
    assert Fixed32(0) == [0x00, 0x00, 0x00, 0x00];
  }

  /** The image of an index with zeroth server 3 and the partitions 0, 1 and 2. */
  lemma ImageOfThree()
    ensures DirectoryIndexes.EncodeImage(3, 2, [0x07]) == [0x03, 0x00, 0x02, 0x00, 0x07]
    ensures DirectoryIndexes.BitsOf([0x07]) == {0, 1, 2}
  {
    hide ByteBits.EncodeFixed16;
    SmallFixed16();
    hide DirectoryIndexes.TestBit;
    forall i: nat ensures i in DirectoryIndexes.BitsOf([0x07]) <==> i in {0, 1, 2} {
      LowThree(i);
    }
  }

  lemma SmallFixed16()
    ensures ByteBits.EncodeFixed16(3) == [0x03, 0x00] && ByteBits.EncodeFixed16(2) == [0x02, 0x00]
  {
    assert ByteBits.ByteOf(0, 8) == 0;
    assert ByteBits.ByteOf(3, 8) == 3;
    assert ByteBits.ByteOf(2, 8) == 2;
  }

  lemma LowThree(i: nat)
    ensures DirectoryIndexes.TestBit([0x07], i) <==> i < 3
  {
    if i < 8 { BitOfSeven(i); }
  }

  lemma BitOfSeven(i: nat)
    requires i < 8
    ensures ByteBits.BitIn(0x07, i) <==> i < 3
  {
  }
}
