/** The CRC examples of section B.4 of RFC 3720. */
module Crc32cStandard {
  import opened Crc32c

  const ZEROES: seq<bv8> :=
    [0x00, 0x00, 0x00, 0x00, 0x00, 0x00, 0x00, 0x00, 0x00, 0x00, 0x00, 0x00, 0x00, 0x00, 0x00, 0x00]

  const ONES: seq<bv8> :=
    [0xff, 0xff, 0xff, 0xff, 0xff, 0xff, 0xff, 0xff, 0xff, 0xff, 0xff, 0xff, 0xff, 0xff, 0xff, 0xff]

  const UP_LOW: seq<bv8> :=
    [0x00, 0x01, 0x02, 0x03, 0x04, 0x05, 0x06, 0x07, 0x08, 0x09, 0x0a, 0x0b, 0x0c, 0x0d, 0x0e, 0x0f]

  const UP_HIGH: seq<bv8> :=
    [0x10, 0x11, 0x12, 0x13, 0x14, 0x15, 0x16, 0x17, 0x18, 0x19, 0x1a, 0x1b, 0x1c, 0x1d, 0x1e, 0x1f]

  const DOWN_HIGH: seq<bv8> :=
    [0x1f, 0x1e, 0x1d, 0x1c, 0x1b, 0x1a, 0x19, 0x18, 0x17, 0x16, 0x15, 0x14, 0x13, 0x12, 0x11, 0x10]

  const DOWN_LOW: seq<bv8> :=
    [0x0f, 0x0e, 0x0d, 0x0c, 0x0b, 0x0a, 0x09, 0x08, 0x07, 0x06, 0x05, 0x04, 0x03, 0x02, 0x01, 0x00]

  const READ_1: seq<bv8> :=
    [0x01, 0xc0, 0x00, 0x00, 0x00, 0x00, 0x00, 0x00, 0x00, 0x00, 0x00, 0x00, 0x00, 0x00, 0x00, 0x00]

  const READ_2: seq<bv8> :=
    [0x14, 0x00, 0x00, 0x00, 0x00, 0x00, 0x04, 0x00, 0x00, 0x00, 0x00, 0x14, 0x00, 0x00, 0x00, 0x18]

  const READ_3: seq<bv8> :=
    [0x28, 0x00, 0x00, 0x00, 0x00, 0x00, 0x00, 0x00, 0x02, 0x00, 0x00, 0x00, 0x00, 0x00, 0x00, 0x00]

  // ----- Computing with constants

  /** A zero bit without a branch. */
  function Step(x: bv32): bv32 {
    (x >> 1) ^ (0x82f63b78 & (0 - (x & 1)))
  }

  function ByteIn(l: bv32, b: bv8): bv32 {
    Step(Step(Step(Step(Step(Step(Step(Step(Xor(l, Wide(b))))))))))
  }

  lemma StepIsZeroBit(x: bv32)
    ensures ZeroBit(x) == Step(x)
  {
    assert x & 1 == 0 || x & 1 == 1;
    assert x & 1 == 0 ==> 0x82f63b78 & (0 - (x & 1)) == 0;
    assert x & 1 == 1 ==> 0x82f63b78 & (0 - (x & 1)) == 0x82f63b78;
  }

  lemma ByteInIsByte(l: bv32, b: bv8)
    ensures Byte(l, b) == ByteIn(l, b)
  {
    hide ZeroBit, Step, Zeros, Xor, Wide;
    var x := Xor(l, Wide(b));
    EightZeros(x);
    StepIsZeroBit(x);
    var x1 := Step(x);
    StepIsZeroBit(x1);
    var x2 := Step(x1);
    StepIsZeroBit(x2);
    var x3 := Step(x2);
    StepIsZeroBit(x3);
    var x4 := Step(x3);
    StepIsZeroBit(x4);
    var x5 := Step(x4);
    StepIsZeroBit(x5);
    var x6 := Step(x5);
    StepIsZeroBit(x6);
    StepIsZeroBit(Step(x6));
  }

  lemma OneMore(data: seq<bv8>, b: bv8)
    ensures Feed(0xffff_ffff, data + [b]) == ByteIn(Feed(0xffff_ffff, data), b)
  {
    hide Byte, ByteIn;
    var l := Feed(0xffff_ffff, data);
    FeedConcat(0xffff_ffff, data, [b]);
    assert [b][1..] == [];
    assert Feed(l, [b]) == Feed(Byte(l, b), []) == Byte(l, b);
    ByteInIsByte(l, b);
  }

  /** Four bytes more. */
  lemma More(data: seq<bv8>, a: bv8, b: bv8, c: bv8, d: bv8, before: bv32, after: bv32) returns (longer: seq<bv8>)
    requires Feed(0xffff_ffff, data) == before
    requires after == ByteIn(ByteIn(ByteIn(ByteIn(before, a), b), c), d)
    ensures longer == data + [a, b, c, d] && Feed(0xffff_ffff, longer) == after
  {
    hide ByteIn, Feed;
    longer := data + [a] + [b] + [c] + [d];
    OneMore(data, a);
    OneMore(data + [a], b);
    OneMore(data + [a] + [b], c);
    OneMore(data + [a] + [b] + [c], d);
  }

  lemma Finished(data: seq<bv8>, last: bv32, crc: bv32)
    requires Feed(0xffff_ffff, data) == last && crc == last ^ 0xffff_ffff
    ensures Value(data) == crc
  {
    hide Feed;
    assert Flip(0) == 0xffff_ffff;
  }

  lemma Begun()
    ensures Feed(0xffff_ffff, []) == 0xffff_ffff
  {
  }

  // ----- The examples

  lemma ZeroBytes1(data: seq<bv8>)
    requires Feed(0xffff_ffff, data) == 0xffffffff
    ensures Feed(0xffff_ffff, data + ZEROES) == 0xbd8f6515
  {
    hide Feed;
    var d := data;
    d := More(d, 0x00, 0x00, 0x00, 0x00, 0xffffffff, 0xb798b438);
    d := More(d, 0x00, 0x00, 0x00, 0x00, 0xb798b438, 0x73d74d75);
    d := More(d, 0x00, 0x00, 0x00, 0x00, 0x73d74d75, 0xd49f4aa2);
    d := More(d, 0x00, 0x00, 0x00, 0x00, 0xd49f4aa2, 0xbd8f6515);
    assert d == data + ZEROES;
  }

  lemma ZeroBytes2(data: seq<bv8>)
    requires Feed(0xffff_ffff, data) == 0xbd8f6515
    ensures Feed(0xffff_ffff, data + ZEROES) == 0x756ec955
  {
    hide Feed;
    var d := data;
    d := More(d, 0x00, 0x00, 0x00, 0x00, 0xbd8f6515, 0x433aa9c1);
    d := More(d, 0x00, 0x00, 0x00, 0x00, 0x433aa9c1, 0x7b041311);
    d := More(d, 0x00, 0x00, 0x00, 0x00, 0x7b041311, 0x08363896);
    d := More(d, 0x00, 0x00, 0x00, 0x00, 0x08363896, 0x756ec955);
    assert d == data + ZEROES;
  }

  /** 32 bytes of zeroes. */
  lemma ZeroBytes()
    ensures Value(ZEROES + ZEROES) == 0x8a9136aa
  {
    hide Feed, Value;
    Begun();
    ZeroBytes1([]);
    ZeroBytes2([] + ZEROES);
    assert [] + ZEROES + ZEROES == ZEROES + ZEROES;
    Finished(ZEROES + ZEROES, 0x756ec955, 0x8a9136aa);
  }

  lemma OneBytes1(data: seq<bv8>)
    requires Feed(0xffff_ffff, data) == 0xffffffff
    ensures Feed(0xffff_ffff, data + ONES) == 0x10d0b3ef
  {
    hide Feed;
    var d := data;
    d := More(d, 0xff, 0xff, 0xff, 0xff, 0xffffffff, 0x00000000);
    d := More(d, 0xff, 0xff, 0xff, 0xff, 0x00000000, 0xb798b438);
    d := More(d, 0xff, 0xff, 0xff, 0xff, 0xb798b438, 0xc44ff94d);
    d := More(d, 0xff, 0xff, 0xff, 0xff, 0xc44ff94d, 0x10d0b3ef);
    assert d == data + ONES;
  }

  lemma OneBytes2(data: seq<bv8>)
    requires Feed(0xffff_ffff, data) == 0x10d0b3ef
    ensures Feed(0xffff_ffff, data + ONES) == 0x9d5754bc
  {
    hide Feed;
    var d := data;
    d := More(d, 0xff, 0xff, 0xff, 0xff, 0x10d0b3ef, 0xad5fd6fa);
    d := More(d, 0xff, 0xff, 0xff, 0xff, 0xad5fd6fa, 0xee657f3b);
    d := More(d, 0xff, 0xff, 0xff, 0xff, 0xee657f3b, 0x95616c2a);
    d := More(d, 0xff, 0xff, 0xff, 0xff, 0x95616c2a, 0x9d5754bc);
    assert d == data + ONES;
  }

  /** 32 bytes of ones. */
  lemma OneBytes()
    ensures Value(ONES + ONES) == 0x62a8ab43
  {
    hide Feed, Value;
    Begun();
    OneBytes1([]);
    OneBytes2([] + ONES);
    assert [] + ONES + ONES == ONES + ONES;
    Finished(ONES + ONES, 0x9d5754bc, 0x62a8ab43);
  }

  lemma Ascending1(data: seq<bv8>)
    requires Feed(0xffff_ffff, data) == 0xffffffff
    ensures Feed(0xffff_ffff, data + UP_LOW) == 0x2636f714
  {
    hide Feed;
    var d := data;
    d := More(d, 0x00, 0x01, 0x02, 0x03, 0xffffffff, 0x26cce55c);
    d := More(d, 0x04, 0x05, 0x06, 0x07, 0x26cce55c, 0x75d343c4);
    d := More(d, 0x08, 0x09, 0x0a, 0x0b, 0x75d343c4, 0xac7c5545);
    d := More(d, 0x0c, 0x0d, 0x0e, 0x0f, 0xac7c5545, 0x2636f714);
    assert d == data + UP_LOW;
  }

  lemma Ascending2(data: seq<bv8>)
    requires Feed(0xffff_ffff, data) == 0x2636f714
    ensures Feed(0xffff_ffff, data + UP_HIGH) == 0xb92286b1
  {
    hide Feed;
    var d := data;
    d := More(d, 0x10, 0x11, 0x12, 0x13, 0x2636f714, 0x33861419);
    d := More(d, 0x14, 0x15, 0x16, 0x17, 0x33861419, 0xd643786a);
    d := More(d, 0x18, 0x19, 0x1a, 0x1b, 0xd643786a, 0x9b21363e);
    d := More(d, 0x1c, 0x1d, 0x1e, 0x1f, 0x9b21363e, 0xb92286b1);
    assert d == data + UP_HIGH;
  }

  /** 32 bytes of incrementing values. */
  lemma Ascending()
    ensures Value(UP_LOW + UP_HIGH) == 0x46dd794e
  {
    hide Feed, Value;
    Begun();
    Ascending1([]);
    Ascending2([] + UP_LOW);
    assert [] + UP_LOW + UP_HIGH == UP_LOW + UP_HIGH;
    Finished(UP_LOW + UP_HIGH, 0xb92286b1, 0x46dd794e);
  }

  lemma Descending1(data: seq<bv8>)
    requires Feed(0xffff_ffff, data) == 0xffffffff
    ensures Feed(0xffff_ffff, data + DOWN_HIGH) == 0x7016b70c
  {
    hide Feed;
    var d := data;
    d := More(d, 0x1f, 0x1e, 0x1d, 0x1c, 0xffffffff, 0x8a1ea85c);
    d := More(d, 0x1b, 0x1a, 0x19, 0x18, 0x8a1ea85c, 0xeef60158);
    d := More(d, 0x17, 0x16, 0x15, 0x14, 0xeef60158, 0x9784ad03);
    d := More(d, 0x13, 0x12, 0x11, 0x10, 0x9784ad03, 0x7016b70c);
    assert d == data + DOWN_HIGH;
  }

  lemma Descending2(data: seq<bv8>)
    requires Feed(0xffff_ffff, data) == 0x7016b70c
    ensures Feed(0xffff_ffff, data + DOWN_LOW) == 0xeec024a3
  {
    hide Feed;
    var d := data;
    d := More(d, 0x0f, 0x0e, 0x0d, 0x0c, 0x7016b70c, 0x4f1ed522);
    d := More(d, 0x0b, 0x0a, 0x09, 0x08, 0x4f1ed522, 0x5c7c4cfa);
    d := More(d, 0x07, 0x06, 0x05, 0x04, 0x5c7c4cfa, 0xcd2c2a86);
    d := More(d, 0x03, 0x02, 0x01, 0x00, 0xcd2c2a86, 0xeec024a3);
    assert d == data + DOWN_LOW;
  }

  /** 32 bytes of decrementing values. */
  lemma Descending()
    ensures Value(DOWN_HIGH + DOWN_LOW) == 0x113fdb5c
  {
    hide Feed, Value;
    Begun();
    Descending1([]);
    Descending2([] + DOWN_HIGH);
    assert [] + DOWN_HIGH + DOWN_LOW == DOWN_HIGH + DOWN_LOW;
    Finished(DOWN_HIGH + DOWN_LOW, 0xeec024a3, 0x113fdb5c);
  }

  lemma ReadCommand1(data: seq<bv8>)
    requires Feed(0xffff_ffff, data) == 0xffffffff
    ensures Feed(0xffff_ffff, data + READ_1) == 0xf2772c61
  {
    hide Feed;
    var d := data;
    d := More(d, 0x01, 0xc0, 0x00, 0x00, 0xffffffff, 0x269fe91a);
    d := More(d, 0x00, 0x00, 0x00, 0x00, 0x269fe91a, 0xb53239dc);
    d := More(d, 0x00, 0x00, 0x00, 0x00, 0xb53239dc, 0x711d1b6d);
    d := More(d, 0x00, 0x00, 0x00, 0x00, 0x711d1b6d, 0xf2772c61);
    assert d == data + READ_1;
  }

  lemma ReadCommand2(data: seq<bv8>)
    requires Feed(0xffff_ffff, data) == 0xf2772c61
    ensures Feed(0xffff_ffff, data + READ_2) == 0x8259fe8c
  {
    hide Feed;
    var d := data;
    d := More(d, 0x14, 0x00, 0x00, 0x00, 0xf2772c61, 0xa32a0291);
    d := More(d, 0x00, 0x00, 0x04, 0x00, 0xa32a0291, 0x13a5b76d);
    d := More(d, 0x00, 0x00, 0x00, 0x14, 0x13a5b76d, 0x4f3ba2ce);
    d := More(d, 0x00, 0x00, 0x00, 0x18, 0x4f3ba2ce, 0x8259fe8c);
    assert d == data + READ_2;
  }

  lemma ReadCommand3(data: seq<bv8>)
    requires Feed(0xffff_ffff, data) == 0x8259fe8c
    ensures Feed(0xffff_ffff, data + READ_3) == 0x2669c5a9
  {
    hide Feed;
    var d := data;
    d := More(d, 0x28, 0x00, 0x00, 0x00, 0x8259fe8c, 0xe74a7254);
    d := More(d, 0x00, 0x00, 0x00, 0x00, 0xe74a7254, 0x52b072c0);
    d := More(d, 0x02, 0x00, 0x00, 0x00, 0x52b072c0, 0x541ea34d);
    d := More(d, 0x00, 0x00, 0x00, 0x00, 0x541ea34d, 0x2669c5a9);
    assert d == data + READ_3;
  }

  /** An iSCSI SCSI Read (10) command. */
  lemma ReadCommand()
    ensures Value(READ_1 + READ_2 + READ_3) == 0xd9963a56
  {
    hide Feed, Value;
    Begun();
    ReadCommand1([]);
    ReadCommand2([] + READ_1);
    ReadCommand3([] + READ_1 + READ_2);
    assert [] + READ_1 + READ_2 + READ_3 == READ_1 + READ_2 + READ_3;
    Finished(READ_1 + READ_2 + READ_3, 0x2669c5a9, 0xd9963a56);
  }
}
