/** The four-bytes-at-a-time CRC of external/pdlfs-common/src/crc32c/crc32c_sw.cc. */
module Crc32cSoftware {
  import opened ByteBits
  import opened Crc32c

  /** Table k holds, for every byte, the register left by that byte and k bytes of zeros after it. */
  function Table(k: nat, c: bv8): bv32 {
    Zeros(8 * k + 8, Wide(c))
  }

  /** Byte k of a word, counting from the low end. */
  function Lane(l: bv32, k: nat): bv8
    requires k < 4
  {
    if k == 0 then (l & 0xff) as bv8
    else if k == 1 then ((l >> 8) & 0xff) as bv8
    else if k == 2 then ((l >> 16) & 0xff) as bv8
    else (l >> 24) as bv8
  }

  /** One byte down. */
  function Down(l: bv32): bv32 {
    l >> 8
  }

  function XorByte(a: bv8, b: bv8): bv8 {
    a ^ b
  }

  /** STEP1. */
  function Step1(l: bv32, b: bv8): bv32 {
    Xor(Table(0, XorByte(Lane(l, 0), b)), Down(l))
  }

  /** STEP4. */
  function Step4(l: bv32, b: seq<bv8>): bv32
    requires |b| == 4
  {
    var c := Xor(l, DecodeFixed32(b));
    Xor(Xor(Xor(Table(3, Lane(c, 0)), Table(2, Lane(c, 1))), Table(1, Lane(c, 2))), Table(0, Lane(c, 3)))
  }

  /** One table step is eight bit steps. */
  lemma Step1IsByte(l: bv32, b: bv8)
    ensures Step1(l, b) == Byte(l, b)
  {
    hide Zeros, Xor, Wide, Up, Down, Lane, XorByte, TopClear;
    var c := XorByte(Lane(l, 0), b);
    SplitLowByte(l, b);
    ZerosLinear(8, Wide(c), Up(Down(l)));
    DownClearsTop(l);
    ShiftDown(Down(l));
  }

  lemma SplitLowByte(l: bv32, b: bv8)
    ensures Xor(Wide(XorByte(Lane(l, 0), b)), Up(Down(l))) == Xor(l, Wide(b))
  {
  }

  lemma DownClearsTop(l: bv32)
    ensures TopClear(Down(l))
  {
  }

  /** The value of up to four bytes, the first lowest. */
  function Load(b: seq<bv8>): bv32
    requires |b| <= 4
    decreases |b|
  {
    if b == [] then 0 else Xor(Wide(b[0]), Up(Load(b[1..])))
  }

  /** v fits into n bytes. */
  predicate Fits(v: bv32, n: nat)
    requires n <= 4
  {
    v & [0xffff_ffff, 0xffff_ff00, 0xffff_0000, 0xff00_0000, 0][n] == 0
  }

  lemma {:induction false} LoadFits(b: seq<bv8>)
    requires |b| <= 4
    ensures Fits(Load(b), |b|)
    decreases |b|
  {
    if b != [] {
      LoadFits(b[1..]);
      FitsStep(b[0], Load(b[1..]), |b| - 1);
    }
  }

  lemma FitsStep(b: bv8, v: bv32, n: nat)
    requires n < 4 && Fits(v, n)
    ensures Fits(Xor(Wide(b), Up(v)), n + 1)
  {
  }

  lemma ShortClearsTop(v: bv32, n: nat)
    requires n <= 3 && Fits(v, n)
    ensures TopClear(v)
  {
  }

  /** A byte of zeros pushed through x leaves room for v to join one byte earlier. */
  lemma Lift(x: bv32, v: bv32)
    requires TopClear(v)
    ensures Xor(Zeros(8, x), v) == Zeros(8, Xor(x, Up(v)))
  {
    hide Zeros, Xor, Up, TopClear;
    ZerosLinear(8, x, Up(v));
    ShiftDown(v);
  }

  /** Feeding a word at once: xor it in and push as many bytes of zeros through. */
  lemma {:induction false} FeedWord(l: bv32, b: seq<bv8>)
    requires |b| <= 4
    ensures Feed(l, b) == Zeros(8 * |b|, Xor(l, Load(b)))
    decreases |b|
  {
    hide Zeros, Xor, Up, Wide, TopClear, Fits;
    if b == [] {
      NoZeros(Xor(l, 0));
      XorZero(l);
    } else {
      var rest := b[1..];
      FeedWord(Byte(l, b[0]), rest);
      LoadFits(rest);
      ShortClearsTop(Load(rest), |rest|);
      Lift(Xor(l, Wide(b[0])), Load(rest));
      XorAssociative(l, Wide(b[0]), Up(Load(rest)));
      ZerosAdd(8, 8 * |rest|, Xor(l, Load(b)));
      assert 8 + 8 * |rest| == 8 * |b|;
    }
  }

  lemma LoadIsFixed32(b: seq<bv8>)
    requires |b| == 4
    ensures Load(b) == DecodeFixed32(b)
  {
    hide Xor, Up, Wide, DecodeFixed32;
    assert b[1..][1..] == b[2..] && b[2..][1..] == b[3..] && b[3..][1..] == [];
    assert Load(b[3..]) == Xor(Wide(b[3]), Up(Load([])));
    assert Load(b[2..]) == Xor(Wide(b[2]), Up(Load(b[3..])));
    assert Load(b[1..]) == Xor(Wide(b[1]), Up(Load(b[2..])));
    NestedBytes(b);
  }

  lemma NestedBytes(b: seq<bv8>)
    requires |b| == 4
    ensures Xor(Wide(b[0]), Up(Xor(Wide(b[1]), Up(Xor(Wide(b[2]), Up(Xor(Wide(b[3]), Up(0)))))))) == DecodeFixed32(b)
  {
    FourBytes(b[0], b[1], b[2], b[3]);
  }

  lemma FourBytes(b0: bv8, b1: bv8, b2: bv8, b3: bv8)
    ensures Xor(Wide(b0), Up(Xor(Wide(b1), Up(Xor(Wide(b2), Up(Xor(Wide(b3), Up(0))))))))
         == (b0 as bv32) | ((b1 as bv32) << 8) | ((b2 as bv32) << 16) | ((b3 as bv32) << 24)
  {
  }

  /** A byte k places up comes down after k bytes of zeros. */
  lemma BytesDown(c: bv8)
    ensures Zeros(32, Up(Wide(c))) == Table(2, c)
    ensures Zeros(32, Up(Up(Wide(c)))) == Table(1, c)
    ensures Zeros(32, Up(Up(Up(Wide(c))))) == Table(0, c)
  {
    hide Zeros, Up, Wide, TopClear;
    var v := Wide(c);
    ByteClearsTop(c);
    ShiftDown(v);
    ShiftDown(Up(v));
    ShiftDown(Up(Up(v)));
    ZerosAdd(8, 24, Up(v));
    ZerosAdd(8, 24, Up(Up(v)));
    ZerosAdd(8, 16, Up(v));
    ZerosAdd(8, 24, Up(Up(Up(v))));
    ZerosAdd(8, 16, Up(Up(v)));
    ZerosAdd(8, 8, Up(v));
  }

  lemma ByteClearsTop(c: bv8)
    ensures TopClear(Wide(c)) && TopClear(Up(Wide(c))) && TopClear(Up(Up(Wide(c))))
  {
  }

  /** One four-byte table step is four byte steps. */
  lemma Step4IsFeed(l: bv32, b: seq<bv8>)
    requires |b| == 4
    ensures Step4(l, b) == Feed(l, b)
  {
    hide Zeros, Xor, DecodeFixed32, Lane, Wide, Up;
    FeedWord(l, b);
    LoadIsFixed32(b);
    var c := Xor(l, DecodeFixed32(b));
    BytesDown(Lane(c, 1));
    BytesDown(Lane(c, 2));
    BytesDown(Lane(c, 3));
    var p0, p1 := Wide(Lane(c, 0)), Up(Wide(Lane(c, 1)));
    var p2, p3 := Up(Up(Wide(Lane(c, 2)))), Up(Up(Up(Wide(Lane(c, 3)))));
    SplitWord(c);
    ZerosLinear(32, Xor(Xor(p0, p1), p2), p3);
    ZerosLinear(32, Xor(p0, p1), p2);
    ZerosLinear(32, p0, p1);
  }

  lemma SplitWord(c: bv32)
    ensures c == Xor(Xor(Xor(Wide(Lane(c, 0)), Up(Wide(Lane(c, 1)))), Up(Up(Wide(Lane(c, 2))))),
                     Up(Up(Up(Wide(Lane(c, 3))))))
  {
  }

  /** ExtendSW on data that starts at the given address: single bytes up to a four-byte boundary, then
      sixteen and four bytes at a time, then the rest. */
  method ExtendSW(crc: bv32, data: seq<bv8>, address: nat) returns (r: bv32)
    ensures r == Extend(crc, data)
  {
    hide Feed, Step1, Step4, Flip;
    var l := Flip(crc);
    ghost var init := l;
    var p, e := 0, |data|;
    FeedNone(init);
    var x := (address + 3) / 4 * 4 - address;
    if x <= e {
      while p != x
        invariant 0 <= p <= x <= e && l == Feed(init, data[..p])
        decreases x - p
      {
        FeedOne(init, data, p, l);
        l := Step1(l, data[p]);
        p := p + 1;
      }
    }
    while e - p >= 16
      invariant 0 <= p <= e && l == Feed(init, data[..p])
    {
      var q := p;
      FeedFour(init, data, q, l);
      l := Step4(l, data[q..q + 4]);
      FeedFour(init, data, q + 4, l);
      l := Step4(l, data[q + 4..q + 8]);
      FeedFour(init, data, q + 8, l);
      l := Step4(l, data[q + 8..q + 12]);
      FeedFour(init, data, q + 12, l);
      l := Step4(l, data[q + 12..q + 16]);
      p := p + 16;
    }
    while e - p >= 4
      invariant 0 <= p <= e && l == Feed(init, data[..p])
    {
      FeedFour(init, data, p, l);
      l := Step4(l, data[p..p + 4]);
      p := p + 4;
    }
    while p != e
      invariant 0 <= p <= e && l == Feed(init, data[..p])
      decreases e - p
    {
      FeedOne(init, data, p, l);
      l := Step1(l, data[p]);
      p := p + 1;
    }
    assert data[..e] == data;
    r := Flip(l);
  }

  lemma FeedNone(l: bv32)
    ensures Feed(l, []) == l
  {
  }

  lemma FeedOne(init: bv32, data: seq<bv8>, p: nat, l: bv32)
    requires p < |data| && l == Feed(init, data[..p])
    ensures Step1(l, data[p]) == Feed(init, data[..p + 1])
  {
    hide Step1, Byte;
    Step1IsByte(l, data[p]);
    FeedConcat(init, data[..p], [data[p]]);
    assert data[..p + 1] == data[..p] + [data[p]];
    assert Feed(l, [data[p]]) == Byte(l, data[p]) by { FeedNone(Byte(l, data[p])); }
  }

  lemma FeedFour(init: bv32, data: seq<bv8>, p: nat, l: bv32)
    requires p + 4 <= |data| && l == Feed(init, data[..p])
    ensures Step4(l, data[p..p + 4]) == Feed(init, data[..p + 4])
  {
    hide Step4, Feed;
    Step4IsFeed(l, data[p..p + 4]);
    FeedConcat(init, data[..p], data[p..p + 4]);
    assert data[..p + 4] == data[..p] + data[p..p + 4];
  }
}
