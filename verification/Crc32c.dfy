/** CRC-32C (section 12.1 of RFC 3720), bit by bit, and the masking of external/pdlfs-common's crc32c.h. */
module Crc32c {

  /** The polynomial in reversed bit order. */
  const POLY: bv32 := 0x82f63b78

  function Xor(a: bv32, b: bv32): bv32 {
    a ^ b
  }

  /** Inversion of the register before and after a run. */
  function Flip(x: bv32): bv32 {
    x ^ 0xffff_ffff
  }

  lemma XorAssociative(a: bv32, b: bv32, c: bv32)
    ensures Xor(Xor(a, b), c) == Xor(a, Xor(b, c))
  {
  }

  lemma XorZero(a: bv32)
    ensures Xor(a, 0) == a && Xor(0, a) == a
  {
  }

  lemma FlipTwice(a: bv32)
    ensures Flip(Flip(a)) == a
  {
    var m: bv32 := 0xffff_ffff;
    assert (a ^ m) ^ m == a;
  }

  predicate Odd(l: bv32) {
    l & 1 == 1
  }

  function Half(l: bv32): bv32 {
    l >> 1
  }

  /** Feeds one zero bit. */
  function ZeroBit(l: bv32): bv32 {
    if Odd(l) then Xor(Half(l), POLY) else Half(l)
  }

  /** Feeds n zero bits. */
  function Zeros(n: nat, l: bv32): bv32 {
    if n == 0 then l else Zeros(n - 1, ZeroBit(l))
  }

  function Wide(b: bv8): bv32 {
    b as bv32
  }

  /** Feeds one byte. */
  function Byte(l: bv32, b: bv8): bv32 {
    Zeros(8, Xor(l, Wide(b)))
  }

  /** Feeds a string of bytes to the register. */
  function Feed(l: bv32, data: seq<bv8>): bv32
    decreases |data|
  {
    if data == [] then l else Feed(Byte(l, data[0]), data[1..])
  }

  /** The CRC of (what crc stands for) followed by data. */
  function Extend(crc: bv32, data: seq<bv8>): bv32 {
    Flip(Feed(Flip(crc), data))
  }

  function Value(data: seq<bv8>): bv32 {
    Extend(0, data)
  }

  lemma {:induction false} FeedConcat(l: bv32, a: seq<bv8>, b: seq<bv8>)
    ensures Feed(l, a + b) == Feed(Feed(l, a), b)
    decreases |a|
  {
    hide Byte;
    if a == [] {
      assert a + b == b;
    } else {
      FeedConcat(Byte(l, a[0]), a[1..], b);
      assert (a + b)[1..] == a[1..] + b;
    }
  }

  /** Extending the CRC of a by b gives the CRC of a followed by b. */
  lemma ExtendConcat(crc: bv32, a: seq<bv8>, b: seq<bv8>)
    ensures Extend(Extend(crc, a), b) == Extend(crc, a + b)
    ensures Extend(Value(a), b) == Value(a + b)
  {
    hide Feed, Flip;
    FeedConcat(Flip(crc), a, b);
    FeedConcat(Flip(0), a, b);
    FlipTwice(Feed(Flip(crc), a));
    FlipTwice(Feed(Flip(0), a));
  }

  // ----- Linearity

  lemma ZeroBitLinear(a: bv32, b: bv32)
    ensures ZeroBit(Xor(a, b)) == Xor(ZeroBit(a), ZeroBit(b))
  {
    hide Xor, Odd, Half;
    HalfLinear(a, b);
    OddLinear(a, b);
    PolyCancels(Half(a), Half(b));
  }

  lemma HalfLinear(a: bv32, b: bv32)
    ensures Half(Xor(a, b)) == Xor(Half(a), Half(b))
  {
  }

  lemma OddLinear(a: bv32, b: bv32)
    ensures Odd(Xor(a, b)) <==> Odd(a) != Odd(b)
  {
    assert a & 1 == 0 || a & 1 == 1;
    assert b & 1 == 0 || b & 1 == 1;
    assert (a ^ b) & 1 == (a & 1) ^ (b & 1);
  }

  lemma PolyCancels(x: bv32, y: bv32)
    ensures Xor(Xor(x, POLY), Xor(y, POLY)) == Xor(x, y)
    ensures Xor(Xor(x, POLY), y) == Xor(Xor(x, y), POLY)
    ensures Xor(x, Xor(y, POLY)) == Xor(Xor(x, y), POLY)
  {
    XorCommutative(x, POLY);
    XorCommutative(y, POLY);
    XorCommutative(x, y);
    XorSelf(POLY);
    hide Xor;
    XorAssociative(x, POLY, Xor(POLY, y));
    XorAssociative(POLY, POLY, y);
    XorZero(y);
    XorAssociative(x, POLY, y);
    XorAssociative(x, y, POLY);
  }

  lemma XorCommutative(a: bv32, b: bv32)
    ensures Xor(a, b) == Xor(b, a)
  {
  }

  lemma XorSelf(a: bv32)
    ensures Xor(a, a) == 0
  {
  }

  lemma {:induction false} ZerosLinear(n: nat, a: bv32, b: bv32)
    ensures Zeros(n, Xor(a, b)) == Xor(Zeros(n, a), Zeros(n, b))
  {
    hide ZeroBit, Xor;
    if n > 0 {
      ZeroBitLinear(a, b);
      ZerosLinear(n - 1, ZeroBit(a), ZeroBit(b));
    }
  }

  lemma {:induction false} ZerosOfZero(n: nat)
    ensures Zeros(n, 0) == 0
  {
    if n > 0 { ZerosOfZero(n - 1); }
  }

  lemma {:induction false} ZerosAdd(m: nat, n: nat, l: bv32)
    ensures Zeros(m + n, l) == Zeros(n, Zeros(m, l))
  {
    if m > 0 { ZerosAdd(m - 1, n, ZeroBit(l)); }
  }

  /** A register fed with data is the data fed alone, plus the register pushed along by as many zeros. */
  lemma {:induction false} FeedLinear(l: bv32, data: seq<bv8>)
    ensures Feed(l, data) == Xor(Zeros(8 * |data|, l), Feed(0, data))
    decreases |data|
  {
    hide Zeros, ZeroBit, Xor;
    if data == [] {
      NoZeros(l);
      XorZero(l);
    } else {
      var b := Wide(data[0]);
      var rest := data[1..];
      var n := 8 * |rest|;
      FeedLinear(Byte(l, data[0]), rest);
      FeedLinear(Byte(0, data[0]), rest);
      ZerosLinear(8, l, b);
      XorZero(b);
      ZerosLinear(n, Zeros(8, l), Zeros(8, b));
      ZerosAdd(8, n, l);
      assert 8 + n == 8 * |data|;
      XorAssociative(Zeros(8 * |data|, l), Zeros(n, Zeros(8, b)), Feed(0, rest));
    }
  }

  lemma NoZeros(l: bv32)
    ensures Zeros(0, l) == l
  {
  }

  /** A value above the low byte is only moved down by a byte of zeros. */
  lemma ShiftDown(x: bv32)
    requires TopClear(x)
    ensures Zeros(8, Up(x)) == x
  {
    hide Zeros;
    EightZeros(Up(x));
  }

  predicate TopClear(x: bv32) {
    x & 0xff00_0000 == 0
  }

  /** One byte up. */
  function Up(x: bv32): bv32 {
    x << 8
  }

  lemma EightZeros(y: bv32)
    ensures Zeros(8, y) == ZeroBit(ZeroBit(ZeroBit(ZeroBit(ZeroBit(ZeroBit(ZeroBit(ZeroBit(y))))))))
  {
    hide ZeroBit, Zeros;
    FourZeros(ZeroBit(ZeroBit(ZeroBit(ZeroBit(y)))));
    FourZeros(y);
    ZerosAdd(4, 4, y);
  }

  lemma FourZeros(y: bv32)
    ensures Zeros(4, y) == ZeroBit(ZeroBit(ZeroBit(ZeroBit(y))))
  {
    hide ZeroBit;
    var z := ZeroBit(ZeroBit(y));
    assert Zeros(3, ZeroBit(y)) == Zeros(2, z);
    assert Zeros(1, ZeroBit(z)) == ZeroBit(ZeroBit(z));
  }

  // ----- Masking, for CRCs stored next to the data they cover

  const MASK_DELTA: bv32 := 0xa282ead8

  function Mask(crc: bv32): bv32 {
    ((crc >> 15) | (crc << 17)) + MASK_DELTA
  }

  function Unmask(masked: bv32): bv32 {
    var rot := masked - MASK_DELTA;
    (rot >> 17) | (rot << 15)
  }

  lemma MaskRoundTrip(crc: bv32)
    ensures Unmask(Mask(crc)) == crc && Mask(Unmask(crc)) == crc
  {
    RotateRoundTrip(crc);
    RotateRoundTrip(crc - MASK_DELTA);
    var m := (crc >> 15) | (crc << 17);
    assert m + MASK_DELTA - MASK_DELTA == m;
    assert crc - MASK_DELTA + MASK_DELTA == crc;
  }

  lemma RotateRoundTrip(x: bv32)
    ensures (((x >> 15) | (x << 17)) >> 17) | (((x >> 15) | (x << 17)) << 15) == x
    ensures (((x >> 17) | (x << 15)) >> 15) | (((x >> 17) | (x << 15)) << 17) == x
  {
  }
}
