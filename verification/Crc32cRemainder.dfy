/** What CRC-32C computes, section 12.1 of RFC 3720: the register holds the remainder of the message modulo
    the polynomial. Bits go in and out low bit first, so the low bit of a byte or of the register has the
    highest exponent. */
module Crc32cRemainder {
  import opened Crc32c
  import opened Polynomials

  /** The exponents of the CRC32C polynomial. */
  ghost const CRC32C: Polynomial :=
    iset{32, 28, 27, 26, 25, 23, 22, 20, 19, 18, 14, 13, 11, 10, 9, 8, 6, 0}

  // ----- Bits

  /** Bit k, the low one first. */
  predicate Bit(c: bv32, k: nat) {
    if k == 0 then Odd(c) else Bit(Half(c), k - 1)
  }

  lemma {:induction false} BitOfXor(a: bv32, b: bv32, k: nat)
    ensures Bit(Xor(a, b), k) <==> Bit(a, k) != Bit(b, k)
    decreases k
  {
    hide Xor, Half, Odd;
    OddLinear(a, b);
    if k > 0 {
      HalfLinear(a, b);
      BitOfXor(Half(a), Half(b), k - 1);
    }
  }

  /** c moved down by k bits. */
  function Halves(c: bv32, k: nat): bv32 {
    if k == 0 then c else Halves(Half(c), k - 1)
  }

  lemma HalfMonotone(a: bv32, b: bv32)
    requires a <= b
    ensures Half(a) <= Half(b)
  {
  }

  /** A number has no bit where a larger one has none left. */
  lemma {:induction false} NoBitBeyond(c: bv32, most: bv32, k: nat)
    requires c <= most && Halves(most, k) == 0
    ensures !Bit(c, k)
    decreases k
  {
    hide Half;
    if k == 0 {
      assert c == 0;
    } else {
      HalfMonotone(c, most);
      NoBitBeyond(Half(c), Half(most), k - 1);
    }
  }

  lemma {:induction false} HalvesOfZero(k: nat)
    ensures Halves(0, k) == 0
  {
    if k > 0 { HalvesOfZero(k - 1); }
  }

  lemma {:induction false} HalvesAdd(c: bv32, m: nat, n: nat)
    ensures Halves(c, m + n) == Halves(Halves(c, m), n)
    decreases m
  {
    if m > 0 { HalvesAdd(Half(c), m - 1, n); }
  }

  /** Words have 32 bits, bytes 8. */
  lemma BitsEnd(c: bv32, b: bv8, k: nat)
    ensures k >= 32 ==> !Bit(c, k)
    ensures k >= 8 ==> !Bit(Wide(b), k)
  {
    hide Halves, Bit;
    AllGone();
    if k >= 32 {
      HalvesAdd(0xffff_ffff, 32, k - 32);
      HalvesOfZero(k - 32);
      NoBitBeyond(c, 0xffff_ffff, k);
    }
    if k >= 8 {
      HalvesAdd(0xff, 8, k - 8);
      HalvesOfZero(k - 8);
      assert Wide(b) <= 0xff;
      NoBitBeyond(Wide(b), 0xff, k);
    }
  }

  lemma AllGone()
    ensures Halves(0xff, 8) == 0 && Halves(0xffff_ffff, 32) == 0
  {
    ByteGone(0xffff_ffff, 0xff_ffff);
    ByteGone(0xff_ffff, 0xffff);
    ByteGone(0xffff, 0xff);
    ByteGone(0xff, 0);
    hide Halves;
    HalvesAdd(0xffff_ffff, 8, 24);
    HalvesAdd(0xff_ffff, 8, 16);
    HalvesAdd(0xffff, 8, 8);
  }

  lemma ByteGone(c: bv32, d: bv32)
    requires d == ((((((((c >> 1) >> 1) >> 1) >> 1) >> 1) >> 1) >> 1) >> 1)
    ensures Halves(c, 8) == d
  {
    var c4 := (((c >> 1) >> 1) >> 1) >> 1;
    assert Halves(c4, 4) == d by { FourGone(c4); }
    assert Halves(c, 4) == c4 by { FourGone(c); }
    HalvesAdd(c, 4, 4);
  }

  lemma FourGone(c: bv32)
    ensures Halves(c, 4) == (((c >> 1) >> 1) >> 1) >> 1
  {
    var c2 := Half(Half(c));
    assert Halves(c, 4) == Halves(Half(c), 3) == Halves(c2, 2);
    assert Halves(c2, 2) == Halves(Half(c2), 1) == Halves(Half(Half(c2)), 0);
  }

  // ----- Registers and messages as polynomials

  ghost predicate RegisterHas(c: bv32, e: nat) {
    e < 32 && Bit(c, 31 - e)
  }

  ghost function Register(c: bv32): Polynomial {
    iset e: nat | RegisterHas(c, e)
  }

  ghost predicate ByteHas(b: bv8, e: nat) {
    e < 8 && Bit(Wide(b), 7 - e)
  }

  ghost function OfByte(b: bv8): Polynomial {
    iset e: nat | ByteHas(b, e)
  }

  /** The bits of the message, the first of them with the highest exponent. */
  ghost function Message(data: seq<bv8>): Polynomial {
    if data == [] then iset{} else Sum(Raise(Message(data[..|data| - 1]), 8), OfByte(data[|data| - 1]))
  }

  lemma RegisterOfXor(a: bv32, b: bv32)
    ensures Register(Xor(a, b)) == Sum(Register(a), Register(b))
  {
    hide Bit, Xor;
    forall e: nat ensures e in Register(Xor(a, b)) <==> e in Sum(Register(a), Register(b)) {
      if e < 32 { BitOfXor(a, b, 31 - e); }
    }
    Same(Register(Xor(a, b)), Sum(Register(a), Register(b)));
  }

  lemma RegisterOfByte(b: bv8)
    ensures Register(Wide(b)) == Raise(OfByte(b), 24)
  {
    hide Bit, Wide;
    forall e: nat ensures e in Register(Wide(b)) <==> e in Raise(OfByte(b), 24) {
      if e < 32 { BitsEnd(0, b, 31 - e); }
    }
    Same(Register(Wide(b)), Raise(OfByte(b), 24));
  }

  /** POLY has the exponents of the polynomial below 32. */
  lemma PolyBits(e: nat)
    ensures RegisterHas(POLY, e) <==> e < 32 && e in CRC32C
  {
    if e < 32 {
      PolyLow(31 - e);
    }
  }

  lemma PolyLow(k: nat)
    requires k < 32
    ensures Bit(POLY, k) <==> 31 - k in CRC32C
  {
    hide Bit, Halves;
    ByteGone(POLY, 0x82f63b);
    ByteGone(0x82f63b, 0x82f6);
    ByteGone(0x82f6, 0x82);
    HalvesAdd(POLY, 8, 8);
    HalvesAdd(POLY, 16, 8);
    if k < 8 {
      PolyByte0(k);
    } else if k < 16 {
      BitOfHalves(POLY, 8, k - 8);
      PolyByte1(k - 8);
    } else if k < 24 {
      BitOfHalves(POLY, 16, k - 16);
      PolyByte2(k - 16);
    } else {
      BitOfHalves(POLY, 24, k - 24);
      PolyByte3(k - 24);
    }
  }

  lemma {:induction false} BitOfHalves(c: bv32, m: nat, k: nat)
    ensures Bit(c, m + k) == Bit(Halves(c, m), k)
    decreases m
  {
    if m > 0 { BitOfHalves(Half(c), m - 1, k); }
  }

  lemma PolyByte0(k: nat)
    requires k < 8
    ensures Bit(0x82f63b78, k) <==> 31 - k in CRC32C
  {
    assert !Bit(0x82f63b78, 0) && !Bit(0x82f63b78, 1) && !Bit(0x82f63b78, 2) && Bit(0x82f63b78, 3);
    assert Bit(0x82f63b78, 4) && Bit(0x82f63b78, 5) && Bit(0x82f63b78, 6) && !Bit(0x82f63b78, 7);
  }

  lemma PolyByte1(k: nat)
    requires k < 8
    ensures Bit(0x82f63b, k) <==> 23 - k in CRC32C
  {
    assert Bit(0x82f63b, 0) && Bit(0x82f63b, 1) && !Bit(0x82f63b, 2) && Bit(0x82f63b, 3);
    assert Bit(0x82f63b, 4) && Bit(0x82f63b, 5) && !Bit(0x82f63b, 6) && !Bit(0x82f63b, 7);
  }

  lemma PolyByte2(k: nat)
    requires k < 8
    ensures Bit(0x82f6, k) <==> 15 - k in CRC32C
  {
    assert !Bit(0x82f6, 0) && Bit(0x82f6, 1) && Bit(0x82f6, 2) && !Bit(0x82f6, 3);
    assert Bit(0x82f6, 4) && Bit(0x82f6, 5) && Bit(0x82f6, 6) && Bit(0x82f6, 7);
  }

  lemma PolyByte3(k: nat)
    requires k < 8
    ensures Bit(0x82, k) <==> 7 - k in CRC32C
  {
    assert !Bit(0x82, 0) && Bit(0x82, 1) && !Bit(0x82, 2) && !Bit(0x82, 3);
    assert !Bit(0x82, 4) && !Bit(0x82, 5) && !Bit(0x82, 6) && Bit(0x82, 7);
  }

  // ----- One bit, one byte, a message

  /** A zero bit multiplies by x, modulo the polynomial. */
  lemma ZeroBitRaises(c: bv32)
    ensures Congruent(Raise(Register(c), 1), Register(ZeroBit(c)), CRC32C)
  {
    hide Bit, Xor, Half, Odd;
    var up := Raise(Register(c), 1);
    HalfRaises(c);
    if Odd(c) {
      RegisterOfXor(Half(c), POLY);
      assert Register(ZeroBit(c)) == Sum(Register(Half(c)), Register(POLY));
      forall e: nat ensures e in Register(ZeroBit(c)) <==> e in Sum(up, CRC32C) {
        PolyBits(e);
        assert e in Register(POLY) <==> RegisterHas(POLY, e);
        assert e in Register(Half(c)) <==> e in up && e != 32;
        assert e > 32 ==> e !in CRC32C;
      }
      Same(Register(ZeroBit(c)), Sum(up, CRC32C));
      CongruentModulus(up, CRC32C);
    } else {
      Same(Register(ZeroBit(c)), up);
      CongruentReflexive(up, CRC32C);
    }
  }

  lemma HalfRaises(c: bv32)
    ensures forall e: nat :: e in Register(Half(c)) <==> e in Raise(Register(c), 1) && e != 32
    ensures 32 in Raise(Register(c), 1) <==> Odd(c)
    ensures forall e: nat :: e in Raise(Register(c), 1) ==> e <= 32
  {
    hide Bit, Half, Odd;
    BitsEnd(c, 0, 32);
    BitStep(c, 0);
    forall e: nat ensures e in Register(Half(c)) <==> e in Raise(Register(c), 1) && e != 32 {
      if e < 32 { BitStep(c, 31 - e); }
    }
  }

  lemma BitStep(c: bv32, k: nat)
    ensures Bit(c, 0) == Odd(c) && Bit(c, k + 1) == Bit(Half(c), k)
  {
  }

  lemma {:induction false} ZerosRaise(n: nat, c: bv32)
    ensures Congruent(Raise(Register(c), n), Register(Zeros(n, c)), CRC32C)
  {
    hide Register, Congruent, ZeroBit, Raise;
    if n == 0 {
      RaiseNothing(Register(c));
      CongruentReflexive(Register(c), CRC32C);
    } else {
      ZeroBitRaises(c);
      CongruentRaise(Raise(Register(c), 1), Register(ZeroBit(c)), n - 1, CRC32C);
      RaiseAdd(Register(c), 1, n - 1);
      ZerosRaise(n - 1, ZeroBit(c));
      CongruentTransitive(Raise(Register(c), n), Raise(Register(ZeroBit(c)), n - 1), Register(Zeros(n, c)), CRC32C);
    }
  }

  /** A byte goes in with its bits above the register's: the register and the byte are raised by eight. */
  lemma ByteRaises(c: bv32, b: bv8)
    ensures Congruent(Sum(Raise(Register(c), 8), Raise(OfByte(b), 32)), Register(Byte(c, b)), CRC32C)
  {
    hide Register, Congruent, Raise, Sum, OfByte, Zeros;
    RegisterOfXor(c, Wide(b));
    RegisterOfByte(b);
    ZerosRaise(8, Xor(c, Wide(b)));
    RaiseSum(Register(c), Register(Wide(b)), 8);
    RaiseAdd(OfByte(b), 24, 8);
  }

  /** Feeding a message leaves the message, raised by 32, plus the register it began with, raised past the
      message, modulo the polynomial. */
  lemma {:induction false} FeedIsCongruent(c: bv32, data: seq<bv8>)
    ensures Congruent(Sum(Raise(Register(c), 8 * |data|), Raise(Message(data), 32)), Register(Feed(c, data)), CRC32C)
    decreases |data|
  {
    hide Register, Congruent, Raise, Sum, OfByte, Byte, Feed, Message;
    if data == [] {
      NothingFed(c);
    } else {
      var front, b := data[..|data| - 1], data[|data| - 1];
      var m := 8 * |front|;
      FeedIsCongruent(c, front);
      FeedLast(c, data);
      var before := Sum(Raise(Register(c), m), Raise(Message(front), 32));
      CongruentRaise(before, Register(Feed(c, front)), 8, CRC32C);
      RaiseSum(Raise(Register(c), m), Raise(Message(front), 32), 8);
      RaiseAdd(Register(c), m, 8);
      RaiseAdd(Message(front), 32, 8);
      RaiseAdd(Message(front), 8, 32);
      var last := Raise(OfByte(b), 32);
      CongruentReflexive(last, CRC32C);
      CongruentSum(Raise(before, 8), Raise(Register(Feed(c, front)), 8), last, last, CRC32C);
      ByteRaises(Feed(c, front), b);
      RaiseSum(Raise(Message(front), 8), OfByte(b), 32);
      SumAssociative(Raise(Register(c), m + 8), Raise(Message(front), 40), last);
      CongruentTransitive(Sum(Raise(before, 8), last), Sum(Raise(Register(Feed(c, front)), 8), last),
                          Register(Feed(c, data)), CRC32C);
    }
  }

  lemma NothingFed(c: bv32)
    ensures Congruent(Sum(Raise(Register(c), 0), Raise(Message([]), 32)), Register(Feed(c, [])), CRC32C)
  {
    hide Register, Congruent;
    Same(Sum(Raise(Register(c), 0), Raise(Message([]), 32)), Register(c));
    CongruentReflexive(Register(c), CRC32C);
  }

  lemma FeedLast(c: bv32, data: seq<bv8>)
    requires data != []
    ensures var front, b := data[..|data| - 1], data[|data| - 1];
            && Feed(c, data) == Byte(Feed(c, front), b)
            && Message(data) == Sum(Raise(Message(front), 8), OfByte(b))
  {
    hide Byte, Register, Raise, Sum, OfByte;
    var front, b := data[..|data| - 1], data[|data| - 1];
    assert data == front + [b];
    FeedConcat(c, front, [b]);
    assert [b][1..] == [];
    assert Feed(Feed(c, front), [b]) == Feed(Byte(Feed(c, front), b), []);
  }

  // ----- The checksum

  /** All exponents of a register: what inverting it adds. */
  ghost const ONES: Polynomial := iset e: nat | e < 32

  lemma RegisterOfFlip(c: bv32)
    ensures Register(Flip(c)) == Sum(Register(c), ONES)
  {
    hide Bit, Xor;
    forall e: nat | e < 32 ensures RegisterHas(0xffff_ffff, e) { OnesHaveBits(31 - e); }
    assert Flip(c) == Xor(c, 0xffff_ffff) by { FlipIsXor(c); }
    RegisterOfXor(c, 0xffff_ffff);
    Same(Register(0xffff_ffff), ONES);
  }

  lemma FlipIsXor(c: bv32)
    ensures Flip(c) == Xor(c, 0xffff_ffff)
  {
  }

  const LOW: seq<bv32> := [0x00, 0x01, 0x03, 0x07, 0x0f, 0x1f, 0x3f, 0x7f, 0xff]

  lemma HalfOfLow(c: bv32, n: nat)
    requires 0 < n <= 8 && c & LOW[n] == LOW[n]
    ensures Odd(c) && Half(c) & LOW[n - 1] == LOW[n - 1]
  {
    assert c & 0x03 == 0x03 ==> (c >> 1) & 0x01 == 0x01;
    assert c & 0x07 == 0x07 ==> (c >> 1) & 0x03 == 0x03;
    assert c & 0x0f == 0x0f ==> (c >> 1) & 0x07 == 0x07;
    assert c & 0x1f == 0x1f ==> (c >> 1) & 0x0f == 0x0f;
    assert c & 0x3f == 0x3f ==> (c >> 1) & 0x1f == 0x1f;
    assert c & 0x7f == 0x7f ==> (c >> 1) & 0x3f == 0x3f;
    assert c & 0xff == 0xff ==> (c >> 1) & 0x7f == 0x7f;
    assert c & LOW[n] == LOW[n] ==> c & 1 == 1;
  }

  lemma {:induction false} LowBitsSet(c: bv32, n: nat, k: nat)
    requires k < n <= 8 && c & LOW[n] == LOW[n]
    ensures Bit(c, k)
    decreases k
  {
    hide Odd, Half;
    HalfOfLow(c, n);
    if k > 0 { LowBitsSet(Half(c), n - 1, k - 1); }
  }

  lemma OnesHaveBits(k: nat)
    requires k < 32
    ensures Bit(0xffff_ffff, k)
  {
    hide Bit, Halves;
    ByteGone(0xffff_ffff, 0xff_ffff);
    ByteGone(0xff_ffff, 0xffff);
    ByteGone(0xffff, 0xff);
    HalvesAdd(0xffff_ffff, 8, 8);
    HalvesAdd(0xffff_ffff, 16, 8);
    if k < 8 {
      LowBitsSet(0xffff_ffff, 8, k);
    } else if k < 16 {
      BitOfHalves(0xffff_ffff, 8, k - 8);
      LowBitsSet(0xff_ffff, 8, k - 8);
    } else if k < 24 {
      BitOfHalves(0xffff_ffff, 16, k - 16);
      LowBitsSet(0xffff, 8, k - 16);
    } else {
      BitOfHalves(0xffff_ffff, 24, k - 24);
      LowBitsSet(0xff, 8, k - 24);
    }
  }

  /** A word is its bits. */
  lemma {:induction false} SameHalves(a: bv32, b: bv32, n: nat)
    requires Halves(a, n) == Halves(b, n) && forall k: nat :: k < n ==> Bit(a, k) == Bit(b, k)
    ensures a == b
    decreases n
  {
    hide Odd, Half;
    if n > 0 {
      forall k: nat | k < n - 1 ensures Bit(Half(a), k) == Bit(Half(b), k) {
        assert Bit(a, k + 1) == Bit(b, k + 1);
      }
      assert Bit(a, 0) == Bit(b, 0);
      SameHalves(Half(a), Half(b), n - 1);
      Joined(a, b);
    }
  }

  lemma Joined(a: bv32, b: bv32)
    requires Odd(a) == Odd(b) && Half(a) == Half(b)
    ensures a == b
  {
    assert a & 1 == 0 || a & 1 == 1;
    assert b & 1 == 0 || b & 1 == 1;
    assert a == ((a >> 1) << 1) | (a & 1) && b == ((b >> 1) << 1) | (b & 1);
  }

  lemma {:induction false} HalvesMonotone(c: bv32, most: bv32, k: nat)
    requires c <= most
    ensures Halves(c, k) <= Halves(most, k)
    decreases k
  {
    hide Half;
    if k > 0 {
      HalfMonotone(c, most);
      HalvesMonotone(Half(c), Half(most), k - 1);
    }
  }

  lemma RegisterIsInjective(a: bv32, b: bv32)
    requires Register(a) == Register(b)
    ensures a == b
  {
    hide Bit, Halves;
    AllGone();
    HalvesMonotone(a, 0xffff_ffff, 32);
    HalvesMonotone(b, 0xffff_ffff, 32);
    forall k: nat | k < 32 ensures Bit(a, k) == Bit(b, k) {
      assert 31 - k in Register(a) <==> 31 - k in Register(b);
    }
    SameHalves(a, b, 32);
  }

  /** Extending a checksum by a message: with the inversions before and after undone, the new checksum is the
      remainder of the old one, raised past the message, plus the message raised by 32. */
  lemma ExtendIsRemainder(crc: bv32, data: seq<bv8>)
    ensures HasDegree(CRC32C, 32)
    ensures IsRemainder(Sum(Register(Extend(crc, data)), ONES), Dividend(crc, data), CRC32C, 32)
  {
    hide Congruent, Feed, Raise, Register, Flip, Message;
    var fed := Feed(Flip(crc), data);
    RegisterOfFlip(crc);
    RegisterOfFlip(fed);
    FeedIsCongruent(Flip(crc), data);
    SumTwice(Register(fed), ONES);
    RegisterBelow(fed);
  }

  ghost function Dividend(crc: bv32, data: seq<bv8>): Polynomial {
    Sum(Raise(Sum(Register(crc), ONES), 8 * |data|), Raise(Message(data), 32))
  }

  lemma SumTwice(a: Polynomial, b: Polynomial)
    ensures Sum(Sum(a, b), b) == a
  {
    Same(Sum(Sum(a, b), b), a);
  }

  lemma RegisterBelow(c: bv32)
    ensures forall e :: e in Register(c) ==> e < 32
  {
  }

  /** And no other word is. */
  lemma RemainderIsExtend(crc: bv32, data: seq<bv8>, r: bv32)
    requires IsRemainder(Sum(Register(r), ONES), Dividend(crc, data), CRC32C, 32)
    ensures r == Extend(crc, data)
  {
    hide IsRemainder, Dividend, Register, Extend, HasDegree;
    ExtendIsRemainder(crc, data);
    RemainderIsUnique(Sum(Register(r), ONES), Sum(Register(Extend(crc, data)), ONES), Dividend(crc, data), CRC32C, 32);
    SumTwice(Register(r), ONES);
    SumTwice(Register(Extend(crc, data)), ONES);
    RegisterIsInjective(r, Extend(crc, data));
  }
}
