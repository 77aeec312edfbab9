/** Powers of two, single bits of bytes, and the fixed-width integers of
    external/pdlfs-common/src/coding.cc. */
module ByteBits {

  function Pow2(n: nat): (p: nat)
    ensures p > 0
  {
    if n == 0 then 1 else 2 * Pow2(n - 1)
  }

  lemma {:induction false} Pow2Monotone(m: nat, n: nat)
    requires m <= n
    ensures Pow2(m) <= Pow2(n) && (m < n ==> 2 * Pow2(m) <= Pow2(n))
    decreases n
  {
    if m < n { Pow2Monotone(m, n - 1); }
  }

  lemma {:induction false} Pow2Sum(m: nat, n: nat)
    ensures Pow2(m + n) == Pow2(m) * Pow2(n)
  {
    if m > 0 { Pow2Sum(m - 1, n); }
  }

  // ----- Bits of a byte

  function KBits(off: nat): bv8
    requires off < 8
  {
    [1, 2, 4, 8, 16, 32, 64, 128][off]
  }

  predicate BitIn(b: bv8, off: nat)
    requires off < 8
  {
    b & KBits(off) != 0
  }

  /** The value of the low m bits of a byte. */
  function LowBits(b: bv8, m: nat): nat
    requires m <= 8
  {
    if m == 0 then 0 else LowBits(b, m - 1) + if BitIn(b, m - 1) then Pow2(m - 1) else 0
  }

  /** (1 << m) - 1 as a byte. */
  function LowMask(m: nat): bv8
    requires m < 8
  {
    [0, 1, 3, 7, 15, 31, 63, 127][m]
  }

  lemma ByteValue(b: bv8)
    ensures b as nat == LowBits(b, 8)
  {
    assert b as nat == (b & 1) as nat + (b & 2) as nat + (b & 4) as nat + (b & 8) as nat
                     + (b & 16) as nat + (b & 32) as nat + (b & 64) as nat + (b & 128) as nat;
    SingleBits(b);
    LowBitsUnrolled(b);
  }

  lemma SingleBits(b: bv8)
    ensures (b & 1) as nat == if BitIn(b, 0) then 1 else 0
    ensures (b & 2) as nat == if BitIn(b, 1) then 2 else 0
    ensures (b & 4) as nat == if BitIn(b, 2) then 4 else 0
    ensures (b & 8) as nat == if BitIn(b, 3) then 8 else 0
    ensures (b & 16) as nat == if BitIn(b, 4) then 16 else 0
    ensures (b & 32) as nat == if BitIn(b, 5) then 32 else 0
    ensures (b & 64) as nat == if BitIn(b, 6) then 64 else 0
    ensures (b & 128) as nat == if BitIn(b, 7) then 128 else 0
  {
    assert b & 1 == 0 || b & 1 == 1;
    assert b & 2 == 0 || b & 2 == 2;
    assert b & 4 == 0 || b & 4 == 4;
    assert b & 8 == 0 || b & 8 == 8;
    assert b & 16 == 0 || b & 16 == 16;
    assert b & 32 == 0 || b & 32 == 32;
    assert b & 64 == 0 || b & 64 == 64;
    assert b & 128 == 0 || b & 128 == 128;
  }

  lemma SmallPowers()
    ensures Pow2(0) == 1 && Pow2(1) == 2 && Pow2(2) == 4 && Pow2(3) == 8
    ensures Pow2(4) == 16 && Pow2(5) == 32 && Pow2(6) == 64 && Pow2(7) == 128
  {
    assert Pow2(4) == 16;
  }

  lemma LowHalfUnrolled(b: bv8)
    ensures LowBits(b, 4) ==
            (if BitIn(b, 0) then 1 else 0) + (if BitIn(b, 1) then 2 else 0) +
            (if BitIn(b, 2) then 4 else 0) + (if BitIn(b, 3) then 8 else 0)
  {
    hide LowBits, BitIn, Pow2;
    NoLowBits(b);
    SmallPowers();
    LowBitsStep(b, 0);
    LowBitsStep(b, 1);
    LowBitsStep(b, 2);
    LowBitsStep(b, 3);
  }

  lemma LowBitsUnrolled(b: bv8)
    ensures LowBits(b, 8) ==
            (if BitIn(b, 0) then 1 else 0) + (if BitIn(b, 1) then 2 else 0) +
            (if BitIn(b, 2) then 4 else 0) + (if BitIn(b, 3) then 8 else 0) +
            (if BitIn(b, 4) then 16 else 0) + (if BitIn(b, 5) then 32 else 0) +
            (if BitIn(b, 6) then 64 else 0) + (if BitIn(b, 7) then 128 else 0)
  {
    hide LowBits, BitIn, Pow2;
    LowHalfUnrolled(b);
    SmallPowers();
    LowBitsStep(b, 4);
    LowBitsStep(b, 5);
    LowBitsStep(b, 6);
    LowBitsStep(b, 7);
  }

  lemma {:induction false} MaskedByte(b: bv8, m: nat)
    requires m < 8
    ensures (b & LowMask(m)) as nat == LowBits(b, m)
  {
    var c := b & LowMask(m);
    ByteValue(c);
    MaskKeepsLowBits(b, m, m);
    MaskDropsHighBits(b, m, 8);
  }

  lemma MaskBit(b: bv8, m: nat, off: nat)
    requires m < 8 && off < 8
    ensures BitIn(b & LowMask(m), off) <==> off < m && BitIn(b, off)
  {
  }

  lemma {:induction false} MaskKeepsLowBits(b: bv8, m: nat, k: nat)
    requires k <= m < 8
    ensures LowBits(b & LowMask(m), k) == LowBits(b, k)
  {
    if k > 0 {
      MaskKeepsLowBits(b, m, k - 1);
      MaskBit(b, m, k - 1);
    }
  }

  lemma {:induction false} MaskDropsHighBits(b: bv8, m: nat, k: nat)
    requires m <= k <= 8 && m < 8
    ensures LowBits(b & LowMask(m), k) == LowBits(b & LowMask(m), m)
    decreases k
  {
    if k > m {
      MaskDropsHighBits(b, m, k - 1);
      MaskBit(b, m, k - 1);
    }
  }

  lemma OrBit(b: bv8, c: bv8, off: nat)
    requires off < 8
    ensures BitIn(b | c, off) <==> BitIn(b, off) || BitIn(c, off)
  {
  }

  lemma SingleBit(off: nat, off': nat)
    requires off < 8 && off' < 8
    ensures BitIn(KBits(off), off') <==> off == off'
  {
  }

  lemma NoLowBits(b: bv8)
    ensures LowBits(b, 0) == 0
  {
  }

  lemma LowBitsStep(b: bv8, m: nat)
    requires m < 8
    ensures LowBits(b, m + 1) == LowBits(b, m) + if BitIn(b, m) then Pow2(m) else 0
  {
  }

  lemma NoBitInZero(off: nat)
    requires off < 8
    ensures !BitIn(0, off)
  {
  }

  lemma NoBits(b: bv8)
    requires forall off: nat :: off < 8 ==> !BitIn(b, off)
    ensures b == 0
  {
    assert !BitIn(b, 0) && !BitIn(b, 1) && !BitIn(b, 2) && !BitIn(b, 3);
    assert !BitIn(b, 4) && !BitIn(b, 5) && !BitIn(b, 6) && !BitIn(b, 7);
  }

  lemma SameByte(a: bv8, b: bv8)
    requires forall off: nat :: off < 8 ==> BitIn(a, off) == BitIn(b, off)
    ensures a == b
  {
    assert BitIn(a, 0) == BitIn(b, 0) && BitIn(a, 1) == BitIn(b, 1);
    assert BitIn(a, 2) == BitIn(b, 2) && BitIn(a, 3) == BitIn(b, 3);
    assert BitIn(a, 4) == BitIn(b, 4) && BitIn(a, 5) == BitIn(b, 5);
    assert BitIn(a, 6) == BitIn(b, 6) && BitIn(a, 7) == BitIn(b, 7);
  }

  // ----- Integers as bytes

  /** The byte with the m low bits of v. */
  function ByteOf(v: nat, m: nat): bv8
    requires m <= 8 && v < Pow2(m)
  {
    if m == 0 then 0
    else if v < Pow2(m - 1) then ByteOf(v, m - 1)
    else ByteOf(v - Pow2(m - 1), m - 1) | KBits(m - 1)
  }

  ghost predicate NoBitsFrom(b: bv8, m: nat) {
    forall k: nat :: m <= k < 8 ==> !BitIn(b, k)
  }

  lemma {:induction false} ByteOfValue(v: nat, m: nat)
    requires m <= 8 && v < Pow2(m)
    ensures LowBits(ByteOf(v, m), m) == v && NoBitsFrom(ByteOf(v, m), m)
    decreases m
  {
    if m == 0 {
      forall k: nat | k < 8 ensures !BitIn(0, k) { NoBitInZero(k); }
    } else {
      hide BitIn, LowBits, NoBitsFrom;
      var w := if v < Pow2(m - 1) then v else v - Pow2(m - 1);
      ByteOfValue(w, m - 1);
      AddBit(ByteOf(w, m - 1), m - 1);
    }
  }

  lemma AddBit(b: bv8, m: nat)
    requires m < 8 && NoBitsFrom(b, m)
    ensures LowBits(b, m + 1) == LowBits(b, m) && NoBitsFrom(b, m + 1)
    ensures LowBits(b | KBits(m), m + 1) == LowBits(b, m) + Pow2(m) && NoBitsFrom(b | KBits(m), m + 1)
  {
    hide BitIn;
    var c := b | KBits(m);
    forall k: nat | k < 8 ensures BitIn(c, k) <==> BitIn(b, k) || k == m {
      OrBit(b, KBits(m), k);
      SingleBit(m, k);
    }
    SameLowBits(b, c, m);
    LowBitsStep(b, m);
    LowBitsStep(c, m);
    forall k: nat | m + 1 <= k < 8 ensures !BitIn(c, k) {}
  }

  lemma {:induction false} SameLowBits(a: bv8, b: bv8, m: nat)
    requires m <= 8 && forall k: nat :: k < m ==> BitIn(a, k) == BitIn(b, k)
    ensures LowBits(a, m) == LowBits(b, m)
  {
    if m > 0 { SameLowBits(a, b, m - 1); }
  }

  function EncodeFixed16(v: nat): seq<bv8>
    requires v < 65536
  {
    assert Pow2(8) == 256;
    [ByteOf(v % 256, 8), ByteOf(v / 256, 8)]
  }

  function DecodeFixed16(b: seq<bv8>): nat
    requires |b| == 2
  {
    b[0] as nat + 256 * b[1] as nat
  }

  lemma Fixed16RoundTrip(v: nat)
    requires v < 65536
    ensures DecodeFixed16(EncodeFixed16(v)) == v
  {
    hide ByteOf, LowBits;
    ByteOfValue(v % 256, 8);
    ByteOfValue(v / 256, 8);
    ByteValue(ByteOf(v % 256, 8));
    ByteValue(ByteOf(v / 256, 8));
  }

  lemma Fixed16Length(v: nat)
    requires v < 65536
    ensures |EncodeFixed16(v)| == 2
  {
  }

  // ----- 32-bit words as bytes

  function EncodeFixed32(v: bv32): seq<bv8> {
    [(v & 0xff) as bv8, ((v >> 8) & 0xff) as bv8, ((v >> 16) & 0xff) as bv8, (v >> 24) as bv8]
  }

  function DecodeFixed32(b: seq<bv8>): bv32
    requires |b| == 4
  {
    (b[0] as bv32) | ((b[1] as bv32) << 8) | ((b[2] as bv32) << 16) | ((b[3] as bv32) << 24)
  }

  lemma Fixed32RoundTrip(v: bv32)
    ensures DecodeFixed32(EncodeFixed32(v)) == v
  {
  }

  /** A byte is the byte of its value. */
  lemma ByteOfByte(b: bv8)
    ensures b as nat < Pow2(8) && ByteOf(b as nat, 8) == b
  {
    hide ByteOf, LowBits;
    assert Pow2(8) == 256;
    var c := ByteOf(b as nat, 8);
    ByteValue(b);
    ByteOfValue(b as nat, 8);
    SameValueSameByte(b, c, 8);
    SameByte(b, c);
  }

  lemma {:induction false} SameValueSameByte(a: bv8, b: bv8, m: nat)
    requires m <= 8 && LowBits(a, m) == LowBits(b, m)
    ensures forall k: nat :: k < m ==> BitIn(a, k) == BitIn(b, k)
  {
    hide BitIn;
    if m > 0 {
      LowBitsBound(a, m - 1);
      LowBitsBound(b, m - 1);
      SameValueSameByte(a, b, m - 1);
    }
  }

  lemma {:induction false} LowBitsBound(b: bv8, m: nat)
    requires m <= 8
    ensures LowBits(b, m) < Pow2(m)
  {
    hide BitIn;
    if m > 0 { LowBitsBound(b, m - 1); }
  }
}
