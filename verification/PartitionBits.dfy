/** Bytes, bits and index arithmetic of external/pdlfs-common/src/gigaplus.cc. */
module PartitionBits {
  import opened ByteBits

  const MAX_RADIX: nat := 16

  // ----- Indices

  /** floor(log2(value)); the double the source goes through is exact below 2^16. */
  function ToLog2(value: nat): nat
    requires value > 0
  {
    if value == 1 then 0 else 1 + ToLog2(value / 2)
  }

  function ToRadix(index: nat): nat {
    if index == 0 then 0 else 1 + ToLog2(index)
  }

  function ToChildIndex(index: nat, radix: nat): nat {
    index + Pow2(radix)
  }

  function ToParentIndex(index: nat): nat {
    if index == 0 then 0
    else
      Log2Bounds(index);
      index - Pow2(ToLog2(index))
  }

  lemma {:induction false} Log2Bounds(v: nat)
    requires v > 0
    ensures Pow2(ToLog2(v)) <= v < Pow2(ToLog2(v) + 1)
  {
    if v > 1 { Log2Bounds(v / 2); }
  }

  /** ToRadix is the number of bits: the least k with index < 2^k. */
  lemma RadixBound(index: nat, k: nat)
    ensures ToRadix(index) <= k <==> index < Pow2(k)
  {
    if index > 0 {
      Log2Bounds(index);
      if ToLog2(index) + 1 <= k {
        Pow2Monotone(ToLog2(index) + 1, k);
      } else {
        Pow2Monotone(k, ToLog2(index));
      }
    }
  }

  /** A child undone by its parent: the parent loses exactly the bit its child added. */
  lemma ChildOf(i: nat, r: nat)
    requires ToRadix(i) <= r
    ensures ToRadix(ToChildIndex(i, r)) == r + 1 && ToParentIndex(ToChildIndex(i, r)) == i
  {
    var c := ToChildIndex(i, r);
    RadixBound(i, r);
    RadixBound(c, r);
    RadixBound(c, r + 1);
  }

  lemma ParentOf(c: nat)
    requires c > 0
    ensures ToRadix(ToParentIndex(c)) < ToRadix(c) && ToParentIndex(c) < c
    ensures c == ToChildIndex(ToParentIndex(c), ToRadix(c) - 1)
  {
    Log2Bounds(c);
    RadixBound(ToParentIndex(c), ToLog2(c));
  }

  // ----- Reversing a byte

  /** The multiply-and-mask byte reversal. */
  function Reverse(b: bv8): bv8 {
    ((((((b as bv64) * 0x80200802) & 0x0884422110) * 0x0101010101) >> 32) & 0xff) as bv8
  }

  lemma ReverseMirrorsBits(b: bv8, off: nat)
    requires off < 8
    ensures BitIn(Reverse(b), off) <==> BitIn(b, 7 - off)
  {
    assert Reverse(b) == ((b & 1) << 7) | ((b & 2) << 5) | ((b & 4) << 3) | ((b & 8) << 1)
                       | ((b & 16) >> 1) | ((b & 32) >> 3) | ((b & 64) >> 5) | ((b & 128) >> 7);
  }

  // ----- The first n bits of a hash

  type Hash = h: seq<bv8> | |h| >= 2 witness [0, 0]

  /** Bit k of a hash counts from the high end of each byte. */
  predicate HashBit(h: seq<bv8>, k: nat)
    requires k < 8 * |h|
  {
    BitIn(h[k / 8], 7 - k % 8)
  }

  /** The number whose bit k, low end first, is bit k of the hash. */
  function FirstBits(h: seq<bv8>, n: nat): nat
    requires n <= 8 * |h|
  {
    if n == 0 then 0 else FirstBits(h, n - 1) + if HashBit(h, n - 1) then Pow2(n - 1) else 0
  }

  lemma {:induction false} FirstBitsBound(h: seq<bv8>, n: nat)
    requires n <= 8 * |h|
    ensures FirstBits(h, n) < Pow2(n)
  {
    if n > 0 { FirstBitsBound(h, n - 1); }
  }

  lemma {:induction false} FirstBitsOfByte(h: seq<bv8>, idx: nat, m: nat)
    requires idx < |h| && m <= 8
    ensures FirstBits(h, 8 * idx + m) == FirstBits(h, 8 * idx) + Pow2(8 * idx) * LowBits(Reverse(h[idx]), m)
    decreases m
  {
    hide Reverse, BitIn, HashBit, Pow2, FirstBits, LowBits;
    if m == 0 {
      NoLowBits(Reverse(h[idx]));
    } else {
      var k := 8 * idx + (m - 1);
      FirstBitsOfByte(h, idx, m - 1);
      HashBitOfByte(h, idx, m - 1);
      Pow2Sum(8 * idx, m - 1);
      FirstBitsStep(h, k);
      LowBitsStep(Reverse(h[idx]), m - 1);
      Distribute(Pow2(8 * idx), LowBits(Reverse(h[idx]), m - 1), Pow2(m - 1));
    }
  }

  lemma FirstBitsStep(h: seq<bv8>, n: nat)
    requires n < 8 * |h|
    ensures FirstBits(h, n + 1) == FirstBits(h, n) + if HashBit(h, n) then Pow2(n) else 0
  {
  }

  lemma HashBitOfByte(h: seq<bv8>, idx: nat, m: nat)
    requires idx < |h| && m < 8
    ensures HashBit(h, 8 * idx + m) <==> BitIn(Reverse(h[idx]), m)
  {
    ReverseMirrorsBits(h[idx], m);
  }

  lemma Distribute(a: nat, b: nat, c: nat)
    ensures a * (b + c) == a * b + a * c && a * (b + 0) == a * b
  {
  }

  lemma Commute(a: nat, b: nat)
    ensures a * b == b * a
  {
  }

  lemma NoFirstBits(h: seq<bv8>)
    ensures FirstBits(h, 0) == 0
  {
  }

  lemma WholeByte(h: seq<bv8>, idx: nat)
    requires idx < |h|
    ensures FirstBits(h, 8 * (idx + 1)) == FirstBits(h, 8 * idx) + Reverse(h[idx]) as nat * Pow2(8 * idx)
  {
    hide Reverse, FirstBits, LowBits, Pow2;
    FirstBitsOfByte(h, idx, 8);
    ByteValue(Reverse(h[idx]));
    Commute(Reverse(h[idx]) as nat, Pow2(8 * idx));
  }

  lemma LastByte(h: seq<bv8>, idx: nat, nbits: nat)
    requires idx < |h| && nbits < 8
    ensures FirstBits(h, 8 * idx + nbits) ==
            FirstBits(h, 8 * idx) + (Reverse(h[idx]) & LowMask(nbits)) as nat * Pow2(8 * idx)
  {
    hide Reverse, FirstBits, LowBits, Pow2, LowMask;
    FirstBitsOfByte(h, idx, nbits);
    MaskedByte(Reverse(h[idx]), nbits);
    Commute((Reverse(h[idx]) & LowMask(nbits)) as nat, Pow2(8 * idx));
  }

  /** Computes the index of the first n bits of the hash byte by byte. */
  method ComputeIndexFromHash(hash: seq<bv8>, n: nat) returns (result: nat)
    requires n <= MAX_RADIX && n <= 8 * |hash|
    ensures result == FirstBits(hash, n) && result < Pow2(n)
  {
    hide Reverse, Pow2, FirstBits, LowMask;
    result := 0;
    NoFirstBits(hash);
    var idx := 0;
    var nbytes := n / 8;
    assert n == 8 * nbytes + n % 8;
    while idx < nbytes
      invariant 0 <= idx <= nbytes && result == FirstBits(hash, 8 * idx)
    {
      WholeByte(hash, idx);
      result := result + Reverse(hash[idx]) as nat * Pow2(8 * idx);
      idx := idx + 1;
    }
    var nbits := n % 8;
    if nbits > 0 {
      LastByte(hash, idx, nbits);
      result := result + (Reverse(hash[idx]) & LowMask(nbits)) as nat * Pow2(8 * idx);
    }
    FirstBitsBound(hash, n);
  }
}
