/** The pseudo-random sequence of external/pdlfs-common/src/random.cc: a quadratic-residue permutation
    of the 32-bit integers, applied to a running index, shifted, masked and permuted again. */
module RandomSequences {
  import opened NumberTheory
  import opened PrimeCertificate

  const TWO32: nat := 0x1_0000_0000

  /** uint32_t; additions are reduced modulo TWO32 by hand. */
  type Word = x: int | 0 <= x < TWO32

  function SquareModulo(p: nat, x: nat): (r: nat)
    requires p > 0
    ensures r < p
  {
    (x * x) % p
  }

  /** Permute for any modulus: squares below the middle, negated squares above it. */
  function PermuteModulo(p: nat, x: nat): nat
    requires p > 0
  {
    if x >= p then x
    else
      var residue := SquareModulo(p, x);
      if x <= p / 2 then residue else p - residue
  }

  /** A prime modulus p = 3 (mod 4) makes the map an injection that keeps [0, p) to itself. */
  lemma PermuteIsInjective(p: nat, x: nat, y: nat)
    requires Prime(p) && p % 4 == 3
    ensures x < p <==> PermuteModulo(p, x) < p
    ensures PermuteModulo(p, x) == PermuteModulo(p, y) <==> x == y
  {
    hide Prime, SquareModulo;
    if x < p { PermuteStaysBelow(p, x); }
    if y < p { PermuteStaysBelow(p, y); }
    if x < p && y < p && PermuteModulo(p, x) == PermuteModulo(p, y) {
      if (x <= p / 2) == (y <= p / 2) {
        SameHalf(p, x, y);
      } else if x <= p / 2 {
        OppositeHalves(p, x, y);
      } else {
        OppositeHalves(p, y, x);
      }
    }
  }

  /** The value is the square of x below the middle and its negative above, modulo the prime. */
  lemma PermuteIsSquare(p: nat, x: nat)
    requires 0 < p && x < p
    ensures Congruent(PermuteModulo(p, x), if x <= p / 2 then x * x else -(x * x), p)
    ensures x <= p / 2 ==> PermuteModulo(p, x) < p
    ensures x > p / 2 ==> 0 < PermuteModulo(p, x) <= p
  {
    hide Divides;
    CongruentRemainder(x * x, p);
    CongruentSymmetric(x * x, SquareModulo(p, x), p);
    if x > p / 2 {
      MultipleDivides(1, p);
      DividesSum(x * x - SquareModulo(p, x), p, p);
    }
  }

  lemma PermuteStaysBelow(p: nat, x: nat)
    requires Prime(p) && x < p
    ensures PermuteModulo(p, x) < p
  {
    if x > p / 2 && Divides(p, x * x) {
      assert !Divides(p, x);
      EuclidsLemma(p, x, x);
    }
  }

  lemma SameHalf(p: nat, x: nat, y: nat)
    requires Prime(p) && p % 2 == 1 && x < p && y < p && (x <= p / 2) == (y <= p / 2)
    requires SquareModulo(p, x) == SquareModulo(p, y)
    ensures x == y
  {
    EqualRemainders(p, x * x, y * y);
    assert x * x - y * y == (x - y) * (x + y);
    if !Divides(p, x - y) {
      EuclidsLemma(p, x - y, x + y);
      OnlyMultiples(p, x + y);
    }
    OnlyMultiples(p, x - y);
  }

  lemma OppositeHalves(p: nat, x: nat, y: nat)
    requires Prime(p) && p % 4 == 3 && x <= p / 2 < y < p
    ensures SquareModulo(p, x) != p - SquareModulo(p, y)
  {
    if (x * x) % p == p - (y * y) % p {
      CongruentRemainder(x * x, p);
      CongruentRemainder(y * y, p);
      DividesSum(x * x - (x * x) % p, y * y - (y * y) % p, p);
      DividesSum(x * x + y * y - p, p, p);
      SumOfTwoSquares(p, x, y);
      OnlyMultiples(p, y);
    }
  }

  lemma EqualRemainders(p: nat, a: int, b: int)
    requires p > 0 && a % p == b % p
    ensures Divides(p, a - b)
  {
    CongruentRemainder(a, p);
    CongruentRemainder(b, p);
    CongruentSymmetric(b, b % p, p);
    CongruentTransitive(a, a % p, b, p);
  }

  lemma OnlyMultiples(p: nat, a: int)
    requires p > 0 && Divides(p, a) && 0 < a + p < 3 * p
    ensures a == 0 || a == p
  {
    var k := a / p;
    assert a == k * p;
    assert k >= 2 ==> k * p >= 2 * p;
    assert k <= -1 ==> k * p <= 0 - p;
  }

  function Permute(x: Word): (r: Word)
    ensures (x < PRIME) == (r < PRIME)
  {
    PrimeModulus();
    PermuteIsInjective(PRIME, x, x);
    PermuteModulo(PRIME, x)
  }

  /** The five words from the prime on stay; below it, the square or its negative, modulo the prime. */
  lemma PermuteIs(x: Word)
    ensures x >= 4294967291 ==> Permute(x) == x
    ensures x < 4294967291 ==>
              Permute(x) < 4294967291 && Congruent(Permute(x), if x <= 2147483645 then x * x else -(x * x), 4294967291)
  {
    hide Prime, Congruent;
    PrimeModulus();
    if x < PRIME {
      PermuteIsSquare(PRIME, x);
      PermuteStaysBelow(PRIME, x);
    }
  }

  /** The sum of two uint32_t values. */
  function Add(x: Word, y: Word): Word {
    (x + y) % TWO32
  }

  /** Bitwise exclusive or, bit by bit from the low end. */
  function Xor(x: nat, y: nat): nat
    decreases x + y
  {
    if x == 0 && y == 0 then 0 else (x % 2 + y % 2) % 2 + 2 * Xor(x / 2, y / 2)
  }

  lemma {:induction false} XorBound(x: nat, y: nat, k: nat)
    requires x < Pow(2, k) && y < Pow(2, k)
    ensures Xor(x, y) < Pow(2, k)
    decreases k
  {
    if k > 0 && (x > 0 || y > 0) {
      XorBound(x / 2, y / 2, k - 1);
    }
  }

  lemma XorUnfold(x: nat, y: nat)
    ensures Xor(x, y) == (x % 2 + y % 2) % 2 + 2 * Xor(x / 2, y / 2)
  {
  }

  lemma {:induction false} XorCancels(x: nat, y: nat, c: nat)
    ensures Xor(x, c) == Xor(y, c) <==> x == y
    decreases x + y + c
  {
    hide Xor;
    if x > 0 || y > 0 || c > 0 {
      XorUnfold(x, c);
      XorUnfold(y, c);
      XorCancels(x / 2, y / 2, c / 2);
      SameHalves(x, y);
    }
  }

  lemma SameHalves(x: nat, y: nat)
    ensures x == y <==> x / 2 == y / 2 && x % 2 == y % 2
  {
  }

  function Mask(x: Word): Word {
    Pow2At32();
    XorBound(x, 0x5bf03635, 32);
    Xor(x, 0x5bf03635)
  }

  /** Bit k of a number, the low one first. */
  predicate Binary(x: nat, k: nat) {
    if k == 0 then x % 2 == 1 else Binary(x / 2, k - 1)
  }

  /** The bits that the mask flips. */
  const FLIPPED: set<nat> := {0, 2, 4, 5, 9, 10, 12, 13, 20, 21, 22, 23, 24, 25, 27, 28, 30}

  lemma {:induction false} XorIsBitwise(x: nat, y: nat, k: nat)
    ensures Binary(Xor(x, y), k) <==> Binary(x, k) != Binary(y, k)
    decreases k
  {
    hide Xor;
    XorUnfold(x, y);
    if k > 0 {
      assert Xor(x, y) / 2 == Xor(x / 2, y / 2);
      XorIsBitwise(x / 2, y / 2, k - 1);
    }
  }

  lemma {:induction false} BinaryUp(x: nat, k: nat)
    ensures Binary(x, 8 + k) == Binary(x / 256, k)
  {
    hide Binary;
    BinaryStep(x, 7 + k);
    BinaryStep(x / 2, 6 + k);
    BinaryStep(x / 2 / 2, 5 + k);
    BinaryStep(x / 2 / 2 / 2, 4 + k);
    BinaryStep(x / 2 / 2 / 2 / 2, 3 + k);
    BinaryStep(x / 2 / 2 / 2 / 2 / 2, 2 + k);
    BinaryStep(x / 2 / 2 / 2 / 2 / 2 / 2, 1 + k);
    BinaryStep(x / 2 / 2 / 2 / 2 / 2 / 2 / 2, k);
    assert x / 2 / 2 / 2 / 2 / 2 / 2 / 2 / 2 == x / 256;
  }

  lemma BinaryStep(x: nat, k: nat)
    ensures Binary(x, k + 1) == Binary(x / 2, k)
  {
  }

  /** Masking flips exactly these bits. */
  lemma MaskFlips(x: Word, k: nat)
    ensures Binary(Mask(x), k) <==> Binary(x, k) != (k in FLIPPED)
  {
    hide Binary, Xor;
    XorIsBitwise(x, 0x5bf03635, k);
    FlippedBits(k);
  }

  lemma FlippedBits(k: nat)
    ensures Binary(0x5bf03635, k) <==> k in FLIPPED
  {
    hide Binary;
    if k < 8 {
      Flipped0(k);
    } else {
      BinaryUp(0x5bf03635, k - 8);
      if k >= 16 { BinaryUp(0x5bf036, k - 16); }
      if k >= 24 { BinaryUp(0x5bf0, k - 24); }
      if k >= 32 {
        BinaryUp(0x5b, k - 32);
        NoBinary(k - 32);
      } else if k >= 24 {
        Flipped3(k - 24);
      } else if k >= 16 {
        Flipped2(k - 16);
      } else {
        Flipped1(k - 8);
      }
    }
  }

  lemma {:induction false} NoBinary(k: nat)
    ensures !Binary(0, k)
  {
    if k > 0 { NoBinary(k - 1); }
  }

  lemma Flipped0(k: nat)
    requires k < 8
    ensures Binary(0x5bf03635, k) <==> 0 + k in FLIPPED
  {
    assert Binary(0x5bf03635, 0) && !Binary(0x5bf03635, 1) && Binary(0x5bf03635, 2) && !Binary(0x5bf03635, 3);
    assert Binary(0x5bf03635, 4) && Binary(0x5bf03635, 5) && !Binary(0x5bf03635, 6) && !Binary(0x5bf03635, 7);
  }

  lemma Flipped1(k: nat)
    requires k < 8
    ensures Binary(0x5bf036, k) <==> 8 + k in FLIPPED
  {
    assert !Binary(0x5bf036, 0) && Binary(0x5bf036, 1) && Binary(0x5bf036, 2) && !Binary(0x5bf036, 3);
    assert Binary(0x5bf036, 4) && Binary(0x5bf036, 5) && !Binary(0x5bf036, 6) && !Binary(0x5bf036, 7);
  }

  lemma Flipped2(k: nat)
    requires k < 8
    ensures Binary(0x5bf0, k) <==> 16 + k in FLIPPED
  {
    assert !Binary(0x5bf0, 0) && !Binary(0x5bf0, 1) && !Binary(0x5bf0, 2) && !Binary(0x5bf0, 3);
    assert Binary(0x5bf0, 4) && Binary(0x5bf0, 5) && Binary(0x5bf0, 6) && Binary(0x5bf0, 7);
  }

  lemma Flipped3(k: nat)
    requires k < 8
    ensures Binary(0x5b, k) <==> 24 + k in FLIPPED
  {
    assert Binary(0x5b, 0) && Binary(0x5b, 1) && !Binary(0x5b, 2) && Binary(0x5b, 3);
    assert Binary(0x5b, 4) && !Binary(0x5b, 5) && Binary(0x5b, 6) && !Binary(0x5b, 7);
  }

  lemma Pow2At32()
    ensures Pow(2, 32) == TWO32
  {
    PowAdd(2, 16, 16);
    PowAdd(2, 8, 8);
    assert Pow(2, 8) == 256;
  }

  /** The value Next returns when the counter stands at index. */
  function ValueAt(index: Word, mid: Word): Word {
    Permute(Mask(Add(Permute(index), mid)))
  }

  /** The value in steps: the index permuted, the middle offset added, the bits of the mask flipped, and the
      result permuted again. */
  lemma ValueIs(index: Word, mid: Word) returns (sum: Word, flipped: Word)
    ensures sum == (Permute(index) + mid) % TWO32
    ensures forall k: nat :: Binary(flipped, k) <==> Binary(sum, k) != (k in FLIPPED)
    ensures ValueAt(index, mid) == Permute(flipped)
  {
    hide Permute, Mask, Binary;
    sum := Add(Permute(index), mid);
    flipped := Mask(sum);
    forall k: nat ensures Binary(flipped, k) <==> Binary(sum, k) != (k in FLIPPED) { MaskFlips(sum, k); }
  }

  lemma ValuesDiffer(i: Word, j: Word, mid: Word)
    ensures ValueAt(i, mid) == ValueAt(j, mid) <==> i == j
  {
    PrimeModulus();
    PermuteIsInjective(PRIME, i, j);
    AddCancels(Permute(i), Permute(j), mid);
    var a, b := Add(Permute(i), mid), Add(Permute(j), mid);
    XorCancels(a, b, 0x5bf03635);
    PermuteIsInjective(PRIME, Mask(a), Mask(b));
  }

  lemma AddCancels(x: Word, y: Word, c: Word)
    ensures Add(x, c) == Add(y, c) <==> x == y
  {
  }

  /** The index k calls later. */
  function Later(index: Word, k: nat): Word {
    (index + k) % TWO32
  }

  lemma LaterStep(index: Word, k: nat)
    ensures Later(index, 0) == index && Later(Add(index, 1), k) == Later(index, k + 1) == Add(Later(index, k), 1)
  {
    Wraps(index + 1, k);
    Wraps(index + k, 1);
    assert index + 1 + k == index + (k + 1) == index + k + 1;
  }

  lemma Wraps(x: nat, y: nat)
    ensures (x % TWO32 + y) % TWO32 == (x + y) % TWO32
  {
    var q := x / TWO32;
    assert x + y == x % TWO32 + y + TWO32 * q;
  }

  lemma LaterDiffer(index: Word, i: nat, j: nat)
    requires i < j < TWO32
    ensures Later(index, i) != Later(index, j)
  {
  }

  /** The values of n consecutive calls. */
  function Outputs(index: Word, mid: Word, n: nat): seq<Word>
    decreases n
  {
    if n == 0 then [] else [ValueAt(index, mid)] + Outputs(Add(index, 1), mid, n - 1)
  }

  lemma {:induction false} OutputsAt(index: Word, mid: Word, n: nat, k: nat)
    requires k < n
    ensures |Outputs(index, mid, n)| == n
    ensures Outputs(index, mid, n)[k] == ValueAt(Later(index, k), mid)
    decreases n
  {
    hide ValueAt, Later, Add;
    OutputsLength(index, mid, n);
    LaterStep(index, if k > 0 then k - 1 else 0);
    if k > 0 {
      OutputsAt(Add(index, 1), mid, n - 1, k - 1);
    }
  }

  lemma {:induction false} OutputsLength(index: Word, mid: Word, n: nat)
    ensures |Outputs(index, mid, n)| == n
    decreases n
  {
    hide ValueAt;
    if n > 0 { OutputsLength(Add(index, 1), mid, n - 1); }
  }

  /** Any n <= 2^32 consecutive values are pairwise distinct. */
  lemma OutputsAreDistinct(index: Word, mid: Word, n: nat, i: nat, j: nat)
    requires i < j < n <= TWO32
    ensures |Outputs(index, mid, n)| == n
    ensures Outputs(index, mid, n)[i] != Outputs(index, mid, n)[j]
  {
    hide ValueAt, Later, Outputs;
    OutputsAt(index, mid, n, i);
    OutputsAt(index, mid, n, j);
    LaterDiffer(index, i, j);
    ValuesDiffer(Later(index, i), Later(index, j), mid);
  }

  lemma AllOutputsDistinct(index: Word, mid: Word, n: nat)
    requires n <= TWO32
    ensures forall i, j :: 0 <= i < j < |Outputs(index, mid, n)| ==>
              Outputs(index, mid, n)[i] != Outputs(index, mid, n)[j]
  {
    hide ValueAt;
    OutputsLength(index, mid, n);
    forall i, j | 0 <= i < j < n ensures Outputs(index, mid, n)[i] != Outputs(index, mid, n)[j] {
      OutputsAreDistinct(index, mid, n, i, j);
    }
  }

  lemma NoOutputs(index: Word, mid: Word)
    ensures Outputs(index, mid, 0) == []
  {
  }

  lemma {:induction false} OutputsSnoc(index: Word, mid: Word, n: nat)
    ensures Outputs(index, mid, n + 1) ==
            Outputs(index, mid, n) + Outputs(Later(index, n), mid, 1)
    decreases n
  {
    hide ValueAt, Later, Add, Outputs;
    LaterStep(index, if n > 0 then n - 1 else 0);
    var last := Outputs(Later(index, n), mid, 1);
    if n > 0 {
      var rest := Outputs(Add(index, 1), mid, n - 1);
      OutputsSnoc(Add(index, 1), mid, n - 1);
      OutputsStep(index, mid, n);
      OutputsStep(index, mid, n - 1);
      assert [ValueAt(index, mid)] + (rest + last) == [ValueAt(index, mid)] + rest + last;
    } else {
      NoOutputs(index, mid);
      assert [] + last == last;
    }
  }

  lemma OutputsStep(index: Word, mid: Word, n: nat)
    ensures Outputs(index, mid, n + 1) == [ValueAt(index, mid)] + Outputs(Add(index, 1), mid, n)
  {
    hide ValueAt, Add;
  }

  /** 2^32 consecutive values are exactly the 32-bit integers: a full period. */
  lemma FullPeriod(index: Word, mid: Word, w: Word)
    ensures exists k: nat :: k < |Outputs(index, mid, TWO32)| && Outputs(index, mid, TWO32)[k] == w
    ensures ValueAt((index + TWO32) % TWO32, mid) == ValueAt(index, mid)
  {
    hide ValueAt, Outputs;
    var s := Outputs(index, mid, TWO32);
    OutputsLength(index, mid, TWO32);
    AllOutputsDistinct(index, mid, TWO32);
    NoMissingValue(s, w, TWO32);
    var k :| 0 <= k < |s| && s[k] == w;
  }

  /** n distinct values of [0, n) leave none out. */
  lemma NoMissingValue(s: seq<Word>, w: Word, n: nat)
    requires |s| == n && w < n
    requires forall i :: 0 <= i < |s| ==> s[i] < n
    requires forall i, j :: 0 <= i < j < |s| ==> s[i] != s[j]
    ensures w in s
  {
    var t := Elements(s);
    BoundedSetSize(t + {w}, n);
  }

  lemma {:induction false} Elements(s: seq<Word>) returns (t: set<int>)
    requires forall i, j :: 0 <= i < j < |s| ==> s[i] != s[j]
    ensures |t| == |s| && forall x :: x in t <==> x in s
  {
    if s == [] {
      t := {};
    } else {
      t := Elements(s[1..]);
      t := t + {s[0]};
    }
  }

  // ----- The generator

  function FirstIndex(base: Word, offset: Word): Word {
    Add(Permute(Add(Permute(base), 0x682f0161)), offset)
  }

  function MiddleOffset(seed: Word): Word {
    Permute(Add(Permute(seed), 0x46790905))
  }

  /** An offset is so many calls skipped. */
  lemma OffsetSkips(base: Word, offset: Word)
    ensures FirstIndex(base, offset) == Later(FirstIndex(base, 0), offset)
  {
    hide Permute;
  }

  /** The sequence of seed 301 begins with these two. */
  lemma SequenceOf301()
    ensures Outputs(FirstIndex(0, 0), MiddleOffset(301), 2) == [0x96a0ea16, 0xf02b64fd]
  {
    assert FirstIndex(0, 0) == 0x259f0786 && MiddleOffset(301) == 0xa085d658 by { StartOf301(); }
    assert ValueAt(0x259f0786, 0xa085d658) == 0x96a0ea16 by { FirstOf301(); }
    assert ValueAt(0x259f0787, 0xa085d658) == 0xf02b64fd by { SecondOf301(); }
    hide ValueAt, FirstIndex, MiddleOffset;
    assert Add(0x259f0786, 1) == 0x259f0787;
    assert Outputs(0x259f0788, 0xa085d658, 0) == [];
  }

  lemma StartOf301()
    ensures FirstIndex(0, 0) == 0x259f0786 && MiddleOffset(301) == 0xa085d658
  {
    hide Permute;
    PermuteGives(0x0, 0x0, 0x0);
    PermuteGives(0x682f0161, 0x2a6639c1, 0x259f0786);
    PermuteGives(0x12d, 0x0, 0x161e9);
    PermuteGives(0x467a6aee, 0x13672d04, 0xa085d658);
  }

  lemma FirstOf301()
    ensures ValueAt(0x259f0786, 0xa085d658) == 0x96a0ea16
  {
    hide Permute, Mask;
    PermuteGives(0x259f0786, 0x5875af7, 0x305160f7);
    FirstMasked();
    PermuteGives(0x8b27017a, 0x4ba3618d, 0x695f15e5);
  }

  lemma SecondOf301()
    ensures ValueAt(0x259f0787, 0xa085d658) == 0xf02b64fd
  {
    hide Permute, Mask;
    PermuteGives(0x259f0787, 0x5875af7, 0x7b8f7004);
    SecondMasked();
    PermuteGives(0x47e57069, 0x143111fc, 0xf02b64fd);
  }

  lemma PermuteGives(x: Word, quotient: nat, r: nat)
    requires x < 4294967291 && r < 4294967291 && x * x == quotient * 4294967291 + r
    ensures Permute(x) == if x <= 2147483645 then r else 4294967291 - r
  {
    RemainderIs(x * x, quotient, r);
  }

  lemma RemainderIs(n: nat, quotient: nat, r: nat)
    requires r < 4294967291 && n == quotient * 4294967291 + r
    ensures n % 4294967291 == r
  {
  }

  function Odd(x: nat, y: nat): nat {
    (x % 2 + y % 2) % 2
  }

  /** Two bits more. */
  lemma XorTwoBits(x: nat, y: nat, high: nat)
    requires Xor(x / 4, y / 4) == high
    ensures Xor(x, y) == 4 * high + 2 * Odd(x / 2, y / 2) + Odd(x, y)
  {
    hide Xor, Odd;
    XorUnfold(x, y);
    XorUnfold(x / 2, y / 2);
    Halved(x);
    Halved(y);
    OddIs(x, y);
    OddIs(x / 2, y / 2);
  }

  lemma Halved(x: nat)
    ensures x / 2 / 2 == x / 4 && x / 4 / 2 == x / 8 && x / 4 / 4 == x / 16
  {
  }

  /** Four bits more. */
  lemma XorNibble(x: nat, y: nat, high: nat)
    requires Xor(x / 16, y / 16) == high
    ensures Xor(x, y) == 16 * high + 8 * Odd(x / 8, y / 8) + 4 * Odd(x / 4, y / 4) + 2 * Odd(x / 2, y / 2) + Odd(x, y)
  {
    hide Xor, Odd;
    Halved(x);
    Halved(y);
    XorTwoBits(x / 4, y / 4, high);
    XorTwoBits(x, y, Xor(x / 4, y / 4));
  }

  lemma OddIs(x: nat, y: nat)
    ensures Odd(x, y) == (x % 2 + y % 2) % 2
  {
  }

  lemma FirstMasked()
    ensures Mask(0xd0d7374f) == 0x8b27017a
  {
    hide Xor;
    XorUnfold(0, 0);
    XorNibble(0xd, 0x5, 0x0);
    XorNibble(0xd0, 0x5b, 0x8);
    XorNibble(0xd0d, 0x5bf, 0x8b);
    XorNibble(0xd0d7, 0x5bf0, 0x8b2);
    XorNibble(0xd0d73, 0x5bf03, 0x8b27);
    XorNibble(0xd0d737, 0x5bf036, 0x8b270);
    XorNibble(0xd0d7374, 0x5bf0363, 0x8b2701);
    XorNibble(0xd0d7374f, 0x5bf03635, 0x8b27017);
  }

  lemma SecondMasked()
    ensures Mask(0x1c15465c) == 0x47e57069
  {
    hide Xor;
    XorUnfold(0, 0);
    XorNibble(0x1, 0x5, 0x0);
    XorNibble(0x1c, 0x5b, 0x4);
    XorNibble(0x1c1, 0x5bf, 0x47);
    XorNibble(0x1c15, 0x5bf0, 0x47e);
    XorNibble(0x1c154, 0x5bf03, 0x47e5);
    XorNibble(0x1c1546, 0x5bf036, 0x47e57);
    XorNibble(0x1c15465, 0x5bf0363, 0x47e570);
    XorNibble(0x1c15465c, 0x5bf03635, 0x47e5706);
  }

  class RandomSequence {
    var index: Word
    var mid: Word

    constructor (seed: Word, base: Word, offset: Word)
      ensures index == FirstIndex(base, offset) && mid == MiddleOffset(seed)
    {
      index := Add(Permute(Add(Permute(base), 0x682f0161)), offset);
      mid := Permute(Add(Permute(seed), 0x46790905));
    }

    /** Leaves out the next n values. */
    method Skip(n: Word)
      modifies this`index
      ensures index == Later(old(index), n)
    {
      index := Add(index, n);
    }

    method Next() returns (r: Word)
      modifies this`index
      ensures index == Add(old(index), 1)
      ensures [r] == Outputs(old(index), mid, 1)
    {
      r := Permute(Mask(Add(Permute(index), mid)));
      index := Add(index, 1);
      assert Outputs(Add(old(index), 1), mid, 0) == [];
    }
  }

  /** A run of n calls on one sequence, recorded in order. */
  method Run(r: RandomSequence, n: nat) returns (out: seq<Word>)
    modifies r`index
    ensures out == Outputs(old(r.index), r.mid, n)
    ensures n <= TWO32 ==> forall i, j :: 0 <= i < j < |out| ==> out[i] != out[j]
  {
    hide ValueAt, Outputs, Later, Add;
    NoOutputs(r.index, r.mid);
    LaterStep(r.index, 0);
    out := [];
    var k := 0;
    ghost var start := r.index;
    while k < n
      invariant 0 <= k <= n && r.index == Later(start, k)
      invariant out == Outputs(start, r.mid, k)
    {
      LaterStep(start, k);
      OutputsSnoc(start, r.mid, k);
      var v := r.Next();
      out := out + [v];
      k := k + 1;
    }
    if n <= TWO32 { AllOutputsDistinct(start, r.mid, n); }
  }
}
