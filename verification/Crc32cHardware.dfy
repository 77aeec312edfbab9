/** The CRC of external/pdlfs-common/src/crc32c/crc32c_sse42.cc: three interleaved streams, joined by
    operators that push a register through a power of two of zero bytes. The crc32b and crc32q
    instructions are taken as one and eight byte steps. */
module Crc32cHardware {
  import opened ByteBits
  import opened Crc32c
  import opened Crc32cSoftware

  // ----- Matrices over GF(2)

  /** The matrix times the vector whose bits are those of vec: column i is mat[i]. */
  function MatrixTimes(mat: seq<bv32>, vec: bv32): bv32
    decreases |mat|
  {
    if mat == [] then 0
    else Xor(if Odd(vec) then mat[0] else 0, MatrixTimes(mat[1..], Half(vec)))
  }

  function Double(v: bv32): bv32 {
    v << 1
  }

  function Doubles(k: nat, v: bv32): bv32 {
    if k == 0 then v else Doubles(k - 1, Double(v))
  }

  function Halves(k: nat, v: bv32): bv32 {
    if k == 0 then v else Half(Halves(k - 1, v))
  }

  /** mat pushes a register through n zero bits. */
  ghost predicate PushesZeros(mat: seq<bv32>, n: nat) {
    |mat| == 32 && forall i: nat :: i < 32 ==> mat[i] == Zeros(n, Doubles(i, 1))
  }

  lemma {:induction false} DoublesStep(k: nat, v: bv32)
    ensures Doubles(k + 1, v) == Double(Doubles(k, v))
  {
    if k > 0 { DoublesStep(k - 1, Double(v)); }
  }

  lemma {:induction false} DoublesLinear(k: nat, a: bv32, b: bv32)
    ensures Doubles(k, Xor(a, b)) == Xor(Doubles(k, a), Doubles(k, b))
  {
    hide Xor, Double;
    if k > 0 {
      DoubleLinear(a, b);
      DoublesLinear(k - 1, Double(a), Double(b));
    }
  }

  lemma DoubleLinear(a: bv32, b: bv32)
    ensures Double(Xor(a, b)) == Xor(Double(a), Double(b))
  {
  }

  lemma {:induction false} DoublesOfZero(k: nat)
    ensures Doubles(k, 0) == 0
  {
    if k > 0 { DoublesOfZero(k - 1); }
  }

  lemma {:induction false} DoublesAdd(m: nat, k: nat, v: bv32)
    ensures Doubles(m + k, v) == Doubles(k, Doubles(m, v))
  {
    hide Double;
    if m > 0 { DoublesAdd(m - 1, k, Double(v)); }
  }

  lemma DoublesByEight(v: bv32)
    ensures Doubles(8, v) == Up(v)
  {
    hide Double, Up;
    var a := Double(Double(v));
    var b := Double(Double(a));
    var c := Double(Double(b));
    TwoDoubles(v);
    TwoDoubles(a);
    TwoDoubles(b);
    TwoDoubles(c);
    DoublesAdd(2, 2, v);
    DoublesAdd(4, 2, v);
    DoublesAdd(6, 2, v);
    UpIsEightDoubles(v);
  }

  lemma TwoDoubles(v: bv32)
    ensures Doubles(2, v) == Double(Double(v))
  {
    hide Double;
    assert Doubles(1, Double(v)) == Double(Double(v));
  }

  lemma UpIsEightDoubles(v: bv32)
    ensures Double(Double(Double(Double(Double(Double(Double(Double(v)))))))) == Up(v)
  {
  }

  /** After 32 doublings nothing is left. */
  lemma DoublesAway(v: bv32)
    ensures Doubles(32, v) == 0
  {
    hide Doubles, Up;
    DoublesByEight(v);
    DoublesByEight(Up(v));
    DoublesByEight(Up(Up(v)));
    DoublesByEight(Up(Up(Up(v))));
    DoublesAdd(8, 8, v);
    DoublesAdd(16, 8, v);
    DoublesAdd(24, 8, v);
    UpFour(v);
  }

  lemma UpFour(v: bv32)
    ensures Up(Up(Up(Up(v)))) == 0
  {
  }

  lemma SplitLowBit(v: bv32)
    ensures v == Xor(if Odd(v) then 1 else 0, Double(Half(v)))
  {
  }

  /** A matrix that is right on the unit vectors is right everywhere. */
  lemma {:induction false} ColumnsSuffice(mat: seq<bv32>, n: nat, k: nat, vec: bv32)
    requires PushesZeros(mat, n) && k <= 32
    ensures MatrixTimes(mat[k..], vec) == Zeros(n, Doubles(k, vec))
    decreases 32 - k
  {
    hide Zeros, Doubles, Xor, Odd, Half, Double;
    if k == 32 {
      DoublesAway(vec);
      ZerosOfZero(n);
    } else {
      ColumnsSuffice(mat, n, k + 1, Half(vec));
      assert mat[k..][1..] == mat[k + 1..];
      var low: bv32 := if Odd(vec) then 1 else 0;
      SplitLowBit(vec);
      DoublesLinear(k, low, Double(Half(vec)));
      DoublesStep(k, Half(vec));
      DoublesUnfold(k, Half(vec));
      DoublesOfZero(k);
      ZerosOfZero(n);
      ZerosLinear(n, Doubles(k, low), Doubles(k, Double(Half(vec))));
    }
  }

  lemma DoublesUnfold(k: nat, v: bv32)
    ensures Doubles(k + 1, v) == Doubles(k, Double(v))
  {
  }

  lemma TimesPushes(mat: seq<bv32>, n: nat, vec: bv32)
    requires PushesZeros(mat, n)
    ensures MatrixTimes(mat, vec) == Zeros(n, vec)
  {
    ColumnsSuffice(mat, n, 0, vec);
    assert mat[0..] == mat;
  }

  lemma {:induction false} TimesZero(mat: seq<bv32>)
    ensures MatrixTimes(mat, 0) == 0
    decreases |mat|
  {
    if mat != [] {
      ZeroVector();
      TimesZero(mat[1..]);
      XorZero(0);
    }
  }

  lemma ZeroVector()
    ensures !Odd(0) && Half(0) == 0
  {
  }

  lemma {:induction false} HalvesAway(v: bv32)
    ensures Halves(32, v) == 0
  {
    hide Halves, Half;
    EightHalves(v, 0);
    EightHalves(v, 8);
    EightHalves(v, 16);
    EightHalves(v, 24);
    assert Halves(0, v) == v by { NoHalves(v); }
    DownFour(v);
  }

  lemma NoHalves(v: bv32)
    ensures Halves(0, v) == v
  {
  }

  lemma EightHalves(v: bv32, k: nat)
    ensures Halves(k + 8, v) == Down(Halves(k, v))
  {
    hide Half, Down;
    var h := Halves(k, v);
    assert Halves(k + 2, v) == Half(Halves(k + 1, v)) && Halves(k + 1, v) == Half(h);
    assert Halves(k + 4, v) == Half(Halves(k + 3, v)) && Halves(k + 3, v) == Half(Halves(k + 2, v));
    assert Halves(k + 6, v) == Half(Halves(k + 5, v)) && Halves(k + 5, v) == Half(Halves(k + 4, v));
    assert Halves(k + 8, v) == Half(Halves(k + 7, v)) && Halves(k + 7, v) == Half(Halves(k + 6, v));
    DownIsEightHalves(h);
  }

  lemma DownIsEightHalves(v: bv32)
    ensures Half(Half(Half(Half(Half(Half(Half(Half(v)))))))) == Down(v)
  {
  }

  lemma DownFour(v: bv32)
    ensures Down(Down(Down(Down(v)))) == 0
  {
  }

  /** gf2_matrix_times. */
  method Gf2MatrixTimes(mat: array<bv32>, vec: bv32) returns (sum: bv32)
    requires mat.Length == 32
    ensures sum == MatrixTimes(mat[..], vec)
  {
    hide MatrixTimes, Xor, Half, Odd, Halves;
    sum := 0;
    var v, k := vec, 0;
    NoHalves(vec);
    XorZero(MatrixTimes(mat[..], vec));
    assert mat[0..] == mat[..];
    while v != 0
      invariant 0 <= k <= 32 && v == Halves(k, vec)
      invariant Xor(sum, MatrixTimes(mat[k..], v)) == MatrixTimes(mat[..], vec)
      decreases 32 - k
    {
      HalvesAway(vec);
      HalvesStep(k, vec);
      TimesStep(mat[k..], v);
      assert mat[k..][1..] == mat[k + 1..];
      var term := if Odd(v) then mat[k] else 0;
      XorAssociative(sum, term, MatrixTimes(mat[k + 1..], Half(v)));
      XorZero(sum);
      if Odd(v) {
        sum := Xor(sum, mat[k]);
      }
      v := Half(v);
      k := k + 1;
    }
    TimesZero(mat[k..]);
    XorZero(sum);
  }

  lemma HalvesStep(k: nat, v: bv32)
    ensures Halves(k + 1, v) == Half(Halves(k, v))
  {
  }

  lemma TimesStep(mat: seq<bv32>, vec: bv32)
    requires mat != []
    ensures MatrixTimes(mat, vec) == Xor(if Odd(vec) then mat[0] else 0, MatrixTimes(mat[1..], Half(vec)))
  {
  }

  /** gf2_matrix_square: a matrix applied twice pushes twice as many zeros. */
  method Gf2MatrixSquare(square: array<bv32>, mat: array<bv32>, ghost n: nat)
    requires square.Length == 32 && mat.Length == 32 && square != mat
    requires PushesZeros(mat[..], n)
    modifies square
    ensures PushesZeros(square[..], 2 * n)
  {
    hide MatrixTimes, Zeros, Doubles;
    var i := 0;
    while i < 32
      invariant 0 <= i <= 32 && PushesZeros(mat[..], n)
      invariant forall j: nat :: j < i ==> square[j] == Zeros(2 * n, Doubles(j, 1))
    {
      var t := Gf2MatrixTimes(mat, mat[i]);
      TimesPushes(mat[..], n, mat[i]);
      assert mat[i] == mat[..][i];
      ZerosAdd(n, n, Doubles(i, 1));
      square[i] := t;
      i := i + 1;
    }
  }

  // ----- Zero operators

  /** The largest power of two that does not exceed len, and one for none. */
  function TopPower(len: nat): nat {
    if len <= 1 then 1 else 2 * TopPower(len / 2)
  }

  const TOP: bv32 := 0x8000_0000

  predicate SingleBit(v: bv32) {
    v != 0 && v & (v - 1) == 0
  }

  predicate TopBit(v: bv32) {
    v & TOP != 0
  }

  lemma DoubleOfSingle(v: bv32)
    requires SingleBit(v)
    ensures if TopBit(v) then Double(v) == 0 else SingleBit(Double(v)) && !Odd(Double(v)) && Half(Double(v)) == v
  {
  }

  lemma LastUnit()
    ensures Doubles(31, 1) != 0
  {
    hide Doubles;
    DoublesAdd(8, 23, 1);
    DoublesByEight(1);
    DoublesAdd(8, 15, Up(1));
    DoublesByEight(Up(1));
    DoublesAdd(8, 7, Up(Up(1)));
    DoublesByEight(Up(Up(1)));
    var u := Up(Up(Up(1)));
    SevenDoubles(u);
    assert u == 0x100_0000;
    assert Double(Double(Double(Double(Double(Double(Double(u))))))) == TOP;
  }

  lemma SevenDoubles(v: bv32)
    ensures Doubles(7, v) == Double(Double(Double(Double(Double(Double(Double(v)))))))
  {
    hide Double, Doubles;
    NoDoubles(v);
    DoublesStep(0, v);
    DoublesStep(1, v);
    DoublesStep(2, v);
    DoublesStep(3, v);
    DoublesStep(4, v);
    DoublesStep(5, v);
    DoublesStep(6, v);
  }

  /** The units stay single bits until the 32nd doubling. */
  lemma {:induction false} UnitsAreSingle(k: nat)
    requires k < 31
    ensures SingleBit(Doubles(k, 1)) && !TopBit(Doubles(k, 1))
  {
    hide Doubles, Double, TopBit;
    if k == 0 {
      NoDoubles(1);
      assert SingleBit(1);
    } else {
      UnitsAreSingle(k - 1);
      DoublesStep(k - 1, 1);
      DoubleOfSingle(Doubles(k - 1, 1));
    }
    DoubleOfSingle(Doubles(k, 1));
    DoublesStep(k, 1);
    DoublesAdd(k + 1, 30 - k, 1);
    DoublesOfZero(30 - k);
    LastUnit();
  }

  /** One zero bit moves a unit down by one place, and turns the lowest into the polynomial. */
  lemma OneZeroBit(k: nat)
    requires k < 32
    ensures Zeros(1, Doubles(k, 1)) == if k == 0 then POLY else Doubles(k - 1, 1)
  {
    hide Zeros, Doubles, Double, TopBit, SingleBit, Odd, Half, Xor;
    SingleZero(Doubles(k, 1));
    if k == 0 {
      NoDoubles(1);
      LowUnit();
    } else {
      UnitsAreSingle(k - 1);
      DoublesStep(k - 1, 1);
      DoubleOfSingle(Doubles(k - 1, 1));
    }
  }

  lemma SingleZero(v: bv32)
    ensures Zeros(1, v) == ZeroBit(v)
  {
    NoZeros(ZeroBit(v));
  }

  lemma LowUnit()
    ensures Odd(1) && Half(1) == 0 && Xor(0, POLY) == POLY
  {
  }

  /** crc32c_zeros_op: the operator for TopPower(len) zero bytes. */
  method ZerosOperator(even: array<bv32>, len: nat)
    requires even.Length == 32
    modifies even
    ensures PushesZeros(even[..], 8 * TopPower(len))
  {
    hide Zeros, Doubles, Double, PushesZeros;
    var odd := new bv32[32];
    OneZeroOperator(odd);
    Gf2MatrixSquare(even, odd, 1);
    Gf2MatrixSquare(odd, even, 2);
    var left := len;
    ghost var t: nat := 1;  // odd pushes 4 * t zero bits
    while true
      invariant PushesZeros(odd[..], 4 * t)
      invariant 8 * t * TopPower(left) == 8 * TopPower(len)
      decreases left
    {
      ghost var l0 := left;
      Gf2MatrixSquare(even, odd, 4 * t);
      left := left / 2;
      if left == 0 {
        OnlyPower(t, l0);
        return;
      }
      Gf2MatrixSquare(odd, even, 8 * t);
      ghost var l1 := left;
      left := left / 2;
      PowerStep(t, l0, l1, left);
      t := 4 * t;
      if left == 0 {
        break;
      }
    }
    CopyOperator(even, odd);
  }

  method CopyOperator(even: array<bv32>, odd: array<bv32>)
    requires even.Length == odd.Length == 32 && even != odd
    modifies even
    ensures even[..] == odd[..]
  {
    var i := 0;
    while i < 32
      invariant 0 <= i <= 32 && forall j :: 0 <= j < i ==> even[j] == odd[j]
    {
      even[i] := odd[i];
      i := i + 1;
    }
  }

  /** The operator for one zero bit. */
  method OneZeroOperator(odd: array<bv32>)
    requires odd.Length == 32
    modifies odd
    ensures PushesZeros(odd[..], 1)
  {
    hide Zeros, Doubles, Double;
    odd[0] := POLY;
    OneZeroBit(0);
    var row: bv32 := 1;
    var n := 1;
    NoDoubles(1);
    while n < 32
      invariant 1 <= n <= 32 && row == Doubles(n - 1, 1)
      invariant forall i: nat :: i < n ==> odd[i] == Zeros(1, Doubles(i, 1))
    {
      OneZeroBit(n);
      DoublesStep(n - 1, 1);
      odd[n] := row;
      row := Double(row);
      n := n + 1;
    }
  }

  lemma OnlyPower(t: nat, l0: nat)
    requires l0 / 2 == 0
    ensures 2 * (4 * t) == 8 * t * TopPower(l0)
  {
    TopPowerStep(l0);
  }

  lemma NoDoubles(v: bv32)
    ensures Doubles(0, v) == v
  {
  }

  lemma PowerStep(t: nat, l0: nat, l1: nat, l2: nat)
    requires l1 == l0 / 2 && l2 == l1 / 2 && l1 > 0
    ensures if l2 == 0 then 2 * (8 * t) == 8 * t * TopPower(l0)
            else 8 * (4 * t) * TopPower(l2) == 8 * t * TopPower(l0)
  {
    hide TopPower;
    TopPowerStep(l0);
    TopPowerStep(l1);
    TopPowerStep(l2);
  }

  lemma TopPowerStep(len: nat)
    ensures TopPower(len) == if len <= 1 then 1 else 2 * TopPower(len / 2)
  {
  }

  // ----- Shift tables

  /** v moved up by k bytes. */
  function Ups(k: nat, v: bv32): bv32 {
    if k == 0 then v else Up(Ups(k - 1, v))
  }

  /** Table entry (k, j) pushes byte j, k places up, through n zero bits. */
  ghost predicate ShiftsBy(zeros: array2<bv32>, n: nat)
    reads zeros
  {
    && zeros.Length0 == 4 && zeros.Length1 == 256
    && Pow2(8) == 256
    && forall k: nat, j: nat :: k < 4 && j < 256 ==> zeros[k, j] == Zeros(n, Ups(k, Wide(ByteOf(j, 8))))
  }

  /** crc32c_zeros: the four tables of the operator for TopPower(len) zero bytes. */
  method ZerosTables(zeros: array2<bv32>, len: nat)
    requires zeros.Length0 == 4 && zeros.Length1 == 256
    modifies zeros
    ensures ShiftsBy(zeros, 8 * TopPower(len))
  {
    hide Zeros, Ups, MatrixTimes, ByteOf, Wide;
    assert Pow2(8) == 256;
    var op := new bv32[32];
    ZerosOperator(op, len);
    ghost var bits := 8 * TopPower(len);
    var n := 0;
    while n < 256
      invariant 0 <= n <= 256 && PushesZeros(op[..], bits)
      invariant forall k: nat, j: nat :: k < 4 && j < n ==> zeros[k, j] == Zeros(bits, Ups(k, Wide(ByteOf(j, 8))))
    {
      FourLanes(zeros, op, bits, n, Wide(ByteOf(n, 8)));
      n := n + 1;
    }
  }

  /** Column n of the tables, which is for byte c. */
  method FourLanes(zeros: array2<bv32>, op: array<bv32>, ghost bits: nat, n: nat, c: bv32)
    requires zeros.Length0 == 4 && zeros.Length1 == 256 && n < 256 && op.Length == 32 && PushesZeros(op[..], bits)
    modifies zeros
    ensures forall k: nat, j: nat :: k < 4 && j < 256 && j != n ==> zeros[k, j] == old(zeros[k, j])
    ensures forall k: nat :: k < 4 ==> zeros[k, n] == Zeros(bits, Ups(k, c))
  {
    hide Zeros, Ups, MatrixTimes, PushesZeros;
    var k := 0;
    var v := c;
    NoUps(v);
    while k < 4
      invariant 0 <= k <= 4 && PushesZeros(op[..], bits) && v == Ups(k, c)
      invariant forall i: nat, j: nat :: i < 4 && j < 256 && j != n ==> zeros[i, j] == old(zeros[i, j])
      invariant forall i: nat :: i < k ==> zeros[i, n] == Zeros(bits, Ups(i, c))
    {
      var t := Gf2MatrixTimes(op, v);
      TimesPushes(op[..], bits, v);
      UpsStep(k, c);
      zeros[k, n] := t;
      v := Up(v);
      k := k + 1;
    }
  }

  lemma NoUps(v: bv32)
    ensures Ups(0, v) == v
  {
  }

  lemma UpsStep(k: nat, v: bv32)
    ensures Ups(k + 1, v) == Up(Ups(k, v))
  {
  }

  /** crc32c_shift. */
  function Shift(zeros: array2<bv32>, crc: bv32): bv32
    requires zeros.Length0 == 4 && zeros.Length1 == 256
    reads zeros
  {
    Xor(Xor(Xor(zeros[0, Lane(crc, 0) as nat], zeros[1, Lane(crc, 1) as nat]),
            zeros[2, Lane(crc, 2) as nat]), zeros[3, Lane(crc, 3) as nat])
  }

  lemma ShiftPushes(zeros: array2<bv32>, n: nat, crc: bv32)
    requires ShiftsBy(zeros, n)
    ensures Shift(zeros, crc) == Zeros(n, crc)
  {
    hide Zeros, Ups, Up, Wide, Xor, Lane, ByteOf;
    var b0, b1, b2, b3 := Lane(crc, 0), Lane(crc, 1), Lane(crc, 2), Lane(crc, 3);
    ByteOfByte(b0);
    ByteOfByte(b1);
    ByteOfByte(b2);
    ByteOfByte(b3);
    AllUps(Wide(b0));
    AllUps(Wide(b1));
    AllUps(Wide(b2));
    AllUps(Wide(b3));
    var p0, p1, p2, p3 := Wide(b0), Up(Wide(b1)), Up(Up(Wide(b2))), Up(Up(Up(Wide(b3))));
    SplitWord(crc);
    ZerosLinear(n, Xor(Xor(p0, p1), p2), p3);
    ZerosLinear(n, Xor(p0, p1), p2);
    ZerosLinear(n, p0, p1);
  }

  lemma AllUps(v: bv32)
    ensures Ups(0, v) == v && Ups(1, v) == Up(v) && Ups(2, v) == Up(Up(v)) && Ups(3, v) == Up(Up(Up(v)))
  {
    hide Up, Ups;
    NoUps(v);
    UpsStep(0, v);
    UpsStep(1, v);
    UpsStep(2, v);
  }

  // ----- The routine

  const LONG: nat := 8192
  const SHORT: nat := 256

  lemma PowersOfTwo()
    ensures TopPower(LONG) == LONG && TopPower(SHORT) == SHORT
  {
  }

  /** Two stretches fed apart and joined by the zero operator are the two fed one after the other. */
  lemma JoinStreams(l: bv32, a: seq<bv8>, b: seq<bv8>)
    ensures Xor(Zeros(8 * |b|, Feed(l, a)), Feed(0, b)) == Feed(l, a + b)
  {
    hide Zeros, Feed, Xor;
    FeedConcat(l, a, b);
    FeedLinear(Feed(l, a), b);
  }

  class HardwareCrc {
    const long: array2<bv32>
    const short: array2<bv32>

    ghost predicate Valid()
      reads long, short
    {
      ShiftsBy(long, 8 * LONG) && ShiftsBy(short, 8 * SHORT)
    }

    /** crc32c_init_hw. */
    constructor ()
      ensures Valid()
    {
      hide ShiftsBy, TopPower;
      long := new bv32[4, 256];
      short := new bv32[4, 256];
      new;
      PowersOfTwo();
      ZerosTables(long, LONG);
      ZerosTables(short, SHORT);
    }

    /** One round of three streams of size bytes each, eight bytes a step. */
    method ThreeStreams(zeros: array2<bv32>, size: nat, crc: bv32, data: seq<bv8>, start: nat) returns (crc0: bv32)
      requires ShiftsBy(zeros, 8 * size) && size % 8 == 0 && size > 0 && start + 3 * size <= |data|
      ensures crc0 == Feed(crc, data[start..start + 3 * size])
    {
      hide Feed, Xor, Zeros, Ups, Lane;
      var crc1, crc2;
      crc0, crc1, crc2 := FeedStreams(size, crc, data, start);
      var next := start + size;
      ghost var a, b, c := data[start..next], data[next..next + size], data[next + size..next + 2 * size];
      ShiftPushes(zeros, 8 * size, crc0);
      JoinStreams(crc, a, b);
      crc0 := Xor(Shift(zeros, crc0), crc1);
      ShiftPushes(zeros, 8 * size, crc0);
      JoinStreams(crc, a + b, c);
      crc0 := Xor(Shift(zeros, crc0), crc2);
      SliceConcat(data, start, next, next + size);
      SliceConcat(data, start, next + size, next + 2 * size);
    }

    /** Three registers, eight bytes of each stream at a time. */
    method FeedStreams(size: nat, crc: bv32, data: seq<bv8>, start: nat) returns (crc0: bv32, crc1: bv32, crc2: bv32)
      requires size % 8 == 0 && start + 3 * size <= |data|
      ensures crc0 == Feed(crc, data[start..start + size]) && crc1 == Feed(0, data[start + size..start + 2 * size])
      ensures crc2 == Feed(0, data[start + 2 * size..start + 3 * size])
    {
      hide Feed;
      crc0, crc1, crc2 := crc, 0, 0;
      ghost var second, third := start + size, start + 2 * size;
      FeedNone(crc);
      FeedNone(0);
      assert data[start..start] == [] && data[second..second] == [] && data[third..third] == [];
      var done := 0;
      while done < size
        invariant 0 <= done <= size && done % 8 == 0
        invariant crc0 == Feed(crc, data[start..start + done])
        invariant crc1 == Feed(0, data[second..second + done])
        invariant crc2 == Feed(0, data[third..third + done])
      {
        crc0 := FeedWord(crc, crc0, data, start, start + done);
        crc1 := FeedWord(0, crc1, data, second, start + size + done);
        crc2 := FeedWord(0, crc2, data, third, start + 2 * size + done);
        done := done + 8;
      }
    }

    method FeedWord(ghost first: bv32, crc: bv32, data: seq<bv8>, ghost from: nat, p: nat) returns (r: bv32)
      requires from <= p <= p + 8 <= |data| && crc == Feed(first, data[from..p])
      ensures r == Feed(first, data[from..p + 8])
    {
      hide Feed;
      SliceConcat(data, from, p, p + 8);
      FeedConcat(first, data[from..p], data[p..p + 8]);
      r := Feed(crc, data[p..p + 8]);
    }

    /** crc32c_hw on data that starts at the given address. */
    method Extend(crc: bv32, data: seq<bv8>, address: nat) returns (r: bv32)
      requires Valid()
      ensures r == Crc32c.Extend(crc, data)
    {
      hide Feed, Flip, ShiftsBy, Byte;
      var crc0 := Flip(crc);
      ghost var init := crc0;
      var next, len := 0, |data|;
      FeedNone(init);
      while len > 0 && (address + next) % 8 != 0
        invariant 0 <= next <= |data| && next + len == |data| && crc0 == Feed(init, data[..next])
        decreases len
      {
        FeedByte(init, data, next);
        crc0 := Byte(crc0, data[next]);
        next, len := next + 1, len - 1;
      }
      while len >= LONG * 3
        invariant 0 <= next <= |data| && next + len == |data| && crc0 == Feed(init, data[..next])
      {
        FeedSlice(init, data, next, next + 3 * LONG);
        crc0 := ThreeStreams(long, LONG, crc0, data, next);
        next, len := next + 3 * LONG, len - 3 * LONG;
      }
      while len >= SHORT * 3
        invariant 0 <= next <= |data| && next + len == |data| && crc0 == Feed(init, data[..next])
      {
        FeedSlice(init, data, next, next + 3 * SHORT);
        crc0 := ThreeStreams(short, SHORT, crc0, data, next);
        next, len := next + 3 * SHORT, len - 3 * SHORT;
      }
      var end := next + (len - len % 8);
      while next < end
        invariant 0 <= next <= end <= |data| && (end - next) % 8 == 0 && crc0 == Feed(init, data[..next])
      {
        FeedSlice(init, data, next, next + 8);
        crc0 := Feed(crc0, data[next..next + 8]);
        next := next + 8;
      }
      len := len % 8;
      while len > 0
        invariant 0 <= next <= |data| && next + len == |data| && crc0 == Feed(init, data[..next])
      {
        FeedByte(init, data, next);
        crc0 := Byte(crc0, data[next]);
        next, len := next + 1, len - 1;
      }
      assert data[..next] == data;
      r := Flip(crc0);
    }
  }

  lemma SliceConcat(data: seq<bv8>, i: nat, j: nat, k: nat)
    requires i <= j <= k <= |data|
    ensures data[i..j] + data[j..k] == data[i..k]
  {
  }

  lemma FeedSlice(init: bv32, data: seq<bv8>, i: nat, j: nat)
    requires i <= j <= |data|
    ensures Feed(Feed(init, data[..i]), data[i..j]) == Feed(init, data[..j])
  {
    FeedConcat(init, data[..i], data[i..j]);
    assert data[..i] + data[i..j] == data[..j];
  }

  lemma FeedByte(init: bv32, data: seq<bv8>, p: nat)
    requires p < |data|
    ensures Byte(Feed(init, data[..p]), data[p]) == Feed(init, data[..p + 1])
  {
    hide Step1;
    FeedOne(init, data, p, Feed(init, data[..p]));
    Step1IsByte(Feed(init, data[..p]), data[p]);
  }

  /** Both routines compute the same CRC, whatever the alignment. */
  method BothRoutines(hw: HardwareCrc, crc: bv32, a: seq<bv8>, b: seq<bv8>, address: nat) returns (x: bv32, y: bv32)
    requires hw.Valid()
    ensures x == y == Crc32c.Extend(crc, a + b)
  {
    hide Crc32c.Extend;
    x := hw.Extend(crc, a, address);
    x := hw.Extend(x, b, address + |a|);
    ExtendConcat(crc, a, b);
    y := ExtendSW(crc, a + b, address);
  }
}
