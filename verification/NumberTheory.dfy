/** Modular arithmetic used by RandomSequences: inverses modulo a prime, the quadratic character of
    -1, and primality certificates of Pocklington's kind. */
module NumberTheory {

  predicate Divides(d: nat, n: int)
    requires d > 0
  {
    n % d == 0
  }

  ghost predicate Prime(p: nat) {
    p > 1 && forall d: nat :: 1 < d < p ==> !Divides(d, p)
  }

  /** a and b leave the same remainder modulo m. */
  predicate Congruent(a: int, b: int, m: nat)
    requires m > 0
  {
    Divides(m, a - b)
  }

  lemma MultipleDivides(k: int, m: nat)
    requires m > 0
    ensures Divides(m, k * m)
  {
    var r := (k * m) % m;
    var d := k - (k * m) / m;
    assert d * m == r;
    assert d >= 1 ==> d * m >= m;
    assert d <= -1 ==> d * m <= 0 - m;
  }

  lemma DividesSum(a: int, b: int, m: nat)
    requires m > 0 && Divides(m, a) && Divides(m, b)
    ensures Divides(m, a + b) && Divides(m, a - b)
  {
    var i, j := a / m, b / m;
    assert a == i * m && b == j * m;
    MultipleDivides(i + j, m);
    MultipleDivides(i - j, m);
    assert (i + j) * m == a + b && (i - j) * m == a - b;
  }

  lemma DividesTimes(a: int, c: int, m: nat)
    requires m > 0 && Divides(m, a)
    ensures Divides(m, a * c)
  {
    var k := a / m;
    assert a == k * m;
    MultipleDivides(k * c, m);
    assert (k * c) * m == a * c;
  }

  lemma CongruentTransitive(a: int, b: int, c: int, m: nat)
    requires m > 0 && Congruent(a, b, m) && Congruent(b, c, m)
    ensures Congruent(a, c, m)
  {
    hide Divides;
    DividesSum(a - b, b - c, m);
  }

  lemma CongruentReflexive(a: int, m: nat)
    requires m > 0
    ensures Congruent(a, a, m)
  {
  }

  lemma CongruentSymmetric(a: int, b: int, m: nat)
    requires m > 0 && Congruent(a, b, m)
    ensures Congruent(b, a, m)
  {
    DividesTimes(a - b, -1, m);
  }

  lemma CongruentTimes(a: int, b: int, c: int, d: int, m: nat)
    requires m > 0 && Congruent(a, b, m) && Congruent(c, d, m)
    ensures Congruent(a * c, b * d, m)
  {
    hide Divides;
    DividesTimes(a - b, c, m);
    DividesTimes(c - d, b, m);
    DividesSum((a - b) * c, (c - d) * b, m);
    assert (a - b) * c + (c - d) * b == a * c - b * d;
  }

  lemma CongruentDifference(a: int, b: int, c: int, m: nat)
    requires m > 0 && Congruent(a, b, m)
    ensures Congruent(a - c, b - c, m)
  {
    assert (a - c) - (b - c) == a - b;
  }

  lemma CongruentRemainder(a: int, m: nat)
    requires m > 0
    ensures Congruent(a, a % m, m)
  {
    hide Divides;
    MultipleDivides(a / m, m);
    DivisionIs(a, m);
  }

  lemma DivisionIs(a: int, m: nat)
    requires m > 0
    ensures a / m * m == a - a % m
  {
  }

  /** Every residue that p does not divide has an inverse modulo the prime p. */
  lemma {:induction false} Inverse(p: nat, a: nat) returns (z: int)
    requires Prime(p) && 0 < a < p
    ensures Congruent(a * z, 1, p)
    decreases a
  {
    if a == 1 {
      z := 1;
    } else {
      var q, r := p / a, p % a;
      assert !Divides(a, p);
      var y := Inverse(p, r);
      z := -q * y;
      assert a * z - 1 == (r * y - 1) + (-y) * p by { assert p == q * a + r; }
      MultipleDivides(-y, p);
      DividesSum(r * y - 1, (-y) * p, p);
    }
  }

  /** Euclid's lemma. */
  lemma EuclidsLemma(p: nat, a: int, b: int)
    requires Prime(p) && Divides(p, a * b) && !Divides(p, a)
    ensures Divides(p, b)
  {
    hide Divides;
    var z := InverseOf(p, a);
    DividesTimes(a * z - 1, b, p);
    DividesTimes(a * b, z, p);
    DividesSum((a * b) * z, (a * z - 1) * b, p);
    assert (a * b) * z - (a * z - 1) * b == b;
  }

  /** No n = 3 (mod 4) divides a number of the form x*x + 1, by descent: an even x below n gives a
      smaller cofactor of the same form. */
  lemma {:induction false} MinusOneIsNoSquare(n: nat, x: int)
    requires n % 4 == 3
    ensures !Divides(n, x * x + 1)
    decreases n
  {
    if Divides(n, x * x + 1) {
      var e := EvenRoot(n, x);
      var m := (e * e + 1) / n;
      assert m * n == e * e + 1;
      SmallCofactor(m, n, e);
      MultipleDivides(n, m);
      assert n * m == e * e + 1;
      MinusOneIsNoSquare(m, e);
    }
  }

  lemma EvenRoot(n: nat, x: int) returns (e: nat)
    requires n % 4 == 3 && Divides(n, x * x + 1)
    ensures e < n && e % 2 == 0 && Divides(n, e * e + 1)
  {
    hide Divides;
    var r := x % n;
    ReduceRoot(n, x, r);
    if r % 2 == 0 {
      e := r;
    } else {
      e := n - r;
      NegateRoot(n, r);
      OddComplement(n, r);
    }
  }

  lemma OddComplement(n: nat, r: int)
    requires n % 4 == 3 && r % 2 == 1
    ensures (n - r) % 2 == 0
  {
  }

  lemma ReduceRoot(n: nat, x: int, r: int)
    requires n > 0 && Divides(n, x * x + 1) && r == x % n
    ensures Divides(n, r * r + 1)
  {
    hide Divides;
    CongruentRemainder(x, n);
    CongruentTimes(x, r, x, r, n);
    DividesSum(x * x + 1, x * x - r * r, n);
    assert (x * x + 1) - (x * x - r * r) == r * r + 1;
  }

  lemma NegateRoot(n: nat, r: int)
    requires n > 0 && Divides(n, r * r + 1)
    ensures Divides(n, (n - r) * (n - r) + 1)
  {
    hide Divides;
    MultipleDivides(n - 2 * r, n);
    DividesSum(r * r + 1, (n - 2 * r) * n, n);
    ExpandSquare(n, r);
  }

  lemma ExpandSquare(n: int, r: int)
    ensures (n - r) * (n - r) == (n - 2 * r) * n + r * r
  {
  }

  lemma SmallCofactor(m: int, n: nat, e: nat)
    requires n % 4 == 3 && e < n && e % 2 == 0 && m * n == e * e + 1
    ensures 0 < m < n && m % 4 == 3
  {
    EvenSquare(e);
    CofactorModFour(m, n, (e / 2) * (e / 2));
    SquareBelow(e, n);
    if m >= n { TimesMonotone(n, m, n); }
  }

  lemma EvenSquare(e: nat)
    requires e % 2 == 0
    ensures e * e == 4 * ((e / 2) * (e / 2))
  {
    var h := e / 2;
    assert e == 2 * h;
  }

  lemma SquareBelow(e: nat, n: nat)
    requires e < n
    ensures e * e + 2 * n <= n * n + 1
  {
    assert e * e <= (n - 1) * (n - 1);
  }

  lemma TimesMonotone(a: int, b: int, n: nat)
    requires a <= b
    ensures a * n <= b * n
  {
  }

  lemma CofactorModFour(m: int, n: nat, k: int)
    requires n % 4 == 3 && m * n == 4 * k + 1 && k >= 0
    ensures m > 0 && m % 4 == 3
  {
    var t := n / 4;
    assert n == 4 * t + 3;
    assert m * n == 4 * (m * t) + 3 * m;
    assert m <= 0 ==> m * n <= 0;
  }

  /** Hence modulo a prime p = 3 (mod 4) a sum of two squares vanishes only when both terms do. */
  lemma SumOfTwoSquares(p: nat, x: int, y: int)
    requires Prime(p) && p % 4 == 3 && Divides(p, x * x + y * y)
    ensures Divides(p, x) && Divides(p, y)
  {
    hide Divides;
    if !Divides(p, y) {
      var z := InverseOf(p, y);
      QuotientSquare(p, x, y, z);
      MinusOneIsNoSquare(p, x * z);
    }
    DividesTimes(y, y, p);
    DividesSum(x * x + y * y, y * y, p);
    assert (x * x + y * y) - y * y == x * x;
    if !Divides(p, x) { EuclidsLemma(p, x, x); }
  }

  lemma InverseOf(p: nat, y: int) returns (z: int)
    requires Prime(p) && !Divides(p, y)
    ensures Congruent(y * z, 1, p)
  {
    z := Inverse(p, y % p);
    CongruentRemainder(y, p);
    CongruentTimes(y, y % p, z, z, p);
    CongruentTransitive(y * z, (y % p) * z, 1, p);
  }

  lemma QuotientSquare(p: nat, x: int, y: int, z: int)
    requires p > 0 && Divides(p, x * x + y * y) && Congruent(y * z, 1, p)
    ensures Divides(p, (x * z) * (x * z) + 1)
  {
    hide Divides;
    CongruentTimes(y * z, 1, y * z, 1, p);
    DividesTimes(x * x + y * y, z * z, p);
    DividesSum((x * x + y * y) * (z * z), (y * z) * (y * z) - 1, p);
    ExpandProduct(x, y, z);
  }

  lemma ExpandProduct(x: int, y: int, z: int)
    ensures (x * x + y * y) * (z * z) - ((y * z) * (y * z) - 1) == (x * z) * (x * z) + 1
  {
    assert (x * x + y * y) * (z * z) == x * x * (z * z) + y * y * (z * z);
    assert x * x * (z * z) == (x * z) * (x * z);
    assert y * y * (z * z) == (y * z) * (y * z);
  }

  // ----- Pigeonhole

  lemma {:induction false} BoundedSetSize(s: set<int>, n: nat)
    requires forall x :: x in s ==> 0 <= x < n
    ensures |s| <= n
    decreases n
  {
    if n == 0 {
      if exists x :: x in s {} else { assert s == {}; }
    } else {
      BoundedSetSize(s - {n - 1}, n - 1);
    }
  }

  // ----- Powers and certificates

  function Pow(b: int, e: nat): int {
    if e == 0 then 1 else b * Pow(b, e - 1)
  }

  lemma {:induction false} PowAdd(b: int, i: nat, j: nat)
    ensures Pow(b, i + j) == Pow(b, i) * Pow(b, j)
  {
    if i > 0 {
      PowAdd(b, i - 1, j);
      assert Pow(b, i + j) == b * (Pow(b, i - 1) * Pow(b, j));
    }
  }

  lemma PowStep(b: int, e: nat)
    ensures Pow(b, 1 + e) == b * Pow(b, e)
  {
  }

  lemma SmallNotMultiple(k: nat, q: nat)
    requires 0 < k < q
    ensures !Divides(q, k)
  {
    assert k % q == k;
  }

  lemma {:induction false} PowTimes(b: int, i: nat, j: nat)
    ensures Pow(b, i * j) == Pow(Pow(b, i), j)
  {
    if j > 0 {
      PowTimes(b, i, j - 1);
      assert i * j == i + i * (j - 1);
      PowAdd(b, i, i * (j - 1));
    }
  }

  lemma {:induction false} PowOfOne(a: int, e: nat, m: nat)
    requires m > 0 && Congruent(a, 1, m)
    ensures Congruent(Pow(a, e), 1, m)
  {
    if e > 0 {
      PowOfOne(a, e - 1, m);
      CongruentTimes(a, 1, Pow(a, e - 1), 1, m);
    }
  }

  /** The order of h modulo r divides the prime q, so it is 1 or q. */
  lemma OrderIsPrime(h: int, q: nat, r: nat, k: nat)
    requires r > 0 && Prime(q) && Congruent(Pow(h, q), 1, r) && Congruent(Pow(h, k), 1, r)
    requires !Divides(q, k)
    ensures Congruent(h, 1, r)
  {
    hide Divides, Pow;
    var z, t := BezoutNatural(q, k);
    PowerOfUnit(h, k, z, r);
    PowerOfUnit(h, q, t, r);
    var m := q * t;
    assert k * z == 1 + m;
    PowStep(h, m);
    CongruentReflexive(h, r);
    CongruentTimes(h, h, Pow(h, m), 1, r);
    CongruentSymmetric(Pow(h, 1 + m), h * 1, r);
    CongruentTransitive(h, Pow(h, 1 + m), 1, r);
  }

  lemma PowerOfUnit(h: int, k: nat, z: nat, r: nat)
    requires r > 0 && Congruent(Pow(h, k), 1, r)
    ensures k * z >= 0 && Congruent(Pow(h, k * z), 1, r)
  {
    hide Divides;
    PowTimes(h, k, z);
    PowOfOne(Pow(h, k), z, r);
  }

  lemma BezoutNatural(q: nat, k: nat) returns (z: nat, t: nat)
    requires Prime(q) && !Divides(q, k)
    ensures k * z == 1 + q * t
  {
    var z0 := InverseOf(q, k);
    z := z0 % q;
    CongruentRemainder(z0, q);
    CongruentSymmetric(z0, z, q);
    CongruentTimes(k, k, z, z0, q);
    CongruentTransitive(k * z, k * z0, 1, q);
    var n := k * z;
    assert n >= 0;
    t := NaturalQuotient(n, q);
  }

  lemma NaturalQuotient(n: nat, q: nat) returns (t: nat)
    requires q > 1 && Congruent(n, 1, q)
    ensures n == 1 + q * t
  {
    var s := (n - 1) / q;
    assert n == 1 + q * s;
    assert s < 0 ==> q * s <= 0 - q;
    t := s;
  }

  /** If no positive power below n is 1 modulo r, the first n powers are distinct and so r > n. */
  lemma DistinctPowers(b: int, inv: int, n: nat, r: nat)
    requires r > 1 && Congruent(b * inv, 1, r)
    requires forall k: nat :: 0 < k < n ==> !Congruent(Pow(b, k), 1, r)
    ensures n < r
  {
    hide Divides, Pow;
    var s := RemaindersOfPowers(b, inv, n, r);
    forall x | x in s ensures 0 <= x - 1 < r - 1 {}
    var t := set x | x in s :: x - 1;
    SameSize(s, t);
    BoundedSetSize(t, r - 1);
  }

  lemma {:induction false} SameSize(s: set<int>, t: set<int>)
    requires t == set x | x in s :: x - 1
    ensures |s| == |t|
    decreases s
  {
    if exists x :: x in s {
      var x :| x in s;
      var s', t' := s - {x}, t - {x - 1};
      forall y ensures y in t' <==> y + 1 in s' {
        assert y in t <==> y + 1 in s;
      }
      assert t' == set y | y in s' :: y - 1;
      SameSize(s', t');
    } else {
      assert s == {};
      if exists y :: y in t {} else { assert t == {}; }
    }
  }

  lemma {:induction false} RemaindersOfPowers(b: int, inv: int, n: nat, r: nat) returns (s: set<int>)
    requires r > 1 && Congruent(b * inv, 1, r)
    requires forall k: nat :: 0 < k < n ==> !Congruent(Pow(b, k), 1, r)
    ensures |s| == n && (forall x :: x in s ==> 0 < x < r)
    ensures forall x :: x in s ==> IsPower(x, b, n, r)
  {
    if n == 0 {
      s := {};
    } else {
      var s' := RemaindersOfPowers(b, inv, n - 1, r);
      var x := Pow(b, n - 1) % r;
      NewRemainder(b, inv, n - 1, r, s');
      PowNotZero(b, inv, n - 1, r);
      s := s' + {x};
    }
  }

  ghost predicate IsPower(x: int, b: int, n: nat, r: nat)
    requires r > 0
  {
    exists k: nat :: k < n && x == Pow(b, k) % r
  }

  lemma NewRemainder(b: int, inv: int, n: nat, r: nat, s: set<int>)
    requires r > 1 && Congruent(b * inv, 1, r)
    requires forall k: nat :: 0 < k <= n ==> !Congruent(Pow(b, k), 1, r)
    requires forall x :: x in s ==> IsPower(x, b, n, r)
    ensures Pow(b, n) % r !in s
  {
    hide Divides, Pow, Congruent;
    if Pow(b, n) % r in s {
      var k: nat :| k < n && Pow(b, n) % r == Pow(b, k) % r;
      CancelPowers(b, inv, k, n - k, r);
    }
  }

  lemma {:induction false} PowNotZero(b: int, inv: int, k: nat, r: nat)
    requires r > 1 && Congruent(b * inv, 1, r)
    ensures !Divides(r, Pow(b, k))
  {
    if k > 0 && Divides(r, Pow(b, k)) {
      DividesTimes(Pow(b, k), inv, r);
      DividesTimes(b * inv - 1, Pow(b, k - 1), r);
      DividesSum(Pow(b, k) * inv, (b * inv - 1) * Pow(b, k - 1), r);
      assert Pow(b, k) * inv - (b * inv - 1) * Pow(b, k - 1) == Pow(b, k - 1);
      PowNotZero(b, inv, k - 1, r);
    }
  }

  lemma {:induction false} CancelPowers(b: int, inv: int, i: nat, d: nat, r: nat)
    requires r > 1 && Congruent(b * inv, 1, r) && Pow(b, i) % r == Pow(b, i + d) % r
    ensures Congruent(Pow(b, d), 1, r)
  {
    CongruentRemainder(Pow(b, i), r);
    CongruentRemainder(Pow(b, i + d), r);
    CongruentSymmetric(Pow(b, i), Pow(b, i) % r, r);
    CongruentTransitive(Pow(b, i + d), Pow(b, i) % r, Pow(b, i), r);
    PowAdd(b, i, d);
    CancelFactor(b, inv, i, Pow(b, d) - 1, r) by {
      assert Pow(b, i) * (Pow(b, d) - 1) == Pow(b, i + d) - Pow(b, i);
    }
  }

  lemma {:induction false} CancelFactor(b: int, inv: int, i: nat, c: int, r: nat)
    requires r > 1 && Congruent(b * inv, 1, r) && Divides(r, Pow(b, i) * c)
    ensures Divides(r, c)
  {
    hide Divides;
    if i > 0 {
      var p := Pow(b, i - 1) * c;
      assert Pow(b, i) * c == b * p;
      DividesTimes(b * p, inv, r);
      DividesTimes(b * inv - 1, p, r);
      DividesSum(b * p * inv, (b * inv - 1) * p, r);
      assert b * p * inv - (b * inv - 1) * p == p;
      CancelFactor(b, inv, i - 1, c, r);
    }
  }

  /** A number without a divisor up to its square root is prime. */
  lemma SmallDivisor(n: nat)
    requires n > 1 && forall d: nat :: 1 < d && d * d <= n ==> !Divides(d, n)
    ensures Prime(n)
  {
    forall d: nat | 1 < d < n ensures !Divides(d, n) {
      if Divides(d, n) && d * d > n {
        var c := n / d;
        assert c * d == n;
        Cofactor(c, d, n);
      }
    }
  }

  lemma Cofactor(c: int, d: nat, n: nat)
    requires 1 < d < n && c * d == n < d * d
    ensures 1 < c && c * c <= n && Divides(c, n)
  {
    assert c <= 1 ==> c * d <= d;
    assert c >= d ==> c * d >= d * d;
    assert 1 < c < d ==> c * c <= c * d;
    MultipleDivides(d, c);
    assert d * c == n;
  }

  /** What a certificate for n says carries over to every divisor r of n. */
  lemma CongruentDivisor(a: int, b: int, n: nat, r: nat)
    requires n > 0 && r > 0 && Divides(r, n) && Congruent(a, b, n)
    ensures Congruent(a, b, r)
  {
    var k := (a - b) / n;
    assert a - b == k * n;
    DividesTimes(n, k, r);
    assert n * k == a - b;
  }

  lemma SquareMonotone(a: nat, b: nat)
    requires a < b
    ensures a * a < b * b
  {
    assert a * a <= a * b < b * b;
  }

  /** Pocklington: an element b with b^q = 1 and b - 1 invertible modulo n forces every divisor of n
      above the prime q, so n is prime once q * q >= n. */
  lemma Pocklington(n: nat, q: nat, b: int, w: int)
    requires n > 1 && Prime(q) && q * q >= n
    requires Congruent(Pow(b, q), 1, n) && Congruent((b - 1) * w, 1, n)
    ensures Prime(n)
  {
    hide Divides;
    forall r: nat | 1 < r && r * r <= n ensures !Divides(r, n) {
      if Divides(r, n) {
        DivisorAboveOrder(n, q, b, w, r);
        SquareMonotone(q, r);
      }
    }
    SmallDivisor(n);
  }

  lemma UnitIsNotOne(b: int, w: int, r: nat)
    requires r > 1 && Congruent((b - 1) * w, 1, r)
    ensures !Congruent(b, 1, r)
  {
    if Congruent(b, 1, r) {
      DividesTimes(b - 1, w, r);
      DividesSum((b - 1) * w, (b - 1) * w - 1, r);
    }
  }

  lemma DivisorAboveOrder(n: nat, q: nat, b: int, w: int, r: nat)
    requires n > 1 && Prime(q) && r > 1 && Divides(r, n)
    requires Congruent(Pow(b, q), 1, n) && Congruent((b - 1) * w, 1, n)
    ensures q < r
  {
    hide Divides, Pow;
    CongruentDivisor(Pow(b, q), 1, n, r);
    CongruentDivisor((b - 1) * w, 1, n, r);
    UnitIsNotOne(b, w, r);
    forall k: nat | 0 < k < q ensures !Congruent(Pow(b, k), 1, r) {
      SmallNotMultiple(k, q);
      if Congruent(Pow(b, k), 1, r) { OrderIsPrime(b, q, r, k); }
    }
    PowStep(b, q - 1);
    DistinctPowers(b, Pow(b, q - 1), q, r);
  }

  /** The same with the square of a prime: g has order q * q. */
  lemma PocklingtonSquare(n: nat, q: nat, g: int, w: int)
    requires n > 1 && Prime(q) && (q * q) * (q * q) >= n
    requires Congruent(Pow(g, q * q), 1, n) && Congruent((Pow(g, q) - 1) * w, 1, n)
    ensures Prime(n)
  {
    hide Divides;
    var s := q * q;
    forall r: nat | 1 < r && r * r <= n ensures !Divides(r, n) {
      if Divides(r, n) {
        DivisorAboveSquare(n, q, g, w, r);
        SquareMonotone(s, r);
      }
    }
    SmallDivisor(n);
  }

  lemma DivisorAboveSquare(n: nat, q: nat, g: int, w: int, r: nat)
    requires n > 1 && Prime(q) && r > 1 && Divides(r, n)
    requires Congruent(Pow(g, q * q), 1, n) && Congruent((Pow(g, q) - 1) * w, 1, n)
    ensures q * q < r
  {
    hide Divides, Pow;
    CongruentDivisor(Pow(g, q * q), 1, n, r);
    CongruentDivisor((Pow(g, q) - 1) * w, 1, n, r);
    UnitIsNotOne(Pow(g, q), w, r);
    var s := q * q;
    forall k: nat | 0 < k < s ensures !Congruent(Pow(g, k), 1, r) {
      if Congruent(Pow(g, k), 1, r) { OrderIsSquare(g, q, r, k); }
    }
    assert s > 0;
    PowStep(g, s - 1);
    DistinctPowers(g, Pow(g, s - 1), s, r);
  }

  lemma OrderIsSquare(g: int, q: nat, r: nat, k: nat)
    requires r > 0 && Prime(q) && Congruent(Pow(g, q * q), 1, r) && Congruent(Pow(g, k), 1, r)
    requires 0 < k < q * q
    ensures Congruent(Pow(g, q), 1, r)
  {
    hide Pow, Congruent, Prime;
    PowTimes(g, q, q);
    if Divides(q, k) {
      var j := k / q;
      assert k == q * j by { DivisionIs(k, q); }
      PowTimes(g, q, j);
      SmallMultiple(q, j);
      OrderIsPrime(Pow(g, q), q, r, j);
    } else {
      PowOfOne(Pow(g, k), q, r);
      PowTimes(g, k, q);
      PowTimes(g, q, k);
      assert k * q == q * k;
      OrderIsPrime(Pow(g, q), q, r, k);
    }
  }

  lemma SmallMultiple(q: nat, j: nat)
    requires 0 < q * j < q * q
    ensures 0 < j < q && !Divides(q, j)
  {
    assert j >= q ==> q * j >= q * q;
    SmallNotMultiple(j, q);
  }
}
