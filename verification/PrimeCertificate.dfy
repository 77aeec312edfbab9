/** The modulus of the permutation, 4294967291, is prime: a chain of certificates 181, 22605091,
    4294967291 in which each prime divides the predecessor of the next. */
module PrimeCertificate {
  import opened NumberTheory

  const PRIME: nat := 4294967291

  lemma SquareStep(b: nat, e: nat, v: nat, k: nat, w: nat, m: nat)
    requires w < m && Congruent(Pow(b, e), v, m) && v * v == k * m + w
    ensures Congruent(Pow(b, 2 * e), w, m)
  {
    PowAdd(b, e, e);
    CongruentTimes(Pow(b, e), v, Pow(b, e), v, m);
    MultipleDivides(k, m);
    CongruentTransitive(Pow(b, e) * Pow(b, e), v * v, w, m);
  }

  lemma TimesStep(b: nat, e: nat, v: nat, k: nat, w: nat, m: nat)
    requires w < m && Congruent(Pow(b, e), v, m) && v * b == k * m + w
    ensures Congruent(Pow(b, e + 1), w, m)
  {
    CongruentTimes(Pow(b, e), v, b, b, m);
    MultipleDivides(k, m);
    CongruentTransitive(Pow(b, e) * b, v * b, w, m);
  }

  lemma FirstPower(b: nat, m: nat)
    requires m > 0
    ensures Congruent(Pow(b, 1), b, m)
  {
    assert Pow(b, 1) == b * Pow(b, 0) == b;
  }

  lemma Prime181()
    ensures Prime(181)
  {
    forall d: nat | 1 < d && d * d <= 181 ensures !Divides(d, 181) {
      assert d >= 14 ==> d * d >= 14 * d;
      assert d < 14;
    }
    SmallDivisor(181);
  }

  lemma Power181(b: nat)
    requires b == 18389778
    ensures Congruent(Pow(b, 181), 13954217, 22605091)
  {
    hide Pow;
    FirstPower(b, 22605091);
    SquareStep(b, 1, 18389778, 14960520, 18881964, 22605091);
    SquareStep(b, 2, 18881964, 15772047, 6806019, 22605091);
    TimesStep(b, 4, 6806019, 5536857, 22134795, 22605091);
    SquareStep(b, 5, 22134795, 21674283, 10117272, 22605091);
    TimesStep(b, 10, 10117272, 8230640, 19857376, 22605091);
    SquareStep(b, 11, 19857376, 17443653, 18167953, 22605091);
    SquareStep(b, 22, 18167953, 14601777, 18363502, 22605091);
    TimesStep(b, 44, 18363502, 14939144, 15500452, 22605091);
    SquareStep(b, 45, 15500452, 10628756, 15607508, 22605091);
    SquareStep(b, 90, 15607508, 10776081, 14341693, 22605091);
    TimesStep(b, 180, 14341693, 11667307, 13954217, 22605091);
  }

  lemma Power181Squared(b: nat)
    requires b == 13954217
    ensures Congruent(Pow(b, 181), 1, 22605091)
  {
    hide Pow;
    FirstPower(b, 22605091);
    SquareStep(b, 1, 13954217, 8613996, 8629453, 22605091);
    SquareStep(b, 2, 8629453, 3294278, 5109911, 22605091);
    TimesStep(b, 4, 5109911, 3154369, 8652108, 22605091);
    SquareStep(b, 5, 8652108, 3311597, 21303337, 22605091);
    TimesStep(b, 10, 21303337, 13150638, 18624071, 22605091);
    SquareStep(b, 11, 18624071, 15344155, 519936, 22605091);
    SquareStep(b, 22, 519936, 11958, 21765918, 22605091);
    TimesStep(b, 44, 21765918, 13436192, 122734, 22605091);
    SquareStep(b, 45, 122734, 666, 8644150, 22605091);
    SquareStep(b, 90, 8644150, 3305508, 20081272, 22605091);
    TimesStep(b, 180, 20081272, 12396253, 1, 22605091);
  }

  lemma {:induction false} PowCongruent(a: int, b: int, e: nat, m: nat)
    requires m > 0 && Congruent(a, b, m)
    ensures Congruent(Pow(a, e), Pow(b, e), m)
  {
    if e > 0 {
      PowCongruent(a, b, e - 1, m);
      CongruentTimes(a, b, Pow(a, e - 1), Pow(b, e - 1), m);
    }
  }

  lemma Prime22605091()
    ensures Prime(22605091)
  {
    hide Pow, Divides;
    Prime181();
    var n, q, g, h, w := 22605091, 181, 18389778, 13954217, 19569746;
    Power181(g);
    Power181Squared(h);
    PowCongruent(Pow(g, q), h, q, n);
    CongruentTransitive(Pow(Pow(g, q), q), Pow(h, q), 1, n);
    PowTimes(g, q, q);
    CongruentReflexive(w, n);
    CongruentDifference(Pow(g, q), h, 1, n);
    CongruentTimes(Pow(g, q) - 1, h - 1, w, w, n);
    MultipleDivides(12080485, n);
    CongruentTransitive((Pow(g, q) - 1) * w, (h - 1) * w, 1, n);
    PocklingtonSquare(n, q, g, w);
  }

  lemma Power2759(b: nat)
    requires b == 1073745729
    ensures Congruent(Pow(b, 2759), 2579436866, 4294967291)
  {
    hide Pow;
    FirstPower(b, 4294967291);
    SquareStep(b, 1, 1073745729, 268437408, 3504919713, 4294967291);
    SquareStep(b, 2, 3504919713, 2860199243, 148041656, 4294967291);
    TimesStep(b, 4, 148041656, 37010548, 2762101756, 4294967291);
    SquareStep(b, 5, 2762101756, 1776312971, 1474251975, 4294967291);
    SquareStep(b, 10, 1474251975, 506038518, 2995285887, 4294967291);
    TimesStep(b, 20, 2995285887, 748824195, 4065820878, 4294967291);
    SquareStep(b, 21, 4065820878, 3848899954, 3219286270, 4294967291);
    TimesStep(b, 42, 3219286270, 804824495, 1820247785, 4294967291);
    SquareStep(b, 43, 1820247785, 771438237, 3855700258, 4294967291);
    SquareStep(b, 86, 3855700258, 3461359184, 1858816020, 4294967291);
    SquareStep(b, 172, 1858816020, 804475741, 2210652769, 4294967291);
    SquareStep(b, 344, 2210652769, 1137840019, 1091548832, 4294967291);
    TimesStep(b, 688, 1091548832, 272888200, 3255072328, 4294967291);
    SquareStep(b, 689, 3255072328, 2466956123, 3894166791, 4294967291);
    TimesStep(b, 1378, 3894166791, 973545239, 2036108090, 4294967291);
    SquareStep(b, 1379, 2036108090, 965254418, 1360206462, 4294967291);
    TimesStep(b, 2758, 1360206462, 340052852, 2579436866, 4294967291);
  }

  lemma Power22605091(b: nat)
    requires b == 1073745729
    ensures Congruent(Pow(b, 22605091), 1, 4294967291)
  {
    hide Pow;
    Power2759(b);
    SquareStep(b, 2759, 2579436866, 1549137419, 1810740027, 4294967291);
    SquareStep(b, 5518, 1810740027, 763400329, 2386321990, 4294967291);
    TimesStep(b, 11036, 2386321990, 596582667, 3638735613, 4294967291);
    SquareStep(b, 11037, 3638735613, 3082770127, 177569812, 4294967291);
    TimesStep(b, 22074, 177569812, 44392614, 2142344274, 4294967291);
    SquareStep(b, 22075, 2142344274, 1068608601, 164317185, 4294967291);
    SquareStep(b, 44150, 164317185, 6286459, 1505111656, 4294967291);
    TimesStep(b, 88300, 1505111656, 376279282, 3827152162, 4294967291);
    SquareStep(b, 88301, 3827152162, 3410292251, 305512203, 4294967291);
    SquareStep(b, 176602, 305512203, 21731878, 999910711, 4294967291);
    SquareStep(b, 353204, 999910711, 232789067, 1505118024, 4294967291);
    TimesStep(b, 706408, 1505118024, 376280874, 3852027162, 4294967291);
    SquareStep(b, 706409, 3852027162, 3454767464, 894754220, 4294967291);
    SquareStep(b, 1412818, 894754220, 186400747, 2824842023, 4294967291);
    SquareStep(b, 2825636, 2824842023, 1857926245, 3541280234, 4294967291);
    SquareStep(b, 5651272, 3541280234, 2919851269, 779252477, 4294967291);
    TimesStep(b, 11302544, 779252477, 194813827, 4191888076, 4294967291);
    SquareStep(b, 11302545, 4191888076, 4091282762, 688844034, 4294967291);
    TimesStep(b, 22605090, 688844034, 172211635, 1, 4294967291);
  }

  lemma PrimeModulus()
    ensures Prime(PRIME) && PRIME % 4 == 3
  {
    hide Pow, Divides;
    Prime22605091();
    Power22605091(1073745729);
    MultipleDivides(442805837, PRIME);
    Pocklington(PRIME, 22605091, 1073745729, 1771216906);
  }
}
