/** Polynomials over GF(2), each as the set of its exponents, and remainders modulo one of them. */
module Polynomials {

  type Polynomial = iset<nat>

  ghost function Sum(a: Polynomial, b: Polynomial): Polynomial {
    iset e: nat | (e in a) != (e in b)
  }

  /** a times x^k. */
  ghost function Raise(a: Polynomial, k: nat): Polynomial {
    iset e: nat | Shifted(a, k, e)
  }

  ghost predicate Shifted(a: Polynomial, k: nat, e: nat) {
    e >= k && e - k in a
  }

  lemma RaiseAdd(a: Polynomial, m: nat, n: nat)
    ensures Raise(Raise(a, m), n) == Raise(a, m + n)
  {
    Same(Raise(Raise(a, m), n), Raise(a, m + n));
  }

  lemma SumAssociative(a: Polynomial, b: Polynomial, c: Polynomial)
    ensures Sum(Sum(a, b), c) == Sum(a, Sum(b, c))
  {
    Same(Sum(Sum(a, b), c), Sum(a, Sum(b, c)));
  }

  lemma RaiseSum(a: Polynomial, b: Polynomial, k: nat)
    ensures Raise(Sum(a, b), k) == Sum(Raise(a, k), Raise(b, k))
  {
    Same(Raise(Sum(a, b), k), Sum(Raise(a, k), Raise(b, k)));
  }

  /** q times p, for a q given by its coefficients, the low ones first. */
  ghost function Times(q: seq<bool>, p: Polynomial): Polynomial {
    if q == [] then iset{} else Sum(if q[0] then p else iset{}, Raise(Times(q[1..], p), 1))
  }

  ghost predicate Congruent(a: Polynomial, b: Polynomial, p: Polynomial) {
    exists q :: Sum(a, b) == Times(q, p)
  }

  ghost predicate HasDegree(p: Polynomial, d: nat) {
    d in p && forall e :: e in p ==> e <= d
  }

  /** r is what dividing a by p of degree d leaves. */
  ghost predicate IsRemainder(r: Polynomial, a: Polynomial, p: Polynomial, d: nat) {
    (forall e :: e in r ==> e < d) && Congruent(a, r, p)
  }

  lemma Same(a: Polynomial, b: Polynomial)
    requires forall e: nat :: e in a <==> e in b
    ensures a == b
  {
  }

  /** Coefficient by coefficient, the shorter one filled up. */
  function Added(q: seq<bool>, r: seq<bool>): (s: seq<bool>) {
    if q == [] then r else if r == [] then q else [q[0] != r[0]] + Added(q[1..], r[1..])
  }

  lemma {:induction false} TimesAdded(q: seq<bool>, r: seq<bool>, p: Polynomial)
    ensures Times(Added(q, r), p) == Sum(Times(q, p), Times(r, p))
  {
    hide Raise;
    if q == [] || r == [] {
      Same(Times(Added(q, r), p), Sum(Times(q, p), Times(r, p)));
    } else {
      TimesAdded(q[1..], r[1..], p);
      RaiseSum(Times(q[1..], p), Times(r[1..], p), 1);
      assert Added(q, r)[1..] == Added(q[1..], r[1..]);
      Same(Times(Added(q, r), p), Sum(Times(q, p), Times(r, p)));
    }
  }

  lemma CongruentReflexive(a: Polynomial, p: Polynomial)
    ensures Congruent(a, a, p)
  {
    Same(Sum(a, a), iset{});
    assert Sum(a, a) == Times([], p);
  }

  lemma CongruentSum(a: Polynomial, b: Polynomial, c: Polynomial, d: Polynomial, p: Polynomial)
    requires Congruent(a, b, p) && Congruent(c, d, p)
    ensures Congruent(Sum(a, c), Sum(b, d), p)
  {
    var q :| Sum(a, b) == Times(q, p);
    var r :| Sum(c, d) == Times(r, p);
    TimesAdded(q, r, p);
    forall e: nat ensures e in Sum(Sum(a, c), Sum(b, d)) <==> e in Times(Added(q, r), p) {
      assert e in Sum(a, b) <==> e in Times(q, p);
      assert e in Sum(c, d) <==> e in Times(r, p);
    }
    Same(Sum(Sum(a, c), Sum(b, d)), Times(Added(q, r), p));
  }

  lemma CongruentTransitive(a: Polynomial, b: Polynomial, c: Polynomial, p: Polynomial)
    requires Congruent(a, b, p) && Congruent(b, c, p)
    ensures Congruent(a, c, p)
  {
    var q :| Sum(a, b) == Times(q, p);
    var r :| Sum(b, c) == Times(r, p);
    TimesAdded(q, r, p);
    forall e: nat ensures e in Sum(a, c) <==> e in Times(Added(q, r), p) {
      assert e in Sum(a, b) <==> e in Times(q, p);
      assert e in Sum(b, c) <==> e in Times(r, p);
    }
    Same(Sum(a, c), Times(Added(q, r), p));
  }

  lemma CongruentSymmetric(a: Polynomial, b: Polynomial, p: Polynomial)
    requires Congruent(a, b, p)
    ensures Congruent(b, a, p)
  {
    Same(Sum(a, b), Sum(b, a));
  }

  lemma RaiseNothing(a: Polynomial)
    ensures Raise(a, 0) == a
  {
    Same(Raise(a, 0), a);
  }

  lemma {:induction false} CongruentRaise(a: Polynomial, b: Polynomial, k: nat, p: Polynomial)
    requires Congruent(a, b, p)
    ensures Congruent(Raise(a, k), Raise(b, k), p)
    decreases k
  {
    hide Raise;
    if k == 0 {
      RaiseNothing(a);
      RaiseNothing(b);
      assert Congruent(Raise(a, k), Raise(b, k), p);
    } else {
      CongruentRaise(a, b, k - 1, p);
      var q :| Sum(Raise(a, k - 1), Raise(b, k - 1)) == Times(q, p);
      var r := [false] + q;
      assert r[1..] == q;
      RaiseAdd(a, k - 1, 1);
      RaiseAdd(b, k - 1, 1);
      RaiseSum(Raise(a, k - 1), Raise(b, k - 1), 1);
      Same(Sum(iset{}, Raise(Times(q, p), 1)), Raise(Times(q, p), 1));
      assert Sum(Raise(a, k), Raise(b, k)) == Times(r, p);
    }
  }

  /** A sum with the modulus changes nothing. */
  lemma CongruentModulus(a: Polynomial, p: Polynomial)
    ensures Congruent(a, Sum(a, p), p)
  {
    assert [true][1..] == [];
    assert Times([true], p) == Sum(p, Raise(iset{}, 1));
    Same(Sum(p, Raise(iset{}, 1)), p);
    Same(Sum(a, Sum(a, p)), p);
  }

  /** A multiple is nothing, or has an exponent that p has not less of. */
  lemma {:induction false} MultipleIsLarge(q: seq<bool>, p: Polynomial, d: nat)
    requires HasDegree(p, d) && Times(q, p) != iset{}
    ensures exists e :: e >= d && HasDegree(Times(q, p), e)
  {
    if q != [] {
      var rest := Times(q[1..], p);
      var low: Polynomial := if q[0] then p else iset{};
      if exists e :: e in rest {
        MultipleIsLarge(q[1..], p, d);
        var e :| e >= d && HasDegree(rest, e);
        assert HasDegree(Sum(low, Raise(rest, 1)), e + 1);
      } else {
        Same(rest, iset{});
        Same(Sum(low, Raise(rest, 1)), low);
        assert HasDegree(Times(q, p), d);
      }
    }
  }

  /** There is one remainder only. */
  lemma RemainderIsUnique(r: Polynomial, s: Polynomial, a: Polynomial, p: Polynomial, d: nat)
    requires HasDegree(p, d) && IsRemainder(r, a, p, d) && IsRemainder(s, a, p, d)
    ensures r == s
  {
    CongruentSymmetric(a, r, p);
    CongruentTransitive(r, a, s, p);
    var q :| Sum(r, s) == Times(q, p);
    if Sum(r, s) != iset{} {
      MultipleIsLarge(q, p, d);
    } else {
      forall e: nat ensures e in r <==> e in s { assert e !in Sum(r, s); }
    }
  }
}
