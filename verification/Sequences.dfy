/** Facts about slices, and about codes at positions of a sequence, that every codec needs. */
module Sequences {

  lemma SubSlice<T>(s: seq<T>, i: nat, n: nat, a: nat, b: nat)
    requires i + n <= |s| && a <= b <= n
    ensures s[i..i + n][a..b] == s[i + a..i + b]
  {
    var x, y := s[i..i + n][a..b], s[i + a..i + b];
    forall k | 0 <= k < |x| ensures x[k] == y[k] {
      assert x[k] == s[i..i + n][a + k];
    }
  }

  // ----- Holding a code at a position

  ghost predicate Holds<T>(data: seq<T>, p: nat, code: seq<T>) {
    p + |code| <= |data| && data[p..p + |code|] == code
  }

  lemma HoldsParts<T>(data: seq<T>, p: nat, a: seq<T>, b: seq<T>)
    requires Holds(data, p, a + b)
    ensures Holds(data, p, a) && Holds(data, p + |a|, b)
  {
    SubSlice(data, p, |a + b|, 0, |a|);
    SubSlice(data, p, |a + b|, |a|, |a + b|);
    assert (a + b)[0..|a|] == a && (a + b)[|a|..|a + b|] == b;
  }

  lemma HoldsLonger<T>(data: seq<T>, more: seq<T>, p: nat, code: seq<T>)
    requires Holds(data, p, code)
    ensures Holds(data + more, p, code)
  {
    assert (data + more)[p..p + |code|] == data[p..p + |code|];
  }

  lemma HoldsSuffix<T>(data: seq<T>, code: seq<T>)
    ensures Holds(data + code, |data|, code)
  {
  }

  lemma HoldsAt<T>(data: seq<T>, p: nat, code: seq<T>, i: nat)
    requires Holds(data, p, code) && i < |code|
    ensures p + i < |data| && data[p + i] == code[i]
  {
    assert data[p..p + |code|][i] == data[p + i];
  }
}
