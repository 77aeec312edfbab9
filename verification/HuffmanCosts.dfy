/** What codes cost and why joining the two lightest trees is best: huffman.h of external/pdlfs-common's ectrie.
    The lengths of the codes in a full tree add up to one when a length l counts 2^-l; among all lengths that
    do, those of the generated tree have the least weighted sum. */
module HuffmanCosts {
  import opened HuffmanTrees

  // ----- Lengths

  /** 2^-l. */
  function Half(l: nat): (h: real)
    ensures h > 0.0
  {
    if l == 0 then 1.0 else Half(l - 1) / 2.0
  }

  function HalfSum(ls: seq<nat>): real {
    if ls == [] then 0.0 else Half(ls[0]) + HalfSum(ls[1..])
  }

  ghost predicate Full(ls: seq<nat>) {
    HalfSum(ls) == 1.0
  }

  /** What the entries of a queue cost with these code lengths. */
  function Cost(q: seq<Entry>, ls: seq<nat>): real
    requires |q| == |ls|
  {
    if q == [] then 0.0 else q[0].weight * ls[0] as real + Cost(q[1..], ls[1..])
  }

  // ----- Swapping two lengths

  lemma {:induction false} HalfSumUpdate(ls: seq<nat>, i: nat, l: nat)
    requires i < |ls|
    ensures HalfSum(ls[i := l]) == HalfSum(ls) - Half(ls[i]) + Half(l)
  {
    if i > 0 {
      HalfSumUpdate(ls[1..], i - 1, l);
      assert ls[i := l][1..] == ls[1..][i - 1 := l];
    } else {
      assert ls[i := l][1..] == ls[1..];
    }
  }

  lemma {:induction false} CostUpdate(q: seq<Entry>, ls: seq<nat>, i: nat, l: nat)
    requires |q| == |ls| && i < |ls|
    ensures Cost(q, ls[i := l]) == Cost(q, ls) + q[i].weight * (l as real - ls[i] as real)
  {
    if i > 0 {
      CostUpdate(q[1..], ls[1..], i - 1, l);
      assert ls[i := l][1..] == ls[1..][i - 1 := l];
    } else {
      assert ls[i := l][1..] == ls[1..];
    }
  }

  /** The lighter of two entries gets the longer code. */
  lemma Swapped(q: seq<Entry>, ls: seq<nat>, i: nat, j: nat) returns (r: seq<nat>)
    requires |q| == |ls| && i < |ls| && j < |ls| && q[i].weight <= q[j].weight && ls[i] <= ls[j]
    ensures |r| == |ls| && HalfSum(r) == HalfSum(ls) && Cost(q, r) <= Cost(q, ls)
    ensures r == ls[i := ls[j]][j := ls[i]]
  {
    hide Half;
    r := ls[i := ls[j]][j := ls[i]];
    var mid := ls[i := ls[j]];
    HalfSumUpdate(ls, i, ls[j]);
    HalfSumUpdate(mid, j, ls[i]);
    CostUpdate(q, ls, i, ls[j]);
    CostUpdate(q, mid, j, ls[i]);
    Exchange(q[i].weight, q[j].weight, ls[i] as real, ls[j] as real);
    assert i == j ==> r == ls;
  }

  lemma Exchange(a: real, b: real, x: real, y: real)
    requires a <= b && x <= y
    ensures a * (y - x) + b * (x - y) <= 0.0
  {
    ProductNotNegative(b - a, y - x);
    Difference(a, b, x, y);
  }

  lemma ProductNotNegative(d: real, e: real)
    requires d >= 0.0 && e >= 0.0
    ensures d * e >= 0.0
  {
  }

  lemma Difference(a: real, b: real, x: real, y: real)
    ensures a * (y - x) + b * (x - y) == -((b - a) * (y - x))
  {
  }

  // ----- Two entries have the longest code

  function Longest(ls: seq<nat>): (d: nat)
    requires ls != []
    ensures d in ls && forall i :: 0 <= i < |ls| ==> ls[i] <= d
  {
    if |ls| == 1 then ls[0]
    else
      var m := Longest(ls[1..]);
      assert forall i :: 1 <= i < |ls| ==> ls[i] == ls[1..][i - 1];
      if ls[0] > m then ls[0] else m
  }

  /** 2^n as a real, in units of 2^-d. */
  lemma {:induction false} InUnits(l: nat, d: nat) returns (k: nat)
    requires l <= d
    ensures Half(l) == k as real * Half(d) && (l < d ==> k % 2 == 0) && k > 0
    decreases d - l
  {
    if l == d {
      k := 1;
    } else {
      var m := InUnits(l + 1, d);
      k := 2 * m;
      assert Half(l + 1) == Half(l) / 2.0;
      Twice(m, Half(d));
    }
  }

  lemma Twice(m: nat, u: real)
    ensures 2.0 * (m as real * u) == (2 * m) as real * u
  {
  }

  lemma {:induction false} SumInUnits(ls: seq<nat>, d: nat) returns (k: nat)
    requires forall i :: 0 <= i < |ls| ==> ls[i] < d
    ensures HalfSum(ls) == k as real * Half(d) && k % 2 == 0
  {
    hide Half;
    if ls == [] {
      k := 0;
    } else {
      var a := InUnits(ls[0], d);
      var b := SumInUnits(ls[1..], d);
      k := a + b;
      Distributes(a, b, Half(d));
    }
  }

  lemma Distributes(a: nat, b: nat, u: real)
    ensures a as real * u + b as real * u == (a + b) as real * u
  {
  }

  lemma SameUnits(a: nat, b: nat, u: real)
    requires u > 0.0 && a as real * u == b as real * u
    ensures a == b
  {
    assert (a as real - b as real) * u == 0.0;
    assert a as real - b as real == 0.0;
  }

  /** The longest code is not alone. */
  lemma AnotherLongest(ls: seq<nat>) returns (j: nat)
    requires |ls| >= 2 && Full(ls) && forall i :: 0 <= i < |ls| ==> ls[i] <= ls[0]
    ensures 0 < j < |ls| && ls[j] == ls[0] && ls[0] > 0
  {
    hide Half;
    var d := ls[0];
    if d == 0 {
      assert Half(0) == 1.0 by { NoHalving(); }
      RestPositive(ls[1..]);
      assert false;
    }
    if k :| 0 < k < |ls| && ls[k] == d {
      j := k;
    } else {
      forall i | 0 <= i < |ls[1..]| ensures ls[1..][i] < d { assert ls[1..][i] == ls[i + 1]; }
      var k := SumInUnits(ls[1..], d);
      var one := InUnits(0, d);
      NoHalving();
      Distributes(1, k, Half(d));
      SameUnits(one, 1 + k, Half(d));
      assert false;
    }
  }

  lemma NoHalving()
    ensures Half(0) == 1.0
  {
  }

  lemma {:induction false} RestPositive(ls: seq<nat>)
    requires ls != []
    ensures HalfSum(ls) > 0.0
  {
    hide Half;
    if |ls| > 1 { RestPositive(ls[1..]); }
  }

  // ----- Merging

  /** The lengths when the queue gets an entry: Insert, for lengths. */
  function InsertLength(q: seq<Entry>, ls: seq<nat>, e: Entry, l: nat): (r: seq<nat>)
    requires |q| == |ls|
    ensures |r| == |ls| + 1
  {
    if q == [] || e.weight < q[0].weight then [l] + ls else [ls[0]] + InsertLength(q[1..], ls[1..], e, l)
  }

  lemma {:induction false} InsertLengthSums(q: seq<Entry>, ls: seq<nat>, e: Entry, l: nat)
    requires |q| == |ls|
    ensures HalfSum(InsertLength(q, ls, e, l)) == HalfSum(ls) + Half(l)
    ensures Cost(Insert(q, e), InsertLength(q, ls, e, l)) == Cost(q, ls) + e.weight * l as real
  {
    hide Half, Insert;
    var r, p := InsertLength(q, ls, e, l), Insert(q, e);
    InsertStep(q, e);
    if q == [] || e.weight < q[0].weight {
      assert r[1..] == ls && p[1..] == q;
    } else {
      InsertLengthSums(q[1..], ls[1..], e, l);
      assert r[1..] == InsertLength(q[1..], ls[1..], e, l) && p[1..] == Insert(q[1..], e);
    }
  }

  /** Any lengths for a queue can be turned into lengths for the queue with its two lightest entries merged,
      at what the merged entry weighs or less. */
  lemma MergeBound(q: seq<Entry>, ls: seq<nat>, e: Entry) returns (ms: seq<nat>)
    requires Sorted(q) && |q| == |ls| >= 2 && Full(ls) && e.weight == q[0].weight + q[1].weight
    ensures |ms| == |q| - 1 && Full(ms) && Cost(q, ls) >= e.weight + Cost(Insert(q[1..][1..], e), ms)
  {
    hide Half, Insert, HalfSum, Cost, Longest;
    var d := Longest(ls);
    var i :| 0 <= i < |ls| && ls[i] == d;
    var once := Swapped(q, ls, 0, i);
    var j := AnotherLongest(once);
    var twice := Swapped(q, once, 1, j);
    assert twice[0] == d && twice[1] == d;
    ms := MergeLongest(q, twice, e, d);
  }

  lemma MergeLongest(q: seq<Entry>, ls: seq<nat>, e: Entry, d: nat) returns (ms: seq<nat>)
    requires |q| == |ls| >= 2 && ls[0] == ls[1] == d > 0 && e.weight == q[0].weight + q[1].weight
    ensures |ms| == |q| - 1 && HalfSum(ms) == HalfSum(ls)
    ensures Cost(q, ls) == e.weight + Cost(Insert(q[1..][1..], e), ms)
  {
    hide Half, Insert, HalfSum, Cost, InsertLength;
    var rest := ls[1..][1..];
    ms := InsertLength(q[1..][1..], rest, e, d - 1);
    InsertLengthSums(q[1..][1..], rest, e, d - 1);
    FirstTwoSums(q, ls);
    HalvesJoin(d);
    JoinedCost(q[0].weight, q[1].weight, d);
  }

  lemma FirstTwoSums(q: seq<Entry>, ls: seq<nat>)
    requires |q| == |ls| >= 2
    ensures HalfSum(ls) == Half(ls[0]) + Half(ls[1]) + HalfSum(ls[1..][1..])
    ensures Cost(q, ls) ==
            q[0].weight * ls[0] as real + q[1].weight * ls[1] as real + Cost(q[1..][1..], ls[1..][1..])
  {
    hide Half, HalfSum, Cost;
    SumsStep(q, ls);
    SumsStep(q[1..], ls[1..]);
  }

  lemma SumsStep(q: seq<Entry>, ls: seq<nat>)
    requires |q| == |ls| >= 1
    ensures HalfSum(ls) == Half(ls[0]) + HalfSum(ls[1..])
    ensures Cost(q, ls) == q[0].weight * ls[0] as real + Cost(q[1..], ls[1..])
  {
    hide Half;
  }

  lemma HalvesJoin(d: nat)
    requires d > 0
    ensures Half(d) + Half(d) == Half(d - 1)
  {
  }

  lemma JoinedCost(a: real, b: real, d: nat)
    requires d > 0
    ensures a * d as real + b * d as real == (a + b) + (a + b) * (d - 1) as real
  {
    assert (d - 1) as real == d as real - 1.0;
  }

  // ----- What the generator keeps

  /** No lengths for the queue at the start cost less than what has been merged, plus the best for what is left. */
  ghost predicate Bound(start: seq<Entry>, q: seq<Entry>, merged: real) {
    forall ls: seq<nat> {:trigger Full(ls)} :: |ls| == |start| && Full(ls) ==> Allows(start, q, merged, ls)
  }

  ghost predicate Allows(start: seq<Entry>, q: seq<Entry>, merged: real, ls: seq<nat>)
    requires |ls| == |start|
  {
    exists ms: seq<nat> {:trigger Full(ms)} :: |ms| == |q| && Full(ms) && Cost(start, ls) >= merged + Cost(q, ms)
  }

  lemma BoundStarts(q: seq<Entry>)
    ensures Bound(q, q, 0.0)
  {
    hide Cost, Full;
    forall ls: seq<nat> | |ls| == |q| && Full(ls) ensures Allows(q, q, 0.0, ls) {
      assert Cost(q, ls) >= 0.0 + Cost(q, ls);
    }
  }

  lemma BoundMerges(start: seq<Entry>, q: seq<Entry>, merged: real, e: Entry)
    requires Bound(start, q, merged) && Sorted(q) && |q| >= 2 && e.weight == q[0].weight + q[1].weight
    ensures Bound(start, Insert(q[1..][1..], e), merged + e.weight)
  {
    hide Cost, Full, Insert, Sorted;
    var next := Insert(q[1..][1..], e);
    forall ls: seq<nat> | |ls| == |start| && Full(ls) ensures Allows(start, next, merged + e.weight, ls) {
      assert Allows(start, q, merged, ls);
      var ms: seq<nat> :| |ms| == |q| && Full(ms) && Cost(start, ls) >= merged + Cost(q, ms);
      var ns := MergeBound(q, ms, e);
      assert Cost(start, ls) >= merged + e.weight + Cost(next, ns);
    }
  }

  lemma BoundEnds(start: seq<Entry>, q: seq<Entry>, merged: real, ls: seq<nat>)
    requires Bound(start, q, merged) && |q| == 1 && |ls| == |start| && Full(ls)
    ensures Cost(start, ls) >= merged
  {
    hide Full;
    assert Allows(start, q, merged, ls);
    var ms: seq<nat> :| |ms| == 1 && Full(ms) && Cost(start, ls) >= merged + Cost(q, ms);
    OnlyLength(ms);
    assert q[1..] == [] && ms[1..] == [];
  }

  lemma OnlyLength(ms: seq<nat>)
    requires |ms| == 1 && Full(ms)
    ensures ms[0] == 0
  {
    assert ms[1..] == [];
    assert HalfSum(ms) == Half(ms[0]);
    if ms[0] > 0 { HalfSmall(ms[0]); }
  }

  lemma {:induction false} HalfSmall(l: nat)
    requires l > 0
    ensures Half(l) < 1.0
  {
    if l > 1 { HalfSmall(l - 1); }
  }

  // ----- Trees

  /** The weight of a symbol; symbols that there are none of weigh nothing. */
  function WeightAt(weights: seq<real>, s: nat): real {
    if s < |weights| then weights[s] else 0.0
  }

  function WeightOf(t: Tree, weights: seq<real>): real {
    match t
    case Symbol(s) => WeightAt(weights, s)
    case Fork(l, r) => WeightOf(l, weights) + WeightOf(r, weights)
  }

  /** Every leaf's weight as often as it is below an inner node: what all codes cost. */
  function TreeCost(t: Tree, weights: seq<real>): real {
    match t
    case Symbol(_) => 0.0
    case Fork(l, r) => TreeCost(l, weights) + TreeCost(r, weights) + WeightOf(l, weights) + WeightOf(r, weights)
  }

  /** The sum of f over the leaves, each with its depth below a root at depth d. */
  ghost function LeafSum(t: Tree, f: (nat, nat) -> real, d: nat): real {
    match t
    case Symbol(s) => f(s, d)
    case Fork(l, r) => LeafSum(l, f, d + 1) + LeafSum(r, f, d + 1)
  }

  /** The sum of g over the symbols below n. */
  ghost function SymbolSum(n: nat, g: nat -> real): real {
    if n == 0 then 0.0 else SymbolSum(n - 1, g) + g(n - 1)
  }

  lemma {:induction false} SumOfSums(n: nat, g: nat -> real, h: nat -> real, k: nat -> real)
    requires forall s: nat :: s < n ==> k(s) == g(s) + h(s)
    ensures SymbolSum(n, k) == SymbolSum(n, g) + SymbolSum(n, h)
  {
    if n > 0 { SumOfSums(n - 1, g, h, k); }
  }

  lemma {:induction false} OneTerm(n: nat, g: nat -> real, s: nat)
    requires forall x: nat :: x != s ==> g(x) == 0.0
    ensures SymbolSum(n, g) == if s < n then g(s) else 0.0
  {
    if n > 0 { OneTerm(n - 1, g, s); }
  }

  lemma {:induction false} SameSum(n: nat, g: nat -> real, h: nat -> real)
    requires forall s: nat :: s < n ==> g(s) == h(s)
    ensures SymbolSum(n, g) == SymbolSum(n, h)
  {
    if n > 0 { SameSum(n - 1, g, h); }
  }

  /** What f is at the code of a symbol, for a tree whose root is at depth d. */
  ghost function AtCode(t: Tree, f: (nat, nat) -> real, d: nat): nat -> real {
    (s: nat) => TermAt(t, f, d, s)
  }

  ghost function TermAt(t: Tree, f: (nat, nat) -> real, d: nat, s: nat): real {
    if s in Leaves(t) then f(s, d + |CodeIn(t, s)|) else 0.0
  }

  ghost function HalfAt(): (nat, nat) -> real {
    (s: nat, l: nat) => Half(l)
  }

  ghost function CostAt(weights: seq<real>): (nat, nat) -> real {
    (s: nat, l: nat) => WeightAt(weights, s) * l as real
  }

  lemma {:induction false} LeavesAreSymbols(t: Tree, n: nat, f: (nat, nat) -> real, d: nat)
    requires forall s: nat :: Leaves(t)[s] <= 1 && (s in Leaves(t) ==> s < n)
    ensures LeafSum(t, f, d) == SymbolSum(n, AtCode(t, f, d))
  {
    hide Leaves, CodeIn;
    match t
    case Symbol(s) =>
      SymbolAtCode(s, f, d);
      OneTerm(n, AtCode(t, f, d), s);
    case Fork(l, r) =>
      ForkHasOnce(l, r, n);
      LeavesAreSymbols(l, n, f, d + 1);
      LeavesAreSymbols(r, n, f, d + 1);
      forall s: nat ensures AtCode(t, f, d)(s) == AtCode(l, f, d + 1)(s) + AtCode(r, f, d + 1)(s) {
        ForkAtCode(l, r, f, d, s);
      }
      SumOfSums(n, AtCode(l, f, d + 1), AtCode(r, f, d + 1), AtCode(t, f, d));
  }

  lemma SymbolAtCode(s: nat, f: (nat, nat) -> real, d: nat)
    ensures s in Leaves(Symbol(s)) && forall x: nat :: AtCode(Symbol(s), f, d)(x) == if x == s then f(s, d) else 0.0
  {
  }

  lemma ForkHasOnce(l: Tree, r: Tree, n: nat)
    requires forall s: nat :: Leaves(Fork(l, r))[s] <= 1 && (s in Leaves(Fork(l, r)) ==> s < n)
    ensures forall s: nat :: Leaves(l)[s] <= 1 && (s in Leaves(l) ==> s < n)
    ensures forall s: nat :: Leaves(r)[s] <= 1 && (s in Leaves(r) ==> s < n)
    ensures forall s: nat :: !(s in Leaves(l) && s in Leaves(r))
    ensures forall s: nat :: s in Leaves(Fork(l, r)) <==> s in Leaves(l) || s in Leaves(r)
  {
    forall s: nat
      ensures Leaves(l)[s] <= 1 && Leaves(r)[s] <= 1 && !(s in Leaves(l) && s in Leaves(r))
      ensures s in Leaves(Fork(l, r)) <==> s in Leaves(l) || s in Leaves(r)
    {
      assert Leaves(Fork(l, r))[s] == Leaves(l)[s] + Leaves(r)[s];
    }
  }

  lemma ForkAtCode(l: Tree, r: Tree, f: (nat, nat) -> real, d: nat, s: nat)
    requires !(s in Leaves(l) && s in Leaves(r))
    requires s in Leaves(Fork(l, r)) <==> s in Leaves(l) || s in Leaves(r)
    ensures AtCode(Fork(l, r), f, d)(s) == AtCode(l, f, d + 1)(s) + AtCode(r, f, d + 1)(s)
  {
    hide Leaves, CodeIn;
    var t := Fork(l, r);
    if s in Leaves(t) {
      FirstTurn(t, s);
      var sub := if s in Leaves(l) then l else r;
      assert |CodeIn(t, s)| == 1 + |CodeIn(sub, s)|;
      assert d + |CodeIn(t, s)| == d + 1 + |CodeIn(sub, s)|;
    }
  }

  // ----- A tree's lengths are full, and what they cost

  lemma {:induction false} TreeIsFull(t: Tree, d: nat)
    ensures LeafSum(t, HalfAt(), d) == Half(d)
  {
    match t
    case Symbol(_) =>
    case Fork(l, r) =>
      TreeIsFull(l, d + 1);
      TreeIsFull(r, d + 1);
      HalvesJoin(d + 1);
  }

  lemma {:induction false} TreeCosts(t: Tree, weights: seq<real>, d: nat)
    ensures LeafSum(t, CostAt(weights), d) ==
            TreeCost(t, weights) + WeightOf(t, weights) * d as real
  {
    hide CostAt;
    match t
    case Symbol(s) => CostAtIs(weights, s, d);
    case Fork(l, r) =>
      TreeCosts(l, weights, d + 1);
      TreeCosts(r, weights, d + 1);
      OneDeeper(WeightOf(l, weights), WeightOf(r, weights), d);
  }

  lemma CostAtIs(weights: seq<real>, s: nat, l: nat)
    ensures CostAt(weights)(s, l) == WeightAt(weights, s) * l as real
  {
  }

  lemma OneDeeper(a: real, b: real, d: nat)
    ensures a * (d + 1) as real + b * (d + 1) as real == a + b + (a + b) * d as real
  {
    assert (d + 1) as real == d as real + 1.0;
  }

  /** The sum over all symbols of their weights times the lengths of their codes. */
  ghost function CodeCost(t: Tree, weights: seq<real>): real {
    SymbolSum(|weights|, AtCode(t, CostAt(weights), 0))
  }

  lemma OnceEach(t: Tree, n: nat)
    requires Leaves(t) == AllSymbols(n)
    ensures forall s: nat :: Leaves(t)[s] <= 1 && (s in Leaves(t) <==> s < n)
  {
    forall s: nat ensures Leaves(t)[s] <= 1 && (s in Leaves(t) <==> s < n) { EachSymbolOnce(n, s); }
  }

  lemma CodeCostIsTreeCost(t: Tree, weights: seq<real>)
    requires Leaves(t) == AllSymbols(|weights|)
    ensures CodeCost(t, weights) == TreeCost(t, weights)
  {
    hide Leaves, CodeIn, AllSymbols, CostAt, AtCode;
    OnceEach(t, |weights|);
    LeavesAreSymbols(t, |weights|, CostAt(weights), 0);
    TreeCosts(t, weights, 0);
  }

  // ----- The queue at the start

  ghost function StartQueue(weights: seq<real>, n: nat): (q: seq<Entry>)
    requires n <= |weights|
    ensures |q| == n
  {
    if n == 0 then [] else Insert(StartQueue(weights, n - 1), Entry(weights[n - 1], n - 1))
  }

  /** Lengths g for the entries of a queue. */
  function LengthsFor(q: seq<Entry>, g: nat -> nat): (ls: seq<nat>)
    ensures |ls| == |q| && forall i :: 0 <= i < |q| ==> ls[i] == g(q[i].ref)
  {
    if q == [] then [] else [g(q[0].ref)] + LengthsFor(q[1..], g)
  }

  lemma {:induction false} LengthsInserted(q: seq<Entry>, e: Entry, g: nat -> nat)
    ensures LengthsFor(Insert(q, e), g) == InsertLength(q, LengthsFor(q, g), e, g(e.ref))
  {
    hide Insert;
    InsertStep(q, e);
    var p := Insert(q, e);
    if q == [] || e.weight < q[0].weight {
      assert p == [e] + q && p[1..] == q;
    } else {
      LengthsInserted(q[1..], e, g);
      assert p == [q[0]] + Insert(q[1..], e);
      assert p[1..] == Insert(q[1..], e) && LengthsFor(q, g)[1..] == LengthsFor(q[1..], g);
    }
  }

  ghost function HalfOf(g: nat -> nat): nat -> real {
    (s: nat) => Half(g(s))
  }

  ghost function CostOf(weights: seq<real>, g: nat -> nat): nat -> real {
    (s: nat) => WeightAt(weights, s) * g(s) as real
  }

  lemma {:induction false} StartSums(weights: seq<real>, n: nat, g: nat -> nat)
    requires n <= |weights|
    ensures HalfSum(LengthsFor(StartQueue(weights, n), g)) == SymbolSum(n, HalfOf(g))
    ensures Cost(StartQueue(weights, n), LengthsFor(StartQueue(weights, n), g)) == SymbolSum(n, CostOf(weights, g))
  {
    hide Half, Insert, LengthsFor, HalfOf, CostOf;
    if n == 0 {
    } else {
      StartSums(weights, n - 1, g);
      var q, e := StartQueue(weights, n - 1), Entry(weights[n - 1], n - 1);
      LengthsInserted(q, e, g);
      InsertLengthSums(q, LengthsFor(q, g), e, g(n - 1));
      TermsAre(weights, g, n - 1);
    }
  }

  lemma TermsAre(weights: seq<real>, g: nat -> nat, s: nat)
    ensures HalfOf(g)(s) == Half(g(s)) && CostOf(weights, g)(s) == WeightAt(weights, s) * g(s) as real
  {
  }

  /** The lengths of the codes in a tree. */
  ghost function LengthIn(t: Tree): nat -> nat {
    (s: nat) => if s in Leaves(t) then |CodeIn(t, s)| else 0
  }

  lemma LengthTerms(t: Tree, weights: seq<real>, s: nat)
    requires s in Leaves(t)
    ensures AtCode(t, HalfAt(), 0)(s) == HalfOf(LengthIn(t))(s)
    ensures AtCode(t, CostAt(weights), 0)(s) == CostOf(weights, LengthIn(t))(s)
  {
    hide Leaves, CodeIn, Half;
  }

  /** Every full tree gives lengths for the start queue that are full and cost what its codes cost. */
  lemma TreeGivesLengths(t: Tree, weights: seq<real>) returns (ls: seq<nat>)
    requires Leaves(t) == AllSymbols(|weights|)
    ensures |ls| == |weights| && Full(ls) && Cost(StartQueue(weights, |weights|), ls) == CodeCost(t, weights)
  {
    hide Leaves, CodeIn, AllSymbols, Half, LeafSum, AtCode, HalfOf, CostOf, HalfAt, CostAt, LengthIn;
    var n := |weights|;
    OnceEach(t, n);
    var g := LengthIn(t);
    ls := LengthsFor(StartQueue(weights, n), g);
    StartSums(weights, n, g);
    LeavesAreSymbols(t, n, HalfAt(), 0);
    TreeIsFull(t, 0);
    NoHalving();
    forall s: nat | s < n
      ensures AtCode(t, HalfAt(), 0)(s) == HalfOf(g)(s) && AtCode(t, CostAt(weights), 0)(s) == CostOf(weights, g)(s)
    {
      LengthTerms(t, weights, s);
    }
    SameSum(n, AtCode(t, HalfAt(), 0), HalfOf(g));
    SameSum(n, AtCode(t, CostAt(weights), 0), CostOf(weights, g));
  }
}
