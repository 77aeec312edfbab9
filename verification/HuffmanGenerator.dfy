/** huffman_tree_generator of huffman.h: whatever the weights, the tree it makes has every symbol as a leaf once
    and costs no more than any other such tree. */
module HuffmanGenerator {
  import opened HuffmanTrees
  import opened HuffmanCosts

  /** No tree with the same symbols has codes of a smaller weighted length. */
  ghost predicate Optimal(t: Tree, weights: seq<real>) {
    forall o: Tree {:trigger CodeCost(o, weights)} ::
      Leaves(o) == AllSymbols(|weights|) ==> CodeCost(t, weights) <= CodeCost(o, weights)
  }

  // ----- Weights

  ghost function WeightBelow(nodes: seq<nat>, n: nat, bound: nat, ref: nat, symbols: seq<real>): real
    requires Ordered(nodes, n, bound) && ref < bound
  {
    OrderedPrefix(nodes, n, bound, ref + 1);
    WeightOf(TreeOf(nodes, n, ref), symbols)
  }

  /** Every reference below bound weighs what its symbols weigh together. */
  ghost predicate Weighed(weights: seq<real>, nodes: seq<nat>, n: nat, bound: nat, symbols: seq<real>)
    requires Ordered(nodes, n, bound)
  {
    bound <= |weights| && forall ref: nat :: ref < bound ==> weights[ref] == WeightBelow(nodes, n, bound, ref, symbols)
  }

  /** Every entry of the queue has the weight of its reference. */
  ghost predicate Matches(q: seq<Entry>, weights: seq<real>) {
    forall e :: e in q ==> e.ref < |weights| && e.weight == weights[e.ref]
  }

  /** Of the children of an inner node the left one is not the heavier. */
  ghost predicate LeftLighter(weights: seq<real>, nodes: seq<nat>, n: nat, bound: nat)
    requires Ordered(nodes, n, bound) && bound <= |weights|
  {
    forall ref: nat {:trigger LeftOf(nodes, n, ref)} ::
      n <= ref < bound ==> weights[LeftOf(nodes, n, ref)] <= weights[RightOf(nodes, n, ref)]
  }

  lemma NodeLighter(weights: seq<real>, weight: real, before: seq<nat>, after: seq<nat>, n: nat, ref: nat, left: nat,
                    right: nat)
    requires n <= ref < |weights| && 2 * (ref - n) + 1 < |before| && left < ref && right < ref
    requires Ordered(before, n, ref) && LeftLighter(weights, before, n, ref) && weights[left] <= weights[right]
    requires after == before[2 * (ref - n) := left][2 * (ref - n) + 1 := right]
    ensures Ordered(after, n, ref + 1) && LeftLighter(weights[ref := weight], after, n, ref + 1)
  {
    NewNode(before, after, n, ref, left, right);
    assert LeftOf(after, n, ref) == left && RightOf(after, n, ref) == right;
    forall r: nat | n <= r < ref
      ensures LeftOf(after, n, r) == LeftOf(before, n, r) && RightOf(after, n, r) == RightOf(before, n, r)
    {}
  }

  lemma SymbolsWeighed(weights: seq<real>, nodes: seq<nat>, n: nat)
    requires n <= |weights| && Ordered(nodes, n, n)
    ensures Weighed(weights, nodes, n, n, weights[..n])
  {
  }

  lemma NodeWeighed(weights: seq<real>, before: seq<nat>, after: seq<nat>, n: nat, ref: nat, left: nat, right: nat,
                    symbols: seq<real>)
    requires n <= ref < |weights| && 2 * (ref - n) + 1 < |before| && left < ref && right < ref
    requires Ordered(before, n, ref) && Weighed(weights, before, n, ref, symbols)
    requires after == before[2 * (ref - n) := left][2 * (ref - n) + 1 := right]
    ensures Ordered(after, n, ref + 1)
    ensures Weighed(weights[ref := weights[left] + weights[right]], after, n, ref + 1, symbols)
  {
    hide TreeOf, WeightOf, Ordered, LeftOf, RightOf;
    NewNode(before, after, n, ref, left, right);
    var weights' := weights[ref := weights[left] + weights[right]];
    forall r: nat | r < ref
      ensures weights'[r] == WeightBelow(after, n, ref + 1, r, symbols)
    {
      OrderedPrefix(before, n, ref, r + 1);
      TreeFrame(before, after, n, r);
      assert weights'[r] == weights[r] == WeightBelow(before, n, ref, r, symbols);
    }
    NewTree(before, after, n, ref, left, right);
    ForkWeighs(TreeOf(after, n, left), TreeOf(after, n, right), symbols);
    assert weights[left] == weights'[left] && weights[right] == weights'[right];
  }

  lemma NewTree(before: seq<nat>, after: seq<nat>, n: nat, ref: nat, left: nat, right: nat)
    requires n <= ref && 2 * (ref - n) + 1 < |before| && Ordered(before, n, ref) && left < ref && right < ref
    requires after == before[2 * (ref - n) := left][2 * (ref - n) + 1 := right]
    ensures Ordered(after, n, ref + 1) && Ordered(after, n, left + 1) && Ordered(after, n, right + 1)
    ensures TreeOf(after, n, ref) == Fork(TreeOf(after, n, left), TreeOf(after, n, right))
  {
    NewNode(before, after, n, ref, left, right);
    assert LeftOf(after, n, ref) == left && RightOf(after, n, ref) == right;
  }

  lemma ForkWeighs(l: Tree, r: Tree, symbols: seq<real>)
    ensures WeightOf(Fork(l, r), symbols) == WeightOf(l, symbols) + WeightOf(r, symbols)
    ensures TreeCost(Fork(l, r), symbols) ==
            TreeCost(l, symbols) + TreeCost(r, symbols) + WeightOf(l, symbols) + WeightOf(r, symbols)
  {
  }

  // ----- What the trees of the queue cost

  ghost function QueueCost(q: seq<Entry>, nodes: seq<nat>, n: nat, bound: nat, symbols: seq<real>): real
    requires Ordered(nodes, n, bound) && Below(q, bound)
  {
    if q == [] then 0.0
    else
      OrderedPrefix(nodes, n, bound, q[0].ref + 1);
      TreeCost(TreeOf(nodes, n, q[0].ref), symbols) + QueueCost(q[1..], nodes, n, bound, symbols)
  }

  lemma {:induction false} InsertedCost(q: seq<Entry>, e: Entry, nodes: seq<nat>, n: nat, bound: nat,
                                        symbols: seq<real>)
    requires Ordered(nodes, n, bound) && Below(q, bound) && e.ref < bound
    ensures Ordered(nodes, n, e.ref + 1) && Below(Insert(q, e), bound)
    ensures QueueCost(Insert(q, e), nodes, n, bound, symbols)
            == QueueCost(q, nodes, n, bound, symbols) + TreeCost(TreeOf(nodes, n, e.ref), symbols)
  {
    hide TreeOf, TreeCost, Ordered;
    OrderedPrefix(nodes, n, bound, e.ref + 1);
    var r := Insert(q, e);
    if q == [] || e.weight < q[0].weight {
      assert r[1..] == q;
    } else {
      InsertedCost(q[1..], e, nodes, n, bound, symbols);
      assert r[0] == q[0] && r[1..] == Insert(q[1..], e);
    }
  }

  lemma {:induction false} CostFrame(q: seq<Entry>, nodes: seq<nat>, nodes': seq<nat>, n: nat, bound: nat, bound': nat,
                                     symbols: seq<real>)
    requires Ordered(nodes, n, bound) && Ordered(nodes', n, bound') && bound <= bound' && |nodes| == |nodes'|
    requires Below(q, bound)
    requires forall k :: 0 <= k < |nodes| && k < 2 * (bound - n) ==> nodes[k] == nodes'[k]
    ensures QueueCost(q, nodes', n, bound', symbols) == QueueCost(q, nodes, n, bound, symbols)
  {
    hide TreeOf, TreeCost, Ordered;
    if q != [] {
      OrderedPrefix(nodes, n, bound, q[0].ref + 1);
      TreeFrame(nodes, nodes', n, q[0].ref);
      CostFrame(q[1..], nodes, nodes', n, bound, bound', symbols);
    }
  }

  lemma FirstTwoCost(q: seq<Entry>, nodes: seq<nat>, n: nat, bound: nat, symbols: seq<real>)
    requires |q| >= 2 && Ordered(nodes, n, bound) && Below(q, bound)
    ensures Below(q[1..][1..], bound) && Ordered(nodes, n, q[0].ref + 1) && Ordered(nodes, n, q[1].ref + 1)
    ensures QueueCost(q, nodes, n, bound, symbols) ==
            TreeCost(TreeOf(nodes, n, q[0].ref), symbols) + TreeCost(TreeOf(nodes, n, q[1].ref), symbols)
              + QueueCost(q[1..][1..], nodes, n, bound, symbols)
  {
    hide TreeOf, TreeCost, Ordered;
    OrderedPrefix(nodes, n, bound, q[0].ref + 1);
    OrderedPrefix(nodes, n, bound, q[1].ref + 1);
    var tail := q[1..];
    assert tail[0] == q[1];
    assert forall e :: e in tail ==> e in q;
  }

  /** Joining the first two trees of the queue costs what they weigh together. */
  lemma JoinCosts(q: seq<Entry>, before: seq<nat>, after: seq<nat>, n: nat, ref: nat, e: Entry, symbols: seq<real>)
    requires |q| >= 2 && n <= ref && 2 * (ref - n) + 1 < |before| && Ordered(before, n, ref) && Below(q, ref)
    requires after == before[2 * (ref - n) := q[0].ref][2 * (ref - n) + 1 := q[1].ref]
    requires e.ref == ref && e.weight == WeightBelow(before, n, ref, q[0].ref, symbols)
                                         + WeightBelow(before, n, ref, q[1].ref, symbols)
    ensures Ordered(after, n, ref + 1) && Below(Insert(q[1..][1..], e), ref + 1)
    ensures QueueCost(Insert(q[1..][1..], e), after, n, ref + 1, symbols)
            == QueueCost(q, before, n, ref, symbols) + e.weight
  {
    hide TreeOf, TreeCost, WeightOf, QueueCost, Insert, Ordered, LeftOf, RightOf;
    var rest := q[1..][1..];
    FirstTwoCost(q, before, n, ref, symbols);
    NewTree(before, after, n, ref, q[0].ref, q[1].ref);
    TreeFrame(before, after, n, q[0].ref);
    TreeFrame(before, after, n, q[1].ref);
    CostFrame(rest, before, after, n, ref, ref + 1, symbols);
    InsertedCost(rest, e, after, n, ref + 1, symbols);
    ForkWeighs(TreeOf(after, n, q[0].ref), TreeOf(after, n, q[1].ref), symbols);
  }

  // ----- The generator

  /** What the queue and the arrays are before each round: nothing that has been joined can be bettered. */
  ghost predicate Generating(q: seq<Entry>, weights: seq<real>, nodes: seq<nat>, n: nat, ref: nat, symbols: seq<real>) {
    && |symbols| == n <= ref && |q| == 2 * n - ref && Sorted(q) && Below(q, ref)
    && (ref > n ==> exists e :: e in q && e.ref == ref - 1)
    && Ordered(nodes, n, ref) && QueueLeaves(q, nodes, n, ref) == AllSymbols(n)
    && Weighed(weights, nodes, n, ref, symbols) && LeftLighter(weights, nodes, n, ref) && Matches(q, weights)
    && Bound(StartQueue(symbols, n), q, QueueCost(q, nodes, n, ref, symbols))
  }

  /** generate: joins the two lightest trees until one is left. */
  method Generate(weights: array<real>, nodes: array<nat>, n: nat)
    requires n >= 1 && weights.Length == 2 * n - 1 && nodes.Length == 2 * (n - 1)
    modifies weights, nodes
    ensures Ordered(nodes[..], n, 2 * n - 1) && Leaves(TreeOf(nodes[..], n, 2 * n - 2)) == AllSymbols(n)
    ensures Weighed(weights[..], nodes[..], n, 2 * n - 1, old(weights[..n]))
    ensures LeftLighter(weights[..], nodes[..], n, 2 * n - 1)
    ensures Optimal(TreeOf(nodes[..], n, 2 * n - 2), old(weights[..n]))
  {
    hide Generating, Insert, Optimal, Weighed, LeftLighter, Ordered, TreeOf, Leaves;
    ghost var symbols := weights[..n];
    var q := FillQueue(weights, nodes[..], n);
    var ref := n;
    while ref < 2 * n - 1
      invariant n <= ref <= 2 * n - 1 && Generating(q, weights[..], nodes[..], n, ref, symbols)
    {
      ghost var q0, weights0, before := q, weights[..], nodes[..];
      GeneratingMeans(q, weights[..], nodes[..], n, ref, symbols);
      var left, right := q[0].ref, q[1].ref;
      q := q[1..][1..];
      var weight := weights[left] + weights[right];
      weights[ref] := weight;
      nodes[2 * (ref - n)] := left;
      nodes[2 * (ref - n) + 1] := right;
      Round(q0, weights0, before, n, ref, symbols);
      q := Insert(q, Entry(weight, ref));
      ref := ref + 1;
    }
    Finished(q, weights[..], nodes[..], n, symbols);
  }

  lemma GeneratingMeans(q: seq<Entry>, weights: seq<real>, nodes: seq<nat>, n: nat, ref: nat, symbols: seq<real>)
    requires Generating(q, weights, nodes, n, ref, symbols) && ref < 2 * n - 1
    ensures |q| >= 2 && q[0].ref < ref && q[1].ref < ref
  {
    assert q[0] in q && q[1] in q;
  }

  /** One round of the generator. */
  lemma Round(q: seq<Entry>, weights: seq<real>, nodes: seq<nat>, n: nat, ref: nat, symbols: seq<real>)
    requires Generating(q, weights, nodes, n, ref, symbols) && ref < 2 * n - 1
    requires |weights| == 2 * n - 1 && |nodes| == 2 * (n - 1)
    requires |q| >= 2 && q[0].ref < ref && q[1].ref < ref
    ensures var weight := weights[q[0].ref] + weights[q[1].ref];
            Generating(Insert(q[1..][1..], Entry(weight, ref)), weights[ref := weight],
                       nodes[2 * (ref - n) := q[0].ref][2 * (ref - n) + 1 := q[1].ref], n, ref + 1, symbols)
  {
    hide Insert, Ordered, LeftLighter, QueueLeaves, QueueCost, Bound, Sorted, StartQueue, AllSymbols, TreeOf, WeightOf;
    var left, right := q[0].ref, q[1].ref;
    var weight := weights[left] + weights[right];
    var e := Entry(weight, ref);
    var after := nodes[2 * (ref - n) := left][2 * (ref - n) + 1 := right];
    assert q[0] in q && q[1] in q;
    FirstIsLighter(q);
    NodeLighter(weights, weight, nodes, after, n, ref, left, right);
    JoinTwo(q, nodes, after, n, ref, weight);
    NodeWeighed(weights, nodes, after, n, ref, left, right, symbols);
    JoinCosts(q, nodes, after, n, ref, e, symbols);
    BoundMerges(StartQueue(symbols, n), q, QueueCost(q, nodes, n, ref, symbols), e);
    StillMatches(q, weights, e);
  }

  lemma FirstIsLighter(q: seq<Entry>)
    requires Sorted(q) && |q| >= 2
    ensures q[0].weight <= q[1].weight
  {
  }

  lemma StillMatches(q: seq<Entry>, weights: seq<real>, e: Entry)
    requires |q| >= 2 && Sorted(q) && Matches(q, weights) && Below(q, e.ref) && e.ref < |weights|
    ensures Matches(Insert(q[1..][1..], e), weights[e.ref := e.weight])
    ensures |Insert(q[1..][1..], e)| == |q| - 1
  {
    hide Insert;
    var rest := q[1..][1..];
    SortedTail(q);
    SortedTail(q[1..]);
    InsertKeepsSorted(rest, e);
    forall x | x in Insert(rest, e)
      ensures x.ref < |weights| && x.weight == weights[e.ref := e.weight][x.ref]
    {
      assert x in multiset(Insert(rest, e));
      assert x == e || x in rest;
      assert x != e ==> x in q;
    }
  }

  /** When one tree is left, it is best. */
  lemma Finished(q: seq<Entry>, weights: seq<real>, nodes: seq<nat>, n: nat, symbols: seq<real>)
    requires n >= 1 && Generating(q, weights, nodes, n, 2 * n - 1, symbols)
    ensures Ordered(nodes, n, 2 * n - 1) && Leaves(TreeOf(nodes, n, 2 * n - 2)) == AllSymbols(n)
    ensures Weighed(weights, nodes, n, 2 * n - 1, symbols) && LeftLighter(weights, nodes, n, 2 * n - 1)
    ensures Optimal(TreeOf(nodes, n, 2 * n - 2), symbols)
  {
    hide Leaves, TreeOf, AllSymbols, QueueLeaves, QueueCost, Bound, Sorted, StartQueue, TreeCost, CodeCost, Ordered;
    OnlyRoot(q, nodes, n);
    OnlyRootCosts(q, nodes, n, symbols);
    var root := TreeOf(nodes, n, 2 * n - 2);
    CodeCostIsTreeCost(root, symbols);
    forall o: Tree | Leaves(o) == AllSymbols(n) ensures CodeCost(root, symbols) <= CodeCost(o, symbols) {
      var ls := TreeGivesLengths(o, symbols);
      BoundEnds(StartQueue(symbols, n), q, QueueCost(q, nodes, n, 2 * n - 1, symbols), ls);
    }
  }

  lemma OnlyRootCosts(q: seq<Entry>, nodes: seq<nat>, n: nat, symbols: seq<real>)
    requires n >= 1 && |q| == 1 && Ordered(nodes, n, 2 * n - 1) && Below(q, 2 * n - 1)
    requires 2 * n - 1 > n ==> exists e :: e in q && e.ref == 2 * n - 2
    ensures QueueCost(q, nodes, n, 2 * n - 1, symbols) == TreeCost(TreeOf(nodes, n, 2 * n - 2), symbols)
  {
    hide TreeOf, TreeCost, Ordered;
    assert q[0].ref == 2 * n - 2;
    assert q[1..] == [];
    assert QueueCost(q[1..], nodes, n, 2 * n - 1, symbols) == 0.0;
  }

  /** The queue starts with the symbols. */
  method FillQueue(weights: array<real>, ghost nodes: seq<nat>, n: nat) returns (q: seq<Entry>)
    requires n <= weights.Length
    ensures Generating(q, weights[..], nodes, n, n, weights[..n])
  {
    hide Ordered, Sorted, Insert, QueueLeaves, StartQueue, Generating, AllSymbols, Queued;
    ghost var symbols := weights[..n];
    q := [];
    var ref: nat := 0;
    NothingFilled(symbols, nodes, n);
    while ref < n
      invariant 0 <= ref <= n && Queued(q, symbols, nodes, n, ref)
    {
      FillOne(q, symbols, nodes, n, ref);
      q := Insert(q, Entry(weights[ref], ref));
      ref := ref + 1;
    }
    AllFilled(q, weights[..], nodes, n);
  }

  /** The queue with the symbols below ref. */
  ghost predicate Queued(q: seq<Entry>, symbols: seq<real>, nodes: seq<nat>, n: nat, ref: nat) {
    && n == |symbols| && ref <= n && q == StartQueue(symbols, ref) && Sorted(q) && Below(q, n) && Matches(q, symbols)
    && Ordered(nodes, n, n) && QueueLeaves(q, nodes, n, n) == AllSymbols(ref)
    && QueueCost(q, nodes, n, n, symbols) == 0.0
  }

  lemma NothingFilled(symbols: seq<real>, nodes: seq<nat>, n: nat)
    requires n == |symbols|
    ensures Queued([], symbols, nodes, n, 0)
  {
    NoEntries();
    NoInnerNodes(nodes, n);
  }

  lemma FillOne(q: seq<Entry>, symbols: seq<real>, nodes: seq<nat>, n: nat, ref: nat)
    requires Queued(q, symbols, nodes, n, ref) && ref < n
    ensures Queued(Insert(q, Entry(symbols[ref], ref)), symbols, nodes, n, ref + 1)
  {
    hide Ordered, Sorted, Insert, QueueLeaves, QueueCost, TreeOf, Leaves, TreeCost;
    var e := Entry(symbols[ref], ref);
    InsertKeepsSorted(q, e);
    InsertedLeaves(q, e, nodes, n, n);
    InsertedCost(q, e, nodes, n, n, symbols);
    SymbolLeaf(nodes, n, ref);
    SymbolCosts(nodes, n, ref, symbols);
    InsertedMatches(q, symbols, e);
  }

  lemma InsertedMatches(q: seq<Entry>, symbols: seq<real>, e: Entry)
    requires Matches(q, symbols) && e.ref < |symbols| && symbols[e.ref] == e.weight && Sorted(q)
    ensures Matches(Insert(q, e), symbols)
  {
    hide Insert;
    InsertKeepsSorted(q, e);
    forall x | x in Insert(q, e) ensures x.ref < |symbols| && x.weight == symbols[x.ref] {
      assert x in multiset(Insert(q, e));
    }
  }

  lemma SymbolCosts(nodes: seq<nat>, n: nat, s: nat, symbols: seq<real>)
    requires s < n && Ordered(nodes, n, s + 1)
    ensures TreeCost(TreeOf(nodes, n, s), symbols) == 0.0
  {
  }

  lemma NoneHeavier(weights: seq<real>, nodes: seq<nat>, n: nat)
    requires n <= |weights| && Ordered(nodes, n, n)
    ensures LeftLighter(weights, nodes, n, n)
  {
  }

  lemma AllFilled(q: seq<Entry>, weights: seq<real>, nodes: seq<nat>, n: nat)
    requires n <= |weights| && Queued(q, weights[..n], nodes, n, n)
    ensures Generating(q, weights, nodes, n, n, weights[..n])
  {
    hide Sorted, Insert, QueueLeaves, QueueCost, Ordered, StartQueue, Bound, Weighed;
    NoneHeavier(weights, nodes, n);
    BoundStarts(q);
    SymbolsWeighed(weights, nodes, n);
  }
}
