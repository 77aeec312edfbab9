/** Huffman trees as node references, as values, and as codes: huffman.h of external/pdlfs-common's ectrie.
    References below the number of symbols are symbols, the others number the inner nodes. */
module HuffmanTrees {
  import opened ByteBits

  datatype Tree = Symbol(s: nat) | Fork(left: Tree, right: Tree)

  function Leaves(t: Tree): multiset<nat> {
    match t
    case Symbol(s) => multiset{s}
    case Fork(l, r) => Leaves(l) + Leaves(r)
  }

  function AllSymbols(n: nat): multiset<nat> {
    if n == 0 then multiset{} else AllSymbols(n - 1) + multiset{n - 1}
  }

  lemma {:induction false} EachSymbolOnce(n: nat, s: nat)
    ensures AllSymbols(n)[s] == if s < n then 1 else 0
  {
    if n > 0 { EachSymbolOnce(n - 1, s); }
  }

  lemma {:induction false} SymbolCount(n: nat)
    ensures |AllSymbols(n)| == n
  {
    if n > 0 { SymbolCount(n - 1); }
  }

  lemma {:induction false} LeavesPositive(t: Tree)
    ensures |Leaves(t)| >= 1
  {
    match t
    case Symbol(s) =>
    case Fork(l, r) => LeavesPositive(l); LeavesPositive(r);
  }

  // ----- References

  function LeftOf(nodes: seq<nat>, n: nat, ref: nat): nat
    requires n <= ref && 2 * (ref - n) + 1 < |nodes|
  {
    nodes[2 * (ref - n)]
  }

  function RightOf(nodes: seq<nat>, n: nat, ref: nat): nat
    requires n <= ref && 2 * (ref - n) + 1 < |nodes|
  {
    nodes[2 * (ref - n) + 1]
  }

  /** Inner nodes below bound have both children, and these come before them. */
  ghost predicate Ordered(nodes: seq<nat>, n: nat, bound: nat) {
    && (bound > n ==> 2 * (bound - n) <= |nodes|)
    && forall ref: nat {:trigger LeftOf(nodes, n, ref)} {:trigger RightOf(nodes, n, ref)} ::
         n <= ref < bound ==> LeftOf(nodes, n, ref) < ref && RightOf(nodes, n, ref) < ref
  }

  ghost function TreeOf(nodes: seq<nat>, n: nat, ref: nat): Tree
    requires Ordered(nodes, n, ref + 1)
    decreases ref
  {
    if ref < n then Symbol(ref)
    else
      OrderedPrefix(nodes, n, ref + 1, LeftOf(nodes, n, ref) + 1);
      OrderedPrefix(nodes, n, ref + 1, RightOf(nodes, n, ref) + 1);
      Fork(TreeOf(nodes, n, LeftOf(nodes, n, ref)), TreeOf(nodes, n, RightOf(nodes, n, ref)))
  }

  lemma OrderedPrefix(nodes: seq<nat>, n: nat, bound: nat, less: nat)
    requires Ordered(nodes, n, bound) && less <= bound
    ensures Ordered(nodes, n, less)
  {
  }

  /** The tree of a reference depends only on the nodes up to it. */
  lemma {:induction false} TreeFrame(nodes: seq<nat>, nodes': seq<nat>, n: nat, ref: nat)
    requires Ordered(nodes, n, ref + 1) && |nodes| == |nodes'|
    requires forall k :: 0 <= k < |nodes| && k < 2 * (ref + 1 - n) ==> nodes[k] == nodes'[k]
    ensures Ordered(nodes', n, ref + 1) && TreeOf(nodes', n, ref) == TreeOf(nodes, n, ref)
    decreases ref
  {
    forall r: nat | n <= r < ref + 1
      ensures LeftOf(nodes', n, r) == LeftOf(nodes, n, r) && RightOf(nodes', n, r) == RightOf(nodes, n, r)
    {}
    if ref >= n {
      var l, r := LeftOf(nodes, n, ref), RightOf(nodes, n, ref);
      OrderedPrefix(nodes, n, ref + 1, l + 1);
      OrderedPrefix(nodes, n, ref + 1, r + 1);
      TreeFrame(nodes, nodes', n, l);
      TreeFrame(nodes, nodes', n, r);
    }
  }

  // ----- The generator's queue: a multimap from weights to references

  datatype Entry = Entry(weight: real, ref: nat)

  /** An entry goes behind those of the same weight. */
  function Insert(q: seq<Entry>, e: Entry): (r: seq<Entry>)
    ensures |r| == |q| + 1
  {
    if q == [] || e.weight < q[0].weight then [e] + q else [q[0]] + Insert(q[1..], e)
  }

  ghost predicate Sorted(q: seq<Entry>) {
    forall i, j :: 0 <= i < j < |q| ==> q[i].weight <= q[j].weight
  }

  lemma {:induction false} InsertKeepsSorted(q: seq<Entry>, e: Entry)
    requires Sorted(q)
    ensures Sorted(Insert(q, e)) && multiset(Insert(q, e)) == multiset(q) + multiset{e}
  {
    hide Insert, Sorted;
    InsertStep(q, e);
    if q == [] {
      Prepended(e, q);
    } else if e.weight < q[0].weight {
      SortedTail(q);
      Prepended(e, q);
    } else {
      SortedTail(q);
      InsertKeepsSorted(q[1..], e);
      assert q == [q[0]] + q[1..];
      NotBelow(q, e, Insert(q[1..], e));
      Prepended(q[0], Insert(q[1..], e));
    }
  }

  lemma SortedTail(q: seq<Entry>)
    requires Sorted(q) && q != []
    ensures Sorted(q[1..]) && forall i :: 0 <= i < |q| ==> q[0].weight <= q[i].weight
  {
  }

  /** The first of a queue is not above what the rest and the new entry make. */
  lemma NotBelow(q: seq<Entry>, e: Entry, r: seq<Entry>)
    requires q != [] && q[0].weight <= e.weight && multiset(r) == multiset(q[1..]) + multiset{e}
    requires forall i :: 0 <= i < |q| ==> q[0].weight <= q[i].weight
    ensures forall i :: 0 <= i < |r| ==> q[0].weight <= r[i].weight
  {
    forall i | 0 <= i < |r| ensures q[0].weight <= r[i].weight {
      assert r[i] in multiset(r);
      assert r[i] in q[1..] || r[i] == e;
    }
  }

  lemma InsertStep(q: seq<Entry>, e: Entry)
    ensures Insert(q, e) == if q == [] || e.weight < q[0].weight then [e] + q else [q[0]] + Insert(q[1..], e)
  {
  }

  lemma Prepended(e: Entry, q: seq<Entry>)
    requires Sorted(q) && forall i :: 0 <= i < |q| ==> e.weight <= q[i].weight
    ensures Sorted([e] + q)
  {
  }

  /** The symbols below the references in the queue. */
  ghost function QueueLeaves(q: seq<Entry>, nodes: seq<nat>, n: nat, bound: nat): multiset<nat>
    requires Ordered(nodes, n, bound) && forall e :: e in q ==> e.ref < bound
  {
    if q == [] then multiset{}
    else
      OrderedPrefix(nodes, n, bound, q[0].ref + 1);
      Leaves(TreeOf(nodes, n, q[0].ref)) + QueueLeaves(q[1..], nodes, n, bound)
  }

  lemma {:induction false} InsertedLeaves(q: seq<Entry>, e: Entry, nodes: seq<nat>, n: nat, bound: nat)
    requires Ordered(nodes, n, bound) && (forall x :: x in q ==> x.ref < bound) && e.ref < bound
    ensures Ordered(nodes, n, e.ref + 1) && forall x :: x in Insert(q, e) ==> x.ref < bound
    ensures QueueLeaves(Insert(q, e), nodes, n, bound)
            == QueueLeaves(q, nodes, n, bound) + Leaves(TreeOf(nodes, n, e.ref))
  {
    hide TreeOf, Leaves, Ordered;
    OrderedPrefix(nodes, n, bound, e.ref + 1);
    var r := Insert(q, e);
    if q == [] || e.weight < q[0].weight {
      assert r[1..] == q;
    } else {
      InsertedLeaves(q[1..], e, nodes, n, bound);
      assert r[0] == q[0] && r[1..] == Insert(q[1..], e);
    }
  }

  lemma {:induction false} QueueFrame(q: seq<Entry>, nodes: seq<nat>, nodes': seq<nat>, n: nat, bound: nat, bound': nat)
    requires Ordered(nodes, n, bound) && Ordered(nodes', n, bound') && bound <= bound' && |nodes| == |nodes'|
    requires forall e :: e in q ==> e.ref < bound
    requires forall k :: 0 <= k < |nodes| && k < 2 * (bound - n) ==> nodes[k] == nodes'[k]
    ensures QueueLeaves(q, nodes', n, bound') == QueueLeaves(q, nodes, n, bound)
  {
    if q != [] {
      OrderedPrefix(nodes, n, bound, q[0].ref + 1);
      TreeFrame(nodes, nodes', n, q[0].ref);
      QueueFrame(q[1..], nodes, nodes', n, bound, bound');
    }
  }

  ghost predicate Below(q: seq<Entry>, bound: nat) {
    forall e :: e in q ==> e.ref < bound
  }

  lemma NoEntries()
    ensures Sorted([])
  {
  }

  lemma NoInnerNodes(nodes: seq<nat>, n: nat)
    ensures Ordered(nodes, n, n) && QueueLeaves([], nodes, n, n) == AllSymbols(0)
  {
  }

  lemma SymbolLeaf(nodes: seq<nat>, n: nat, s: nat)
    requires s < n && Ordered(nodes, n, s + 1)
    ensures Leaves(TreeOf(nodes, n, s)) == multiset{s}
  {
  }

  lemma FirstTwo(q: seq<Entry>, nodes: seq<nat>, n: nat, bound: nat)
    requires |q| >= 2 && Ordered(nodes, n, bound) && Below(q, bound)
    ensures Below(q[1..][1..], bound) && q[0].ref < bound && q[1].ref < bound
    ensures Ordered(nodes, n, q[0].ref + 1) && Ordered(nodes, n, q[1].ref + 1)
    ensures QueueLeaves(q, nodes, n, bound) ==
            Leaves(TreeOf(nodes, n, q[0].ref)) + Leaves(TreeOf(nodes, n, q[1].ref))
              + QueueLeaves(q[1..][1..], nodes, n, bound)
  {
    hide TreeOf, Leaves, Ordered;
    OrderedPrefix(nodes, n, bound, q[0].ref + 1);
    OrderedPrefix(nodes, n, bound, q[1].ref + 1);
    var tail := q[1..];
    assert tail[0] == q[1];
    assert forall e :: e in tail ==> e in q;
  }

  /** Joining the first two references of the queue under a new node keeps the leaves. */
  lemma JoinTwo(q: seq<Entry>, before: seq<nat>, after: seq<nat>, n: nat, ref: nat, weight: real)
    requires |q| >= 2 && n <= ref && 2 * (ref - n) + 1 < |before| && Ordered(before, n, ref)
    requires Sorted(q) && Below(q, ref)
    requires after == before[2 * (ref - n) := q[0].ref][2 * (ref - n) + 1 := q[1].ref]
    ensures var next := Insert(q[1..][1..], Entry(weight, ref));
            && Ordered(after, n, ref + 1) && Sorted(next) && Below(next, ref + 1) && Entry(weight, ref) in next
            && QueueLeaves(next, after, n, ref + 1) == QueueLeaves(q, before, n, ref)
  {
    hide TreeOf, Leaves, QueueLeaves, Insert, LeftOf, RightOf;
    var rest := q[1..][1..];
    FirstTwo(q, before, n, ref);
    NewNode(before, after, n, ref, q[0].ref, q[1].ref);
    TreeFrame(before, after, n, q[0].ref);
    TreeFrame(before, after, n, q[1].ref);
    QueueFrame(rest, before, after, n, ref, ref + 1);
    InsertKeepsSorted(rest, Entry(weight, ref));
    InsertedLeaves(rest, Entry(weight, ref), after, n, ref + 1);
    assert Entry(weight, ref) in multiset(Insert(rest, Entry(weight, ref)));
  }

  lemma NewNode(before: seq<nat>, after: seq<nat>, n: nat, ref: nat, left: nat, right: nat)
    requires n <= ref && 2 * (ref - n) + 1 < |before| && Ordered(before, n, ref) && left < ref && right < ref
    requires after == before[2 * (ref - n) := left][2 * (ref - n) + 1 := right]
    ensures Ordered(after, n, ref + 1) && Ordered(after, n, left + 1) && Ordered(after, n, right + 1)
    ensures Leaves(TreeOf(after, n, ref)) == Leaves(TreeOf(after, n, left)) + Leaves(TreeOf(after, n, right))
  {
    assert LeftOf(after, n, ref) == left && RightOf(after, n, ref) == right;
    forall r: nat | n <= r < ref + 1 ensures LeftOf(after, n, r) < r && RightOf(after, n, r) < r {
      assert r < ref ==> LeftOf(after, n, r) == LeftOf(before, n, r) && RightOf(after, n, r) == RightOf(before, n, r);
    }
  }

  lemma OnlyRoot(q: seq<Entry>, nodes: seq<nat>, n: nat)
    requires n >= 1 && |q| == 1 && Ordered(nodes, n, 2 * n - 1) && (forall e :: e in q ==> e.ref < 2 * n - 1)
    requires 2 * n - 1 > n ==> exists e :: e in q && e.ref == 2 * n - 2
    ensures Leaves(TreeOf(nodes, n, 2 * n - 2)) == QueueLeaves(q, nodes, n, 2 * n - 1)
  {
    assert q[0].ref == 2 * n - 2;
    assert q[1..] == [];
    assert QueueLeaves(q[1..], nodes, n, 2 * n - 1) == multiset{};
  }

  // ----- Codes

  /** The path to a symbol: false for left, true for right. */
  function CodeIn(t: Tree, s: nat): seq<bool>
    requires s in Leaves(t)
  {
    match t
    case Symbol(_) => []
    case Fork(l, r) => if s in Leaves(l) then [false] + CodeIn(l, s) else [true] + CodeIn(r, s)
  }

  datatype Walked = Arrived(symbol: nat, used: nat) | RanOut

  /** Follows the bits down from the root. */
  function Walk(t: Tree, bits: seq<bool>): Walked {
    match t
    case Symbol(s) => Arrived(s, 0)
    case Fork(l, r) =>
      if bits == [] then RanOut
      else
        match Walk(if bits[0] then r else l, bits[1..])
        case RanOut => RanOut
        case Arrived(s, used) => Arrived(s, used + 1)
  }

  /** Codes are self-delimiting: walking a code, whatever follows it, ends at its symbol and at its end. */
  lemma {:induction false} WalkCode(t: Tree, s: nat, rest: seq<bool>)
    requires s in Leaves(t)
    ensures Walk(t, CodeIn(t, s) + rest) == Arrived(s, |CodeIn(t, s)|)
  {
    hide Leaves, CodeIn, Walk;
    if t.Symbol? {
      WalkSymbol(t, s, rest);
    } else {
      WalkFork(t, s, rest);
      WalkCode(if s in Leaves(t.left) then t.left else t.right, s, rest);
    }
  }

  lemma WalkSymbol(t: Tree, s: nat, rest: seq<bool>)
    requires s in Leaves(t) && t.Symbol?
    ensures CodeIn(t, s) == [] && Walk(t, CodeIn(t, s) + rest) == Arrived(s, 0)
  {
  }

  lemma WalkFork(t: Tree, s: nat, rest: seq<bool>)
    requires s in Leaves(t) && t.Fork?
    ensures var sub := if s in Leaves(t.left) then t.left else t.right;
            && s in Leaves(sub) && |CodeIn(t, s)| == |CodeIn(sub, s)| + 1
            && Walk(t, CodeIn(t, s) + rest) ==
               match Walk(sub, CodeIn(sub, s) + rest)
               { case RanOut => RanOut case Arrived(x, used) => Arrived(x, used + 1) }
  {
    hide Walk, Leaves, CodeIn;
    FirstTurn(t, s);
    var sub := if s in Leaves(t.left) then t.left else t.right;
    var c := CodeIn(t, s) + rest;
    assert c[1..] == CodeIn(sub, s) + rest;
    WalkOnce(t, c);
  }

  lemma FirstTurn(t: Tree, s: nat)
    requires s in Leaves(t) && t.Fork?
    ensures s !in Leaves(t.left) ==> s in Leaves(t.right)
    ensures s in Leaves(t.left) ==> CodeIn(t, s) == [false] + CodeIn(t.left, s)
    ensures s !in Leaves(t.left) ==> CodeIn(t, s) == [true] + CodeIn(t.right, s)
  {
  }

  lemma WalkOnce(t: Tree, bits: seq<bool>)
    requires t.Fork? && bits != []
    ensures Walk(t, bits) ==
            match Walk(if bits[0] then t.right else t.left, bits[1..])
            { case RanOut => RanOut case Arrived(x, used) => Arrived(x, used + 1) }
  {
  }

  function Height(t: Tree): nat {
    match t
    case Symbol(_) => 0
    case Fork(l, r) => 1 + if Height(l) > Height(r) then Height(l) else Height(r)
  }

  /** No code is longer than the tree is high, and the tree has more leaves than that. */
  lemma {:induction false} CodeLength(t: Tree, s: nat)
    requires s in Leaves(t)
    ensures |CodeIn(t, s)| <= Height(t) < |Leaves(t)|
  {
    HeightBelowLeaves(t);
    match t
    case Symbol(_) =>
    case Fork(l, r) => if s in Leaves(l) { CodeLength(l, s); } else { CodeLength(r, s); }
  }

  lemma {:induction false} HeightBelowLeaves(t: Tree)
    ensures Height(t) < |Leaves(t)|
  {
    match t
    case Symbol(_) =>
    case Fork(l, r) => HeightBelowLeaves(l); HeightBelowLeaves(r);
  }
}
