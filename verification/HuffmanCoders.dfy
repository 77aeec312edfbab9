/** The code table, the reverse table and the coder of huffman.h. */
module HuffmanCoders {
  import opened ByteBits
  import opened BitVectors
  import opened HuffmanTrees
  import opened HuffmanGenerator
  import opened Sequences

  const CODE_WIDTH: nat := 32  // bits of huffman_table::block_type

  /** The first |bits| bits of a run of code blocks. */
  ghost predicate HasCode(code: seq<Block>, length: nat, bits: seq<bool>) {
    && Blocks(code, CODE_WIDTH) && length == |bits| && length <= |code| * CODE_WIDTH
    && Window(code, CODE_WIDTH, 0, length) == bits
  }

  /** Every symbol of the tree has its code, behind the path to the tree. */
  ghost predicate AllCoded(t: Tree, path: seq<bool>, codes: seq<seq<Block>>, lengths: seq<nat>) {
    |codes| == |lengths|
    && forall s: nat :: s < |codes| && s in Leaves(t) ==> HasCode(codes[s], lengths[s], path + CodeIn(t, s))
  }

  /** The codes of the other symbols are as before. */
  ghost predicate OthersKept(t: Tree, codes0: seq<seq<Block>>, lengths0: seq<nat>, codes: seq<seq<Block>>,
                             lengths: seq<nat>) {
    |codes| == |codes0| == |lengths| == |lengths0|
    && forall s: nat :: s < |codes| && s !in Leaves(t) ==> codes[s] == codes0[s] && lengths[s] == lengths0[s]
  }

  lemma ForkCoded(l: Tree, r: Tree, path: seq<bool>, codes0: seq<seq<Block>>, lengths0: seq<nat>,
                  codes1: seq<seq<Block>>, lengths1: seq<nat>, codes: seq<seq<Block>>, lengths: seq<nat>)
    requires forall s :: Leaves(Fork(l, r))[s] <= 1
    requires AllCoded(l, path + [false], codes1, lengths1) && OthersKept(l, codes0, lengths0, codes1, lengths1)
    requires AllCoded(r, path + [true], codes, lengths) && OthersKept(r, codes1, lengths1, codes, lengths)
    ensures AllCoded(Fork(l, r), path, codes, lengths) && OthersKept(Fork(l, r), codes0, lengths0, codes, lengths)
  {
    hide Leaves, HasCode, CodeIn;
    ForkLeaves(l, r);
    forall s: nat | s < |codes| && s in Leaves(Fork(l, r))
      ensures HasCode(codes[s], lengths[s], path + CodeIn(Fork(l, r), s))
    {
      ForkCode(l, r, s, path);
    }
  }

  lemma SymbolCoded(p: nat, path: seq<bool>, codes0: seq<seq<Block>>, lengths0: seq<nat>, code: seq<Block>)
    requires p < |codes0| == |lengths0| && HasCode(code, |path|, path)
    ensures AllCoded(Symbol(p), path, codes0[p := code], lengths0[p := |path|])
    ensures OthersKept(Symbol(p), codes0, lengths0, codes0[p := code], lengths0[p := |path|])
  {
    hide HasCode;
    assert path + CodeIn(Symbol(p), p) == path;
  }

  /** huffman_table::generate below reference p, with the path to p in the prefix. */
  method GenerateCodes(nodes: seq<nat>, n: nat, p: nat, prefix: array<Block>, depth: nat,
                       codes: array<seq<Block>>, lengths: array<nat>)
    requires Ordered(nodes, n, p + 1) && prefix.Length * CODE_WIDTH >= n && Blocks(prefix[..], CODE_WIDTH)
    requires depth + |Leaves(TreeOf(nodes, n, p))| <= n
    requires codes.Length == lengths.Length == n && (forall s :: s in Leaves(TreeOf(nodes, n, p)) ==> s < n)
    requires forall s :: Leaves(TreeOf(nodes, n, p))[s] <= 1
    requires codes as object != prefix && lengths as object != prefix && codes as object != lengths
    modifies prefix, codes, lengths
    ensures Blocks(prefix[..], CODE_WIDTH)
    ensures depth <= prefix.Length * CODE_WIDTH
    ensures Window(prefix[..], CODE_WIDTH, 0, depth) == old(Window(prefix[..], CODE_WIDTH, 0, depth))
    ensures AllCoded(TreeOf(nodes, n, p), old(Window(prefix[..], CODE_WIDTH, 0, depth)), codes[..], lengths[..])
    ensures OthersKept(TreeOf(nodes, n, p), old(codes[..]), old(lengths[..]), codes[..], lengths[..])
    decreases p
  {
    hide Get, Window, Ordered, TreeOf, BlockCount, CodeIn, HasCode, AllCoded, OthersKept;
    ghost var t := TreeOf(nodes, n, p);
    ghost var path := Window(prefix[..], CODE_WIDTH, 0, depth);
    TreeShape(nodes, n, p);
    LeavesPositive(t);
    if p < n {
      codes[p] := prefix[..BlockCountAtMost(depth, prefix.Length)];
      lengths[p] := depth;
      StoredCode(prefix[..], codes[p], depth, path);
      SymbolCoded(p, path, old(codes[..]), old(lengths[..]), codes[p]);
    } else {
      var left, right := LeftOf(nodes, n, p), RightOf(nodes, n, p);
      ghost var l, r := TreeOf(nodes, n, left), TreeOf(nodes, n, right);
      LeavesPositive(l);
      LeavesPositive(r);
      ForkLeaves(l, r);
      SetBit(prefix, CODE_WIDTH, depth, false);
      Extended(old(prefix[..]), prefix[..], depth, false);
      GenerateCodes(nodes, n, left, prefix, depth + 1, codes, lengths);
      ghost var afterLeft, codes1, lengths1 := prefix[..], codes[..], lengths[..];
      Shortened(afterLeft, depth, path, false);
      SetBit(prefix, CODE_WIDTH, depth, true);
      Extended(afterLeft, prefix[..], depth, true);
      GenerateCodes(nodes, n, right, prefix, depth + 1, codes, lengths);
      Shortened(prefix[..], depth, path, true);
      ForkCoded(l, r, path, old(codes[..]), old(lengths[..]), codes1, lengths1, codes[..], lengths[..]);
    }
  }

  function BlockCountAtMost(depth: nat, most: nat): (c: nat)
    requires depth <= most * CODE_WIDTH
    ensures c <= most && depth <= c * CODE_WIDTH
  {
    BlocksHold(depth, CODE_WIDTH);
    BlockCount(depth, CODE_WIDTH)
  }

  lemma TreeShape(nodes: seq<nat>, n: nat, p: nat)
    requires Ordered(nodes, n, p + 1)
    ensures p < n ==> TreeOf(nodes, n, p) == Symbol(p)
    ensures p >= n ==>
              && 2 * (p - n) + 1 < |nodes|
              && LeftOf(nodes, n, p) < p && RightOf(nodes, n, p) < p
              && Ordered(nodes, n, LeftOf(nodes, n, p) + 1) && Ordered(nodes, n, RightOf(nodes, n, p) + 1)
              && TreeOf(nodes, n, p)
                == Fork(TreeOf(nodes, n, LeftOf(nodes, n, p)), TreeOf(nodes, n, RightOf(nodes, n, p)))
  {
    if p >= n {
      OrderedPrefix(nodes, n, p + 1, LeftOf(nodes, n, p) + 1);
      OrderedPrefix(nodes, n, p + 1, RightOf(nodes, n, p) + 1);
    }
  }

  lemma ForkLeaves(l: Tree, r: Tree)
    requires forall s :: Leaves(Fork(l, r))[s] <= 1
    ensures forall s :: Leaves(l)[s] <= 1 && Leaves(r)[s] <= 1 && !(s in Leaves(l) && s in Leaves(r))
    ensures |Leaves(Fork(l, r))| == |Leaves(l)| + |Leaves(r)|
    ensures forall s :: s in Leaves(Fork(l, r)) <==> s in Leaves(l) || s in Leaves(r)
  {
    forall s ensures Leaves(l)[s] <= 1 && Leaves(r)[s] <= 1 && !(s in Leaves(l) && s in Leaves(r)) {
      assert Leaves(Fork(l, r))[s] == Leaves(l)[s] + Leaves(r)[s];
    }
  }

  lemma ForkCode(l: Tree, r: Tree, s: nat, path: seq<bool>)
    requires s in Leaves(Fork(l, r))
    ensures s in Leaves(l) ==> path + CodeIn(Fork(l, r), s) == path + [false] + CodeIn(l, s)
    ensures s !in Leaves(l) ==> s in Leaves(r) && path + CodeIn(Fork(l, r), s) == path + [true] + CodeIn(r, s)
  {
    hide Leaves, CodeIn;
    CodeBelow(l, r, s);
  }

  lemma CodeBelow(l: Tree, r: Tree, s: nat)
    requires s in Leaves(Fork(l, r))
    ensures s in Leaves(l) ==> CodeIn(Fork(l, r), s) == [false] + CodeIn(l, s)
    ensures s !in Leaves(l) ==> s in Leaves(r) && CodeIn(Fork(l, r), s) == [true] + CodeIn(r, s)
  {
  }

  lemma StoredCode(prefix: seq<Block>, code: seq<Block>, depth: nat, path: seq<bool>)
    requires Blocks(prefix, CODE_WIDTH) && depth <= |prefix| * CODE_WIDTH
             && path == Window(prefix, CODE_WIDTH, 0, depth)
    requires code <= prefix && depth <= |code| * CODE_WIDTH
    ensures HasCode(code, depth, path)
  {
    hide Get;
    assert Blocks(code, CODE_WIDTH);
    forall i: nat | i < depth ensures Get(code, CODE_WIDTH, i) == Get(prefix, CODE_WIDTH, i) {
      SameBlockBit(prefix, code, i);
    }
    SameWindow(prefix, code, CODE_WIDTH, depth);
  }

  lemma SameBlockBit(prefix: seq<Block>, code: seq<Block>, i: nat)
    requires Blocks(prefix, CODE_WIDTH) && Blocks(code, CODE_WIDTH) && code <= prefix && i < |code| * CODE_WIDTH
    ensures i < |prefix| * CODE_WIDTH && Get(code, CODE_WIDTH, i) == Get(prefix, CODE_WIDTH, i)
  {
    InRange(i, |code|, CODE_WIDTH);
  }

  lemma Extended(before: seq<Block>, after: seq<Block>, depth: nat, b: bool)
    requires Blocks(before, CODE_WIDTH) && Blocks(after, CODE_WIDTH) && |before| == |after|
             && depth < |before| * CODE_WIDTH
    requires forall j: nat :: j < |after| * CODE_WIDTH ==>
               Get(after, CODE_WIDTH, j) == if j == depth then b else Get(before, CODE_WIDTH, j)
    ensures Window(after, CODE_WIDTH, 0, depth + 1) == Window(before, CODE_WIDTH, 0, depth) + [b]
    ensures Window(after, CODE_WIDTH, 0, depth) == Window(before, CODE_WIDTH, 0, depth)
  {
    hide Get;
    SameWindow(before, after, CODE_WIDTH, depth);
    var w := Window(after, CODE_WIDTH, 0, depth + 1);
    assert w[..depth] == Window(after, CODE_WIDTH, 0, depth);
    assert w[depth] == b;
  }

  lemma Shortened(prefix: seq<Block>, depth: nat, path: seq<bool>, b: bool)
    requires Blocks(prefix, CODE_WIDTH) && depth < |prefix| * CODE_WIDTH
    requires Window(prefix, CODE_WIDTH, 0, depth + 1) == path + [b]
    ensures Window(prefix, CODE_WIDTH, 0, depth) == path
  {
    hide Get;
    assert Window(prefix, CODE_WIDTH, 0, depth) == Window(prefix, CODE_WIDTH, 0, depth + 1)[..depth];
  }

  // ----- The reverse table

  /** Entry v gives the symbol, and the length of its code, that reading v from the top leads to. */
  ghost predicate Reverses(t: Tree, width: nat, refs: seq<nat>, lengths: seq<nat>) {
    && |refs| == |lengths| == Pow2(width)
    && forall v: nat :: v < Pow2(width) ==> Walk(t, Digits(v, width)) == Arrived(refs[v], lengths[v])
  }

  /** find_max_length. */
  method FindMaxLength(nodes: seq<nat>, n: nat, p: nat, depth: nat, longest: nat) returns (r: nat)
    requires Ordered(nodes, n, p + 1)
    ensures r == if longest > depth + Height(TreeOf(nodes, n, p)) then longest else depth + Height(TreeOf(nodes, n, p))
    decreases p
  {
    hide TreeOf, Ordered;
    TreeShape(nodes, n, p);
    if p < n {
      return if longest < depth then depth else longest;
    }
    r := FindMaxLength(nodes, n, LeftOf(nodes, n, p), depth + 1, longest);
    r := FindMaxLength(nodes, n, RightOf(nodes, n, p), depth + 1, r);
  }

  /** The entries from base on, one for each value of width bits, say where these bits lead in the tree. */
  ghost predicate Filled(t: Tree, base: nat, width: nat, depth: nat, refs: seq<nat>, lengths: seq<nat>)
    requires |refs| == |lengths| && base + Pow2(width) <= |refs|
  {
    forall v: nat :: base <= v < base + Pow2(width) ==> LeadsTo(t, v - base, width, depth, refs[v], lengths[v])
  }

  /** Walking the digits of k from depth on arrives at symbol s after length bits in all. */
  ghost predicate LeadsTo(t: Tree, k: nat, width: nat, depth: nat, s: nat, length: nat) {
    length >= depth && Walk(t, Digits(k, width)) == Arrived(s, length - depth)
  }

  ghost predicate SameOutside(base: nat, size: nat, before: seq<nat>, after: seq<nat>) {
    |before| == |after| && forall v :: 0 <= v < |before| && !(base <= v < base + size) ==> after[v] == before[v]
  }

  /** The first of the entries whose first depth digits spell the prefix. */
  function First(prefix: nat, depth: nat, longest: nat): nat
    requires depth <= longest
  {
    prefix * Pow2(longest - depth)
  }

  /** fill_table below reference p: the entries whose first depth digits spell the prefix. */
  method FillTable(nodes: seq<nat>, n: nat, p: nat, prefix: nat, depth: nat, longest: nat,
                   refs: array<nat>, lengths: array<nat>)
    requires Ordered(nodes, n, p + 1) && depth + Height(TreeOf(nodes, n, p)) <= longest && prefix < Pow2(depth)
    requires refs.Length == lengths.Length == Pow2(longest) && refs != lengths
    modifies refs, lengths
    ensures First(prefix, depth, longest) + Pow2(longest - depth) <= Pow2(longest)
    ensures Filled(TreeOf(nodes, n, p), First(prefix, depth, longest), longest - depth, depth, refs[..], lengths[..])
    ensures SameOutside(First(prefix, depth, longest), Pow2(longest - depth), old(refs[..]), refs[..])
    ensures SameOutside(First(prefix, depth, longest), Pow2(longest - depth), old(lengths[..]), lengths[..])
    decreases p
  {
    hide TreeOf, Ordered, Pow2, Height, Filled, LeftOf, RightOf, First, SameOutside;
    TreeShape(nodes, n, p);
    PrefixFits(prefix, depth, longest);
    var base, size := First(prefix, depth, longest), Pow2(longest - depth);
    if p < n {
      FillEntries(base, size, p, depth, refs, lengths);
      SymbolFilled(p, base, longest - depth, depth, refs[..], lengths[..]);
    } else {
      ghost var l, r := TreeOf(nodes, n, LeftOf(nodes, n, p)), TreeOf(nodes, n, RightOf(nodes, n, p));
      ForkHeight(l, r);
      Halving(prefix, depth, longest);
      FillTable(nodes, n, LeftOf(nodes, n, p), 2 * prefix, depth + 1, longest, refs, lengths);
      ghost var refs1, lengths1 := refs[..], lengths[..];
      FillTable(nodes, n, RightOf(nodes, n, p), 2 * prefix + 1, depth + 1, longest, refs, lengths);
      ForkFilled(l, r, prefix, depth, longest, refs1, lengths1, refs[..], lengths[..]);
      OutsideBoth(base, size / 2, old(refs[..]), refs1, refs[..]);
      OutsideBoth(base, size / 2, old(lengths[..]), lengths1, lengths[..]);
    }
  }

  lemma OutsideBoth(base: nat, half: nat, s0: seq<nat>, s1: seq<nat>, s2: seq<nat>)
    requires SameOutside(base, half, s0, s1) && SameOutside(base + half, half, s1, s2)
    ensures SameOutside(base, 2 * half, s0, s2)
  {
  }

  method FillEntries(base: nat, size: nat, p: nat, depth: nat, refs: array<nat>, lengths: array<nat>)
    requires base + size <= refs.Length == lengths.Length && refs != lengths
    modifies refs, lengths
    ensures forall v :: base <= v < base + size ==> refs[v] == p && lengths[v] == depth
    ensures SameOutside(base, size, old(refs[..]), refs[..])
    ensures SameOutside(base, size, old(lengths[..]), lengths[..])
  {
    var k: nat := 0;
    while k < size
      invariant 0 <= k <= size
      invariant forall v :: base <= v < base + k ==> refs[v] == p && lengths[v] == depth
      invariant SameOutside(base, size, old(refs[..]), refs[..])
      invariant SameOutside(base, size, old(lengths[..]), lengths[..])
    {
      refs[base + k] := p;
      lengths[base + k] := depth;
      k := k + 1;
    }
  }

  lemma SymbolFilled(p: nat, base: nat, width: nat, depth: nat, refs: seq<nat>, lengths: seq<nat>)
    requires |refs| == |lengths| && base + Pow2(width) <= |refs|
    requires forall v :: base <= v < base + Pow2(width) ==> refs[v] == p && lengths[v] == depth
    ensures Filled(Symbol(p), base, width, depth, refs, lengths)
  {
  }

  lemma ForkHeight(l: Tree, r: Tree)
    ensures Height(l) + 1 <= Height(Fork(l, r)) && Height(r) + 1 <= Height(Fork(l, r))
    ensures Height(l) + 1 == Height(Fork(l, r)) || Height(r) + 1 == Height(Fork(l, r))
  {
  }

  /** Both halves filled below the children make a fill below their parent. */
  lemma ForkFilled(l: Tree, r: Tree, prefix: nat, depth: nat, longest: nat,
                   refs1: seq<nat>, lengths1: seq<nat>, refs: seq<nat>, lengths: seq<nat>)
    requires depth < longest && prefix < Pow2(depth)
    requires |refs1| == |lengths1| == |refs| == |lengths| == Pow2(longest)
    requires First(prefix, depth, longest) + Pow2(longest - depth) <= Pow2(longest)
    requires First(2 * prefix, depth + 1, longest) + Pow2(longest - (depth + 1)) <= Pow2(longest)
    requires First(2 * prefix + 1, depth + 1, longest) + Pow2(longest - (depth + 1)) <= Pow2(longest)
    requires Filled(l, First(2 * prefix, depth + 1, longest), longest - (depth + 1), depth + 1, refs1, lengths1)
    requires Filled(r, First(2 * prefix + 1, depth + 1, longest), longest - (depth + 1), depth + 1, refs, lengths)
    requires SameOutside(First(2 * prefix + 1, depth + 1, longest), Pow2(longest - (depth + 1)), refs1, refs)
    requires SameOutside(First(2 * prefix + 1, depth + 1, longest), Pow2(longest - (depth + 1)), lengths1, lengths)
    ensures Filled(Fork(l, r), First(prefix, depth, longest), longest - depth, depth, refs, lengths)
  {
    hide Pow2, Walk, Digits, First;
    Halving(prefix, depth, longest);
    var base, half, width := First(prefix, depth, longest), Pow2(longest - (depth + 1)), longest - depth;
    forall v: nat | base <= v < base + Pow2(width)
      ensures LeadsTo(Fork(l, r), v - base, width, depth, refs[v], lengths[v])
    {
      ForkWalk(l, r, v - base, width);
      if v < base + half {
        assert LeadsTo(l, v - base, width - 1, depth + 1, refs1[v], lengths1[v]);
      } else {
        assert LeadsTo(r, v - (base + half), width - 1, depth + 1, refs[v], lengths[v]);
      }
    }
  }

  lemma PrefixFits(prefix: nat, depth: nat, longest: nat)
    requires depth <= longest && prefix < Pow2(depth)
    ensures First(prefix, depth, longest) + Pow2(longest - depth) <= Pow2(longest)
  {
    hide Pow2;
    Pow2Sum(depth, longest - depth);
    MultipleFits(prefix, Pow2(depth), Pow2(longest - depth));
  }

  lemma MultipleFits(k: nat, n: nat, size: nat)
    requires k < n
    ensures k * size + size <= n * size
  {
    assert n * size == k * size + (n - k) * size;
    AtLeastOnce(n - k, size);
  }

  lemma AtLeastOnce(m: nat, size: nat)
    requires m >= 1
    ensures m * size >= size
  {
  }

  lemma Halving(prefix: nat, depth: nat, longest: nat)
    requires depth < longest
    ensures Pow2(longest - depth) == 2 * Pow2(longest - (depth + 1)) && Pow2(depth + 1) == 2 * Pow2(depth)
    ensures First(prefix, depth, longest) == First(2 * prefix, depth + 1, longest)
    ensures First(2 * prefix + 1, depth + 1, longest) == First(prefix, depth, longest) + Pow2(longest - (depth + 1))
  {
    TimesTwice(prefix, Pow2(longest - (depth + 1)));
  }

  lemma TimesTwice(k: nat, h: nat)
    ensures k * (2 * h) == 2 * k * h && (2 * k + 1) * h == 2 * k * h + h
  {
  }

  lemma ForkWalk(l: Tree, r: Tree, k: nat, width: nat)
    requires width > 0 && k < Pow2(width)
    ensures var half := Pow2(width - 1);
            var below := if k < half then Walk(l, Digits(k, width - 1)) else Walk(r, Digits(k - half, width - 1));
            Walk(Fork(l, r), Digits(k, width)) ==
            match below { case RanOut => RanOut case Arrived(s, used) => Arrived(s, used + 1) }
  {
    TopDigit(k, width);
  }

  lemma {:induction false} TopDigit(k: nat, width: nat)
    requires width > 0 && k < Pow2(width)
    ensures var half := Pow2(width - 1);
            Digits(k, width) == [k >= half] + Digits(if k < half then k else k - half, width - 1)
  {
    if width > 1 {
      TopDigit(k / 2, width - 1);
    }
  }

  // ----- The coder

  datatype Decoded = Decoded(symbol: nat) | NoSymbol

  datatype Coder = Coder(n: nat, nodes: seq<nat>, codes: seq<seq<Block>>, lengths: seq<nat>,
                         longest: nat, refs: seq<nat>, revLengths: seq<nat>)

  /** A coder over a full tree of n symbols, with both tables. */
  ghost predicate ValidCoder(c: Coder) {
    && c.n >= 2 && Ordered(c.nodes, c.n, 2 * c.n - 1) && |c.codes| == |c.lengths| == c.n
    && Leaves(Root(c)) == AllSymbols(c.n)
    && (forall s: nat :: s < c.n ==> s in Leaves(Root(c)) && HasCode(c.codes[s], c.lengths[s], CodeIn(Root(c), s)))
    && Reverses(Root(c), c.longest, c.refs, c.revLengths)
  }

  ghost function Root(c: Coder): Tree
    requires c.n >= 2 && Ordered(c.nodes, c.n, 2 * c.n - 1)
  {
    TreeOf(c.nodes, c.n, 2 * c.n - 2)
  }

  /** The code of a symbol. */
  ghost function CodeOf(c: Coder, s: nat): seq<bool>
    requires ValidCoder(c) && s < c.n
  {
    CodeIn(Root(c), s)
  }

  /** With two symbols or more no code is empty. */
  lemma CodeNotEmpty(c: Coder, s: nat)
    requires ValidCoder(c) && s < c.n
    ensures |CodeOf(c, s)| > 0
  {
    hide Ordered, HasCode, Reverses;
    SymbolCount(c.n);
  }

  /** Generates the tree and both tables from any weights; no other code of all symbols is shorter by these. */
  method MakeCoder(weights: seq<real>) returns (c: Coder)
    requires |weights| >= 2
    ensures ValidCoder(c) && c.n == |weights| && Optimal(Root(c), weights)
  {
    hide Optimal, Weighed, LeftLighter, Ordered, TreeOf, Leaves, AllSymbols, CodeIn, HasCode, Reverses;
    var n := |weights|;
    var all := new real[2 * n - 1](i => if 0 <= i < n then weights[i] else 0.0);
    var nodes := new nat[2 * (n - 1)](_ => 0);
    assert all[..n] == weights;
    Generate(all, nodes, n);
    var tree := nodes[..];
    var codes, lengths := MakeCodes(tree, n);
    var longest, refs, revLengths := MakeReverse(tree, n);
    c := Coder(n, tree, codes, lengths, longest, refs, revLengths);
    assert Root(c) == TreeOf(tree, n, 2 * n - 2);
    forall s: nat | s < c.n ensures s in Leaves(Root(c)) && HasCode(c.codes[s], c.lengths[s], CodeIn(Root(c), s)) {
      assert s in Leaves(TreeOf(tree, n, 2 * n - 2));
    }
  }

  /** The table of codes. */
  method MakeCodes(nodes: seq<nat>, n: nat) returns (codes: seq<seq<Block>>, lengths: seq<nat>)
    requires n >= 2 && Ordered(nodes, n, 2 * n - 1) && Leaves(TreeOf(nodes, n, 2 * n - 2)) == AllSymbols(n)
    ensures |codes| == |lengths| == n
    ensures forall s: nat :: s < n ==> s in Leaves(TreeOf(nodes, n, 2 * n - 2))
                                       && HasCode(codes[s], lengths[s], CodeIn(TreeOf(nodes, n, 2 * n - 2), s))
  {
    hide Ordered, TreeOf, Leaves, AllSymbols, CodeIn, HasCode, Window, Get, BlockCount;
    ghost var t := TreeOf(nodes, n, 2 * n - 2);
    forall s: nat ensures Leaves(t)[s] <= 1 && (s in Leaves(t) <==> s < n) { EachSymbolOnce(n, s); }
    SymbolCount(n);
    BlocksHold(n, CODE_WIDTH);
    var prefix := new Block[BlockCount(n, CODE_WIDTH)](_ => Clear(CODE_WIDTH));
    var codeArray := new seq<Block>[n](_ => []);
    var lengthArray := new nat[n](_ => 0);
    NoPath(prefix[..]);
    GenerateCodes(nodes, n, 2 * n - 2, prefix, 0, codeArray, lengthArray);
    codes, lengths := codeArray[..], lengthArray[..];
    forall s: nat | s < n ensures HasCode(codes[s], lengths[s], CodeIn(t, s)) {
      assert s in Leaves(t) && [] + CodeIn(t, s) == CodeIn(t, s);
    }
  }

  lemma NoPath(prefix: seq<Block>)
    requires Blocks(prefix, CODE_WIDTH)
    ensures Window(prefix, CODE_WIDTH, 0, 0) == []
  {
  }

  /** The reverse table. */
  method MakeReverse(nodes: seq<nat>, n: nat) returns (longest: nat, refs: seq<nat>, lengths: seq<nat>)
    requires n >= 2 && Ordered(nodes, n, 2 * n - 1)
    ensures Reverses(TreeOf(nodes, n, 2 * n - 2), longest, refs, lengths)
  {
    hide Ordered, TreeOf, Pow2, Height, Filled, Reverses;
    longest := FindMaxLength(nodes, n, 2 * n - 2, 0, 0);
    var refArray := new nat[Pow2(longest)](_ => 0);
    var lengthArray := new nat[Pow2(longest)](_ => 0);
    Pow2AtZero();
    assert First(0, 0, longest) == 0;
    FillTable(nodes, n, 2 * n - 2, 0, 0, longest, refArray, lengthArray);
    refs, lengths := refArray[..], lengthArray[..];
    FilledTable(TreeOf(nodes, n, 2 * n - 2), longest, refs, lengths);
  }

  lemma Pow2AtZero()
    ensures Pow2(0) == 1
  {
  }

  lemma FilledTable(t: Tree, longest: nat, refs: seq<nat>, lengths: seq<nat>)
    requires |refs| == |lengths| == Pow2(longest) && Filled(t, 0, longest, 0, refs, lengths)
    ensures Reverses(t, longest, refs, lengths)
  {
    hide Digits, Walk, Pow2;
    forall v: nat | v < Pow2(longest) ensures Walk(t, Digits(v, longest)) == Arrived(refs[v], lengths[v]) {
      assert LeadsTo(t, v - 0, longest, 0, refs[v], lengths[v]);
    }
  }

  /** huffman::encode. */
  method Encode(c: Coder, out: BitVector, s: nat)
    requires ValidCoder(c) && out.Valid() && s < c.n
    modifies out, out.buf
    ensures out.Valid() && (fresh(out.buf) || out.buf == old(out.buf))
    ensures out.Contents() == old(out.Contents()) + CodeOf(c, s)
  {
    hide Window, Get, Ordered, TreeOf, Leaves, AllSymbols, CodeIn, Reverses;
    out.AppendBlocks(c.codes[s], CODE_WIDTH, 0, c.lengths[s]);
  }

  /** huffman::decode: follows the bits from the iterator down the tree. */
  method Decode(c: Coder, buf: BitVector, iter: nat) returns (r: Decoded, next: nat)
    requires ValidCoder(c) && buf.Valid() && iter <= buf.size
    requires iter < buf.size ==> Walk(Root(c), buf.Contents()[iter..]).Arrived?
    ensures iter == buf.size ==> r == NoSymbol && next == iter
    ensures iter < buf.size ==>
              var w := Walk(Root(c), buf.Contents()[iter..]);
              r == Decoded(w.symbol) && next == iter + w.used <= buf.size
  {
    hide Window, Get, Ordered, TreeOf, Leaves, AllSymbols, HasCode, Reverses, Walk, LeftOf, RightOf, CodeIn;
    next := iter;
    if next == buf.size {
      return NoSymbol, next;
    }
    ghost var bits := buf.Contents();
    ghost var w := Walk(Root(c), bits[iter..]);
    var p: nat := 2 * c.n - 2;
    while p >= c.n
      invariant p < 2 * c.n - 1 && iter <= next <= buf.size && next - iter <= w.used && Ordered(c.nodes, c.n, p + 1)
      invariant Walk(TreeOf(c.nodes, c.n, p), bits[next..]) == Arrived(w.symbol, w.used - (next - iter))
      decreases p
    {
      TreeShape(c.nodes, c.n, p);
      WalkStep(TreeOf(c.nodes, c.n, p), bits[next..]);
      assert bits[next..][1..] == bits[next + 1..];
      var b := buf.Bit(next);
      next := next + 1;
      if !b {
        p := LeftOf(c.nodes, c.n, p);
      } else {
        p := RightOf(c.nodes, c.n, p);
      }
    }
    TreeShape(c.nodes, c.n, p);
    WalkEnd(p, bits[next..]);
    r := Decoded(p);
  }

  lemma WalkStep(t: Tree, bits: seq<bool>)
    requires t.Fork? && Walk(t, bits).Arrived?
    ensures bits != [] && Walk(t, bits).used > 0
    ensures Walk(if bits[0] then t.right else t.left, bits[1..])
            == Arrived(Walk(t, bits).symbol, Walk(t, bits).used - 1)
  {
  }

  lemma WalkEnd(s: nat, bits: seq<bool>)
    ensures Walk(Symbol(s), bits) == Arrived(s, 0)
  {
  }

  /** Where the bits have the code of s at the iterator, decoding gives s and stops behind the code. */
  lemma DecodesCode(c: Coder, bits: seq<bool>, iter: nat, s: nat)
    requires ValidCoder(c) && s < c.n && iter + |CodeOf(c, s)| <= |bits|
    requires bits[iter..iter + |CodeOf(c, s)|] == CodeOf(c, s)
    ensures iter < |bits| && Walk(Root(c), bits[iter..]) == Arrived(s, |CodeOf(c, s)|)
  {
    hide HasCode, Reverses, Ordered, TreeOf, Leaves, AllSymbols, Walk, CodeIn, Window;
    var code := CodeOf(c, s);
    assert bits[iter..] == code + bits[iter + |code|..];
    WalkCode(Root(c), s, bits[iter + |code|..]);
    TreeShape(c.nodes, c.n, 2 * c.n - 2);
    WalkStep(Root(c), bits[iter..]);
  }

  /** The table and the walk agree: with longest bits at hand, one lookup decodes the symbol whose code
      comes first, and gives its length. */
  lemma LookupAgrees(c: Coder, s: nat, rest: seq<bool>)
    requires ValidCoder(c) && s < c.n && |CodeOf(c, s) + rest| == c.longest
    ensures var v := Number(CodeOf(c, s) + rest);
            v < |c.refs| && c.refs[v] == s && c.revLengths[v] == |CodeOf(c, s)|
  {
    hide HasCode, Ordered, TreeOf, AllSymbols;
    var bits := CodeOf(c, s) + rest;
    WalkCode(Root(c), s, rest);
    DigitsOfNumber(bits);
  }

  lemma {:induction false} DigitsOfNumber(b: Block)
    ensures Number(b) < Pow2(|b|) && Digits(Number(b), |b|) == b
  {
    if b != [] {
      DigitsOfNumber(b[..|b| - 1]);
      assert b == b[..|b| - 1] + [b[|b| - 1]];
    }
  }

  ghost predicate Below(symbols: seq<nat>, n: nat) {
    forall i :: 0 <= i < |symbols| ==> symbols[i] < n
  }

  /** The codes of several symbols laid end to end. */
  ghost function CodesOf(c: Coder, symbols: seq<nat>): seq<bool>
    requires ValidCoder(c) && Below(symbols, c.n)
  {
    if symbols == [] then [] else CodeOf(c, symbols[0]) + CodesOf(c, symbols[1..])
  }

  lemma {:induction false} CodesSnoc(c: Coder, symbols: seq<nat>, s: nat)
    requires ValidCoder(c) && Below(symbols, c.n) && s < c.n
    ensures CodesOf(c, symbols + [s]) == CodesOf(c, symbols) + CodeOf(c, s)
  {
    hide ValidCoder, CodeOf;
    if symbols == [] {
      assert [] + [s] == [s] && [s][1..] == [];
    } else {
      CodesSnoc(c, symbols[1..], s);
      assert (symbols + [s])[1..] == symbols[1..] + [s];
    }
  }

  method EncodeAll(c: Coder, symbols: seq<nat>) returns (buf: BitVector)
    requires ValidCoder(c) && Below(symbols, c.n)
    ensures buf.Valid() && buf.Contents() == CodesOf(c, symbols)
  {
    hide ValidCoder, CodeOf, Window;
    buf := new BitVector(CODE_WIDTH);
    var i := 0;
    while i < |symbols|
      invariant 0 <= i <= |symbols| && buf.Valid() && fresh(buf) && fresh(buf.buf)
      invariant buf.Contents() == CodesOf(c, symbols[..i])
    {
      CodesSnoc(c, symbols[..i], symbols[i]);
      assert symbols[..i + 1] == symbols[..i] + [symbols[i]];
      Encode(c, buf, symbols[i]);
      i := i + 1;
    }
    assert symbols[..i] == symbols;
  }

  /** The bits behind iter, when they are the codes of the symbols from i on. */
  lemma CodesStep(c: Coder, bits: seq<bool>, iter: nat, symbols: seq<nat>, i: nat)
    requires ValidCoder(c) && Below(symbols, c.n) && i < |symbols| && iter <= |bits|
    requires bits[iter..] == CodesOf(c, symbols[i..])
    ensures var end := iter + |CodeOf(c, symbols[i])|;
            end <= |bits| && bits[iter..end] == CodeOf(c, symbols[i]) && bits[end..] == CodesOf(c, symbols[i + 1..])
  {
    hide ValidCoder, CodeOf;
    var code, rest := CodeOf(c, symbols[i]), CodesOf(c, symbols[i + 1..]);
    assert symbols[i..][1..] == symbols[i + 1..] && symbols[i..][0] == symbols[i];
    assert bits[iter..] == code + rest;
    assert bits[iter..][..|code|] == code && bits[iter..][|code|..] == rest;
  }

  /** Symbols encoded one after the other into a bit vector are read back in order. */
  method EncodeThenDecode(c: Coder, symbols: seq<nat>) returns (out: seq<nat>)
    requires ValidCoder(c) && Below(symbols, c.n)
    ensures out == symbols
  {
    hide ValidCoder, CodeOf, Window, CodesOf, Walk, Root;
    var buf := EncodeAll(c, symbols);
    ghost var bits := buf.Contents();
    assert |bits| == buf.size;
    out := [];
    var iter := 0;
    var i := 0;
    assert symbols[0..] == symbols && bits[0..] == bits;
    while i < |symbols|
      invariant 0 <= i <= |symbols| && 0 <= iter <= |bits| && out == symbols[..i]
      invariant buf.Valid() && buf.Contents() == bits && buf.size == |bits|
      invariant bits[iter..] == CodesOf(c, symbols[i..])
    {
      CodesStep(c, bits, iter, symbols, i);
      DecodesCode(c, bits, iter, symbols[i]);
      var r: Decoded;
      r, iter := Decode(c, buf, iter);
      out := out + [r.symbol];
      i := i + 1;
    }
  }
}
