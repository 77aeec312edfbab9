/** The entropy-coded trie: trie.h of external/pdlfs-common's ectrie. A sorted run of keys becomes the
    bit string of its left-subtree sizes, in preorder. A key is the sequence of its bits. */
module EntropyTries {
  import opened ByteBits
  import opened BitVectors
  import opened EntropyCodes
  import opened HuffmanTrees
  import opened HuffmanCoders
  import opened Sequences

  type Key = seq<bool>

  /** The first bit in which the keys differ is set in b only. */
  ghost predicate Less(a: Key, b: Key)
    requires |a| == |b|
  {
    exists d: nat :: d < |a| && FirstDifference(a, b, d) && b[d]
  }

  ghost predicate FirstDifference(a: Key, b: Key, d: nat)
    requires d < |a| == |b|
  {
    a[d] != b[d] && forall e :: 0 <= e < d ==> a[e] == b[e]
  }

  ghost predicate SameStart(a: Key, b: Key, depth: nat) {
    depth <= |a| && depth <= |b| && forall d :: 0 <= d < depth ==> a[d] == b[d]
  }

  /** n keys of the given number of bits from off on, strictly sorted, with the first depth bits in common. */
  ghost predicate KeyRange(keys: seq<Key>, bits: nat, off: nat, n: nat, depth: nat) {
    && off + n <= |keys| && depth <= bits && n < Pow2(WORD) - 1
    && (forall i :: off <= i < off + n ==> |keys[i]| == bits)
    && (forall i, j {:trigger Less(keys[i], keys[j])} :: off <= i < j < off + n ==> Less(keys[i], keys[j]))
    && (forall i, j {:trigger SameStart(keys[i], keys[j], depth)} ::
          off <= i < off + n && off <= j < off + n ==> SameStart(keys[i], keys[j], depth))
  }

  lemma SomeBitLeft(keys: seq<Key>, bits: nat, off: nat, n: nat, depth: nat)
    requires KeyRange(keys, bits, off, n, depth) && n >= 2
    ensures depth < bits
  {
    hide Less, SameStart;
    assert SameStart(keys[off], keys[off + 1], depth);
    if depth == bits { NotLess(keys[off], keys[off + 1], depth); }
  }

  lemma NotLess(a: Key, b: Key, depth: nat)
    requires |a| == |b| && SameStart(a, b, depth) && (depth < |a| ==> a[depth] && !b[depth])
    ensures !Less(a, b)
  {
  }

  lemma SameLonger(a: Key, b: Key, depth: nat)
    requires SameStart(a, b, depth) && depth < |a| && depth < |b| && a[depth] == b[depth]
    ensures SameStart(a, b, depth + 1)
  {
  }

  /** How many keys go left: those before the first with its bit at depth set. */
  function LeftCount(keys: seq<Key>, off: nat, n: nat, depth: nat): (left: nat)
    requires off + n <= |keys| && forall i :: off <= i < off + n ==> depth < |keys[i]|
    ensures left <= n && (forall i :: off <= i < off + left ==> !keys[i][depth])
    ensures left < n ==> keys[off + left][depth]
    decreases n
  {
    if n == 0 || keys[off][depth] then 0 else 1 + LeftCount(keys, off + 1, n - 1, depth)
  }

  /** Sorted keys: all behind the first that goes right go right, and both parts are again ranges. */
  lemma SplitRange(keys: seq<Key>, bits: nat, off: nat, n: nat, depth: nat)
    requires KeyRange(keys, bits, off, n, depth) && depth < bits
    ensures var left := LeftCount(keys, off, n, depth);
            && (forall i :: off + left <= i < off + n ==> keys[i][depth])
            && KeyRange(keys, bits, off, left, depth + 1) && KeyRange(keys, bits, off + left, n - left, depth + 1)
  {
    hide Pow2, Less, LeftCount, SameStart;
    var left := LeftCount(keys, off, n, depth);
    var m := off + left;
    forall i | m <= i < off + n ensures keys[i][depth] {
      assert SameStart(keys[m], keys[i], depth);
      if !keys[i][depth] { NotLess(keys[m], keys[i], depth); }
    }
    forall i, j | off <= i < off + n && off <= j < off + n && (i < m <==> j < m)
      ensures SameStart(keys[i], keys[j], depth + 1)
    {
      SameLonger(keys[i], keys[j], depth);
    }
  }

  // ----- Sizes

  /** A trie with Huffman coders for up to so many keys; none without a huffman_buffer. */
  datatype Trie = Trie(coders: seq<Coder>)

  /** coders[n - 2] codes the sizes 0 to n. */
  ghost predicate ValidTrie(t: Trie) {
    forall k :: 0 <= k < |t.coders| ==> ValidCoder(t.coders[k]) && t.coders[k].n == k + 3
  }

  predicate UsesHuffman(t: Trie, n: nat) {
    n <= |t.coders| + 1
  }

  /** Differences modulo the word size. */
  function SubtractWords(a: nat, b: nat): (r: nat)
    requires a < Pow2(WORD) && b < Pow2(WORD)
    ensures r < Pow2(WORD)
  {
    if a >= b then a - b else a + Pow2(WORD) - b
  }

  function AddWords(a: nat, b: nat): (r: nat)
    requires a < Pow2(WORD) && b < Pow2(WORD)
    ensures r < Pow2(WORD)
  {
    if a + b < Pow2(WORD) then a + b else a + b - Pow2(WORD)
  }

  /** What stands for a left size under Golomb coding. */
  function Balance(n: nat, left: nat): (u: nat)
    requires left <= n < Pow2(WORD) - 1
    ensures u < Pow2(WORD)
  {
    InterleaveBijection(SubtractWords(left, n / 2), WORD);
    InterleaveEncode(SubtractWords(left, n / 2), WORD)
  }

  lemma BalanceFits(n: nat, left: nat)
    requires left <= n < Pow2(WORD) - 1
    ensures HighPart(Balance(n, left), 0) + 1 < Pow2(WORD)
    ensures AddWords(InterleaveDecode(Balance(n, left), WORD), n / 2) == left
  {
    hide Pow2;
    assert Pow2(WORD) == 2 * Pow2(WORD - 1) by { Pow2Double(WORD - 1); }
    InterleaveBijection(SubtractWords(left, n / 2), WORD);
  }

  /** The code of a left size. */
  ghost function SizeCode(t: Trie, n: nat, left: nat): seq<bool>
    requires ValidTrie(t) && 2 <= n < Pow2(WORD) - 1 && left <= n
  {
    if UsesHuffman(t, n) then CodeOf(t.coders[n - 2], left) else GolombCode(0, Balance(n, left))
  }

  method EncodeSize(t: Trie, out: BitVector, n: nat, left: nat)
    requires ValidTrie(t) && 2 <= n < Pow2(WORD) - 1 && left <= n && out.Valid()
    modifies out, out.buf
    ensures out.Valid() && (fresh(out.buf) || out.buf == old(out.buf))
    ensures out.Contents() == old(out.Contents()) + SizeCode(t, n, left)
  {
    hide ValidCoder, Pow2, Balance, HighPart, GolombCode, Window, CodeOf;
    if n <= |t.coders| + 1 {
      Encode(t.coders[n - 2], out, left);
    } else {
      BalanceFits(n, left);
      GolombEncode(0, out, Balance(n, left));
    }
  }

  /** Reads the left size at the iterator and stops exactly behind its code. */
  method DecodeSize(t: Trie, buf: BitVector, iter: nat, n: nat, ghost left: nat) returns (r: nat, next: nat)
    requires ValidTrie(t) && 2 <= n < Pow2(WORD) - 1 && left <= n && buf.Valid()
    requires Holds(buf.Contents(), iter, SizeCode(t, n, left))
    ensures r == left && next == iter + |SizeCode(t, n, left)| <= buf.size
  {
    hide ValidCoder, Pow2, Balance, HighPart, GolombCode, Window, CodeOf, Walk, Root;
    assert |buf.Contents()| == buf.size;
    if n <= |t.coders| + 1 {
      DecodesCode(t.coders[n - 2], buf.Contents(), iter, left);
      var d: Decoded;
      d, next := Decode(t.coders[n - 2], buf, iter);
      r := d.symbol;
    } else {
      BalanceFits(n, left);
      var u: nat;
      u, next := GolombDecode(0, buf, iter, Balance(n, left));
      r := AddWords(InterleaveDecode(u, WORD), n / 2);
    }
  }

  // ----- The code of a run of keys

  /** Nothing is written for one key, nor for keys that end up in one destination block. */
  predicate Unwritten(off: nat, n: nat, base: nat, perBlock: nat) {
    n <= 1 || (n <= perBlock && (base + off) / perBlock == (base + off + n - 1) / perBlock)
  }

  ghost function TrieCode(t: Trie, keys: seq<Key>, bits: nat, off: nat, n: nat, base: nat, perBlock: nat,
                          depth: nat): seq<bool>
    requires ValidTrie(t) && KeyRange(keys, bits, off, n, depth)
    decreases bits - depth
  {
    hide KeyRange, ValidTrie, SizeCode, LeftCount, Pow2;
    if Unwritten(off, n, base, perBlock) then []
    else
      RangeBounds(keys, bits, off, n, depth);
      SomeBitLeft(keys, bits, off, n, depth);
      SplitRange(keys, bits, off, n, depth);
      var left := LeftCount(keys, off, n, depth);
      SizeCode(t, n, left) + TrieCode(t, keys, bits, off, left, base, perBlock, depth + 1)
                           + TrieCode(t, keys, bits, off + left, n - left, base, perBlock, depth + 1)
  }

  /** The part of the code that a search for the key does not get to: the right subtrees beside its path. */
  ghost function Unread(t: Trie, keys: seq<Key>, bits: nat, off: nat, n: nat, base: nat, perBlock: nat, depth: nat,
                        key: Key): nat
    requires ValidTrie(t) && KeyRange(keys, bits, off, n, depth) && |key| == bits
    decreases bits - depth
  {
    hide KeyRange, ValidTrie, SizeCode, LeftCount, Pow2;
    if Unwritten(off, n, base, perBlock) then 0
    else
      RangeBounds(keys, bits, off, n, depth);
      SomeBitLeft(keys, bits, off, n, depth);
      SplitRange(keys, bits, off, n, depth);
      var left := LeftCount(keys, off, n, depth);
      if key[depth] then Unread(t, keys, bits, off + left, n - left, base, perBlock, depth + 1, key)
      else Unread(t, keys, bits, off, left, base, perBlock, depth + 1, key)
           + |TrieCode(t, keys, bits, off + left, n - left, base, perBlock, depth + 1)|
  }

  // ----- When a search reads the whole code

  lemma SizeCodeNotEmpty(t: Trie, n: nat, left: nat)
    requires ValidTrie(t) && 2 <= n < Pow2(WORD) - 1 && left <= n
    ensures |SizeCode(t, n, left)| > 0
  {
    hide ValidCoder, Pow2, Balance, CodeOf;
    if UsesHuffman(t, n) { CodeNotEmpty(t.coders[n - 2], left); }
  }

  lemma WrittenNotEmpty(t: Trie, keys: seq<Key>, bits: nat, off: nat, n: nat, base: nat, perBlock: nat, depth: nat)
    requires ValidTrie(t) && KeyRange(keys, bits, off, n, depth)
    ensures TrieCode(t, keys, bits, off, n, base, perBlock, depth) == [] <==> Unwritten(off, n, base, perBlock)
  {
    hide ValidTrie, KeyRange, SizeCode, TrieCode, LeftCount, Pow2;
    if Unwritten(off, n, base, perBlock) {
      EmptyCode(t, keys, bits, off, n, base, perBlock, depth);
    } else {
      WrittenRun(keys, bits, off, n, base, perBlock, depth);
      WrittenCode(t, keys, bits, off, n, base, perBlock, depth);
      SizeCodeNotEmpty(t, n, LeftCount(keys, off, n, depth));
    }
  }

  /** Wherever the key turns left, the run to the right is one that nothing is written for. */
  ghost predicate RightsUnwritten(keys: seq<Key>, bits: nat, off: nat, n: nat, base: nat, perBlock: nat, depth: nat,
                                  key: Key)
    requires KeyRange(keys, bits, off, n, depth) && |key| == bits
    decreases bits - depth
  {
    hide KeyRange, LeftCount, Pow2;
    Unwritten(off, n, base, perBlock)
    || (RangeBounds(keys, bits, off, n, depth);
        SomeBitLeft(keys, bits, off, n, depth);
        SplitRange(keys, bits, off, n, depth);
        var left := LeftCount(keys, off, n, depth);
        if key[depth] then RightsUnwritten(keys, bits, off + left, n - left, base, perBlock, depth + 1, key)
        else Unwritten(off + left, n - left, base, perBlock)
             && RightsUnwritten(keys, bits, off, left, base, perBlock, depth + 1, key))
  }

  /** Exactly then a search for the key reads the whole code of the run. */
  lemma {:induction false} ReadsAllIff(t: Trie, keys: seq<Key>, bits: nat, off: nat, n: nat, base: nat, perBlock: nat,
                                       depth: nat, key: Key)
    requires ValidTrie(t) && KeyRange(keys, bits, off, n, depth) && |key| == bits
    ensures Unread(t, keys, bits, off, n, base, perBlock, depth, key) == 0
            <==> RightsUnwritten(keys, bits, off, n, base, perBlock, depth, key)
    decreases bits - depth
  {
    hide ValidTrie, KeyRange, SizeCode, TrieCode, LeftCount, Pow2, Unread, RightsUnwritten;
    RightsStep(keys, bits, off, n, base, perBlock, depth, key);
    if Unwritten(off, n, base, perBlock) {
      EmptyCode(t, keys, bits, off, n, base, perBlock, depth);
    } else {
      WrittenRun(keys, bits, off, n, base, perBlock, depth);
      WrittenCode(t, keys, bits, off, n, base, perBlock, depth);
      UnreadStep(t, keys, bits, off, n, base, perBlock, depth, key);
      var left := LeftCount(keys, off, n, depth);
      if key[depth] {
        ReadsAllIff(t, keys, bits, off + left, n - left, base, perBlock, depth + 1, key);
      } else {
        ReadsAllIff(t, keys, bits, off, left, base, perBlock, depth + 1, key);
        WrittenNotEmpty(t, keys, bits, off + left, n - left, base, perBlock, depth + 1);
      }
    }
  }

  lemma RightsStep(keys: seq<Key>, bits: nat, off: nat, n: nat, base: nat, perBlock: nat, depth: nat, key: Key)
    requires KeyRange(keys, bits, off, n, depth) && |key| == bits
    ensures Unwritten(off, n, base, perBlock) ==> RightsUnwritten(keys, bits, off, n, base, perBlock, depth, key)
    ensures !Unwritten(off, n, base, perBlock) ==>
              && depth < bits && off + n <= |keys| && (forall i :: off <= i < off + n ==> depth < |keys[i]|)
              && var left := LeftCount(keys, off, n, depth);
                 && KeyRange(keys, bits, off, left, depth + 1) && KeyRange(keys, bits, off + left, n - left, depth + 1)
                 && RightsUnwritten(keys, bits, off, n, base, perBlock, depth, key) ==
                    if key[depth] then RightsUnwritten(keys, bits, off + left, n - left, base, perBlock, depth + 1, key)
                    else Unwritten(off + left, n - left, base, perBlock)
                         && RightsUnwritten(keys, bits, off, left, base, perBlock, depth + 1, key)
  {
    hide Less, SameStart, LeftCount, Pow2;
    if !Unwritten(off, n, base, perBlock) {
      SomeBitLeft(keys, bits, off, n, depth);
      SplitRange(keys, bits, off, n, depth);
    }
  }

  function ThreeKeys(): seq<Key> {
    [[false, false], [true, false], [true, true]]
  }

  lemma ThreeKeysRange()
    ensures KeyRange(ThreeKeys(), 2, 0, 3, 0)
  {
    hide Pow2;
    var keys := ThreeKeys();
    assert FirstDifference(keys[0], keys[1], 0);
    assert FirstDifference(keys[0], keys[2], 0);
    assert FirstDifference(keys[1], keys[2], 1);
    assert 3 < Pow2(WORD) - 1 by { Pow2Monotone(3, WORD); assert Pow2(3) == 8 by { SmallPowers(); } }
  }

  /** Three keys of two bits: the search for the first leaves bits unread, whatever the coders. */
  lemma SomeLeftUnread(t: Trie)
    requires ValidTrie(t)
    ensures KeyRange(ThreeKeys(), 2, 0, 3, 0) && Unread(t, ThreeKeys(), 2, 0, 3, 0, 1, 0, ThreeKeys()[0]) > 0
  {
    hide ValidTrie, SizeCode, TrieCode, Unread, KeyRange, Pow2, RightsUnwritten;
    var keys := ThreeKeys();
    ThreeKeysRange();
    assert LeftCount(keys, 0, 3, 0) == 1;
    RightsStep(keys, 2, 0, 3, 0, 1, 0, keys[0]);
    ReadsAllIff(t, keys, 2, 0, 3, 0, 1, 0, keys[0]);
  }

  /** encode_rec. */
  method EncodeRec(t: Trie, out: BitVector, keys: seq<Key>, ghost bits: nat, off: nat, n: nat, base: nat,
                   perBlock: nat, depth: nat)
    requires ValidTrie(t) && KeyRange(keys, bits, off, n, depth) && out.Valid()
    modifies out, out.buf
    ensures out.Valid() && (fresh(out.buf) || out.buf == old(out.buf))
    ensures out.Contents() == old(out.Contents()) + TrieCode(t, keys, bits, off, n, base, perBlock, depth)
    decreases bits - depth
  {
    hide ValidTrie, SizeCode, Pow2, Window, Get, Unwritten, KeyRange, Less, TrieCode, LeftCount;
    ghost var start := out.Contents();
    if n <= 1 {
      EmptyCode(t, keys, bits, off, n, base, perBlock, depth);
      return;
    }
    if n <= perBlock && (base + off) / perBlock == (base + off + n - 1) / perBlock {
      EmptyCode(t, keys, bits, off, n, base, perBlock, depth);
      return;
    }
    WrittenRun(keys, bits, off, n, base, perBlock, depth);
    WrittenCode(t, keys, bits, off, n, base, perBlock, depth);
    var left := FindLeft(keys, bits, off, n, depth);
    EncodeSize(t, out, n, left);
    EncodeRec(t, out, keys, bits, off, left, base, perBlock, depth + 1);
    EncodeRec(t, out, keys, bits, off + left, n - left, base, perBlock, depth + 1);
    ThreeParts(start, SizeCode(t, n, left), TrieCode(t, keys, bits, off, left, base, perBlock, depth + 1),
               TrieCode(t, keys, bits, off + left, n - left, base, perBlock, depth + 1));
  }

  lemma ThreeParts(start: seq<bool>, a: seq<bool>, b: seq<bool>, c: seq<bool>)
    ensures start + a + b + c == start + (a + b + c)
  {
  }

  method FindLeft(keys: seq<Key>, ghost bits: nat, off: nat, n: nat, depth: nat) returns (left: nat)
    requires KeyRange(keys, bits, off, n, depth) && depth < bits
    ensures left == LeftCount(keys, off, n, depth)
  {
    left := 0;
    while left < n
      invariant 0 <= left <= n
      invariant LeftCount(keys, off, n, depth) == left + LeftCount(keys, off + left, n - left, depth)
    {
      if keys[off + left][depth] {
        return;
      }
      left := left + 1;
    }
  }

  lemma EmptyCode(t: Trie, keys: seq<Key>, bits: nat, off: nat, n: nat, base: nat, perBlock: nat, depth: nat)
    requires ValidTrie(t) && KeyRange(keys, bits, off, n, depth)
    requires n <= 1 || (n <= perBlock && (base + off) / perBlock == (base + off + n - 1) / perBlock)
    ensures TrieCode(t, keys, bits, off, n, base, perBlock, depth) == []
    ensures forall key: Key :: |key| == bits ==> Unread(t, keys, bits, off, n, base, perBlock, depth, key) == 0
  {
    hide ValidTrie, KeyRange, SizeCode;
  }

  /** A run that something is written for splits. */
  lemma WrittenRun(keys: seq<Key>, bits: nat, off: nat, n: nat, base: nat, perBlock: nat, depth: nat)
    requires KeyRange(keys, bits, off, n, depth)
    requires n > 1 && !(n <= perBlock && (base + off) / perBlock == (base + off + n - 1) / perBlock)
    ensures depth < bits && n < Pow2(WORD) - 1 && off + n <= |keys|
    ensures forall i :: off <= i < off + n ==> depth < |keys[i]|
    ensures KeyRange(keys, bits, off, LeftCount(keys, off, n, depth), depth + 1)
    ensures KeyRange(keys, bits, off + LeftCount(keys, off, n, depth), n - LeftCount(keys, off, n, depth), depth + 1)
  {
    hide KeyRange, Pow2, LeftCount;
    RangeBounds(keys, bits, off, n, depth);
    SomeBitLeft(keys, bits, off, n, depth);
    SplitRange(keys, bits, off, n, depth);
  }

  lemma WrittenCode(t: Trie, keys: seq<Key>, bits: nat, off: nat, n: nat, base: nat, perBlock: nat, depth: nat)
    requires ValidTrie(t) && KeyRange(keys, bits, off, n, depth)
    requires n > 1 && !(n <= perBlock && (base + off) / perBlock == (base + off + n - 1) / perBlock)
    requires depth < bits && n < Pow2(WORD) - 1 && off + n <= |keys|
    requires forall i :: off <= i < off + n ==> depth < |keys[i]|
    requires KeyRange(keys, bits, off, LeftCount(keys, off, n, depth), depth + 1)
    requires KeyRange(keys, bits, off + LeftCount(keys, off, n, depth), n - LeftCount(keys, off, n, depth), depth + 1)
    ensures var left := LeftCount(keys, off, n, depth);
            && TrieCode(t, keys, bits, off, n, base, perBlock, depth) ==
               SizeCode(t, n, left) + TrieCode(t, keys, bits, off, left, base, perBlock, depth + 1)
                                    + TrieCode(t, keys, bits, off + left, n - left, base, perBlock, depth + 1)
  {
    hide ValidTrie, KeyRange, SizeCode, Pow2, LeftCount;
  }

  lemma RangeBounds(keys: seq<Key>, bits: nat, off: nat, n: nat, depth: nat)
    requires KeyRange(keys, bits, off, n, depth)
    ensures off + n <= |keys| && n < Pow2(WORD) - 1 && forall i :: off <= i < off + n ==> |keys[i]| == bits
  {
  }

  /** A code made of three parts is held where its parts are held one after the other. */
  lemma HoldsThree(bits: seq<bool>, iter: nat, a: seq<bool>, b: seq<bool>, c: seq<bool>)
    requires Holds(bits, iter, a + b + c)
    ensures Holds(bits, iter, a) && Holds(bits, iter + |a|, b) && Holds(bits, iter + |a| + |b|, c)
  {
    HoldsParts(bits, iter, a + b, c);
    HoldsParts(bits, iter, a, b);
  }

  /** skip_rec: passes over exactly the bits that encode_rec wrote. */
  method SkipRec(t: Trie, buf: BitVector, iter: nat, off: nat, n: nat, base: nat, perBlock: nat, depth: nat,
                 ghost keys: seq<Key>, ghost bits: nat) returns (next: nat)
    requires ValidTrie(t) && KeyRange(keys, bits, off, n, depth) && buf.Valid()
    requires Holds(buf.Contents(), iter, TrieCode(t, keys, bits, off, n, base, perBlock, depth))
    ensures next == iter + |TrieCode(t, keys, bits, off, n, base, perBlock, depth)|
    decreases bits - depth
  {
    hide ValidTrie, SizeCode, Pow2, Window, Unwritten, KeyRange, Less, Holds, TrieCode;
    next := iter;
    if n <= 1 {
      EmptyCode(t, keys, bits, off, n, base, perBlock, depth);
      return;
    }
    if n <= perBlock && (base + off) / perBlock == (base + off + n - 1) / perBlock {
      EmptyCode(t, keys, bits, off, n, base, perBlock, depth);
      return;
    }
    WrittenRun(keys, bits, off, n, base, perBlock, depth);
    WrittenCode(t, keys, bits, off, n, base, perBlock, depth);
    ghost var l := LeftCount(keys, off, n, depth);
    HoldsThree(buf.Contents(), iter, SizeCode(t, n, l), TrieCode(t, keys, bits, off, l, base, perBlock, depth + 1),
               TrieCode(t, keys, bits, off + l, n - l, base, perBlock, depth + 1));
    var left: nat;
    left, next := DecodeSize(t, buf, iter, n, l);
    assert left <= n;
    next := SkipRec(t, buf, next, off, left, base, perBlock, depth + 1, keys, bits);
    next := SkipRec(t, buf, next, off + left, n - left, base, perBlock, depth + 1, keys, bits);
  }

  /** Ranks that lead to the same place: equal, or in one destination block. */
  ghost predicate SamePlace(base: nat, perBlock: nat, i: nat, j: nat) {
    i == j || (perBlock > 0 && (base + i) / perBlock == (base + j) / perBlock)
  }

  /** locate_rec: for a key of the run, its rank, or with several keys to a destination block the rank of
      a key in the same block; for any key, a rank at most n. The bits left unread are those of the right
      subtrees beside the path. */
  method LocateRec(t: Trie, buf: BitVector, iter: nat, key: Key, off: nat, n: nat, base: nat, perBlock: nat, depth: nat,
                   ghost keys: seq<Key>, ghost bits: nat) returns (rank: nat, next: nat)
    requires ValidTrie(t) && KeyRange(keys, bits, off, n, depth) && buf.Valid() && |key| == bits
    requires Holds(buf.Contents(), iter, TrieCode(t, keys, bits, off, n, base, perBlock, depth))
    ensures rank <= n
    ensures forall i :: off <= i < off + n && keys[i] == key ==> SamePlace(base, perBlock, off + rank, i)
    ensures next + Unread(t, keys, bits, off, n, base, perBlock, depth, key) ==
            iter + |TrieCode(t, keys, bits, off, n, base, perBlock, depth)|
    decreases bits - depth
  {
    hide ValidTrie, SizeCode, Pow2, Window, Unwritten, KeyRange, Less, Holds, TrieCode, SamePlace, Unread;
    next := iter;
    if n <= 1 {
      EmptyCode(t, keys, bits, off, n, base, perBlock, depth);
      forall i | off <= i < off + n ensures SamePlace(base, perBlock, off, i) { OnePlace(base, perBlock, off, n, i); }
      return 0, next;
    }
    if n <= perBlock && (base + off) / perBlock == (base + off + n - 1) / perBlock {
      EmptyCode(t, keys, bits, off, n, base, perBlock, depth);
      forall i | off <= i < off + n ensures SamePlace(base, perBlock, off, i) { OnePlace(base, perBlock, off, n, i); }
      return 0, next;
    }
    WrittenRun(keys, bits, off, n, base, perBlock, depth);
    WrittenCode(t, keys, bits, off, n, base, perBlock, depth);
    ghost var l := LeftCount(keys, off, n, depth);
    HoldsThree(buf.Contents(), iter, SizeCode(t, n, l), TrieCode(t, keys, bits, off, l, base, perBlock, depth + 1),
               TrieCode(t, keys, bits, off + l, n - l, base, perBlock, depth + 1));
    UnreadStep(t, keys, bits, off, n, base, perBlock, depth, key);
    SplitRange(keys, bits, off, n, depth);
    var left: nat;
    left, next := DecodeSize(t, buf, iter, n, l);
    assert left <= n;
    if !key[depth] {
      rank, next := LocateRec(t, buf, next, key, off, left, base, perBlock, depth + 1, keys, bits);
    } else {
      next := SkipRec(t, buf, next, off, left, base, perBlock, depth + 1, keys, bits);
      rank, next := LocateRec(t, buf, next, key, off + left, n - left, base, perBlock, depth + 1, keys, bits);
      rank := left + rank;
    }
  }

  lemma UnreadStep(t: Trie, keys: seq<Key>, bits: nat, off: nat, n: nat, base: nat, perBlock: nat, depth: nat, key: Key)
    requires ValidTrie(t) && KeyRange(keys, bits, off, n, depth) && |key| == bits && depth < bits
    requires off + n <= |keys| && forall i :: off <= i < off + n ==> depth < |keys[i]|
    requires n > 1 && !(n <= perBlock && (base + off) / perBlock == (base + off + n - 1) / perBlock)
    requires KeyRange(keys, bits, off, LeftCount(keys, off, n, depth), depth + 1)
    requires KeyRange(keys, bits, off + LeftCount(keys, off, n, depth), n - LeftCount(keys, off, n, depth), depth + 1)
    ensures var left := LeftCount(keys, off, n, depth);
            Unread(t, keys, bits, off, n, base, perBlock, depth, key) ==
            if key[depth] then Unread(t, keys, bits, off + left, n - left, base, perBlock, depth + 1, key)
            else Unread(t, keys, bits, off, left, base, perBlock, depth + 1, key)
                 + |TrieCode(t, keys, bits, off + left, n - left, base, perBlock, depth + 1)|
  {
    hide ValidTrie, KeyRange, SizeCode, Pow2, TrieCode, LeftCount;
  }

  lemma OnePlace(base: nat, perBlock: nat, off: nat, n: nat, i: nat)
    requires n <= 1 || (n <= perBlock && (base + off) / perBlock == (base + off + n - 1) / perBlock)
    requires off <= i < off + n
    ensures SamePlace(base, perBlock, off, i)
  {
    if n > 1 {
      QuotientGrows(base + off, base + i, perBlock);
      QuotientGrows(base + i, base + off + n - 1, perBlock);
    }
  }

  lemma QuotientGrows(a: nat, b: nat, d: nat)
    requires d > 0 && a <= b
    ensures a / d <= b / d
  {
    var p, q := a / d, b / d;
    assert a == p * d + a % d && b == q * d + b % d;
    assert p > q ==> p * d >= (q + 1) * d;
    assert (q + 1) * d == q * d + d;
  }

  /** With at most one key to a block, nothing but the key's own rank is in its place. */
  lemma OwnPlace(base: nat, perBlock: nat, i: nat, j: nat)
    requires perBlock <= 1
    ensures SamePlace(base, perBlock, i, j) <==> i == j
  {
  }

  /** encode followed by locate, for every sorted array of distinct keys and every member; and when the search
      has read everything that was written. */
  method EncodeThenLocate(t: Trie, keys: seq<Key>, bits: nat, base: nat, perBlock: nat, i: nat)
    returns (rank: nat, unread: nat)
    requires ValidTrie(t) && KeyRange(keys, bits, 0, |keys|, 0) && i < |keys|
    ensures rank <= |keys| && SamePlace(base, perBlock, rank, i) && (perBlock <= 1 ==> rank == i)
    ensures unread == 0 <==> RightsUnwritten(keys, bits, 0, |keys|, base, perBlock, 0, keys[i])
  {
    hide ValidTrie, SizeCode, Pow2, Window, Less, TrieCode, SamePlace, Unread, RightsUnwritten;
    var buf := new BitVector(8);
    EncodeRec(t, buf, keys, bits, 0, |keys|, base, perBlock, 0);
    var next;
    ghost var code := TrieCode(t, keys, bits, 0, |keys|, base, perBlock, 0);
    assert [] + code == code && code[0..|code|] == code;
    rank, next := LocateRec(t, buf, 0, keys[i], 0, |keys|, base, perBlock, 0, keys, bits);
    assert keys[i] == keys[i] && SamePlace(base, perBlock, 0 + rank, i);
    ReadsAllIff(t, keys, bits, 0, |keys|, base, perBlock, 0, keys[i]);
    assert |buf.Contents()| == buf.size;
    unread := buf.size - next;
    if perBlock <= 1 {
      OwnPlace(base, perBlock, rank, i);
    }
  }

  /** huffman_buffer: a coder for each n up to the limit, weighted by how often a fair split of n keys
      leaves each size. */
  method MakeTrie(limit: nat) returns (t: Trie)
    ensures ValidTrie(t) && |t.coders| == if limit < 2 then 0 else limit - 1
  {
    hide ValidCoder;
    var coders: seq<Coder> := [];
    var n := 2;
    while n <= limit
      invariant n == |coders| + 2 && (limit >= 2 ==> n <= limit + 1) && (limit < 2 ==> n == 2)
      invariant forall k :: 0 <= k < |coders| ==> ValidCoder(coders[k]) && coders[k].n == k + 3
    {
      var weights: seq<real> := [1.0];
      var v, k := 1, 1;
      while k <= n
        invariant 1 <= k <= n + 1 && |weights| == k
      {
        v := v * (n - k + 1) / k;
        weights := weights + [v as real];
        k := k + 1;
      }
      var c := MakeCoder(weights);
      coders := coders + [c];
      n := n + 1;
    }
    t := Trie(coders);
  }
}
