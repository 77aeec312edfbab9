/** Bit strings kept in fixed-width blocks: bit_access.h and bit_vector.h of external/pdlfs-common's
    ectrie. A block is the sequence of its bits, most significant first. */
module BitVectors {
  import opened ByteBits
  import NumberTheory

  type Block = seq<bool>

  function Clear(n: nat): (s: seq<bool>)
    ensures |s| == n && forall i :: 0 <= i < n ==> !s[i]
  {
    seq(n, _ => false)
  }

  /** v << k, keeping the width. */
  function ShiftLeft(v: Block, k: nat): (r: Block)
    requires k <= |v|
    ensures |r| == |v| && forall i :: 0 <= i < |v| ==> r[i] == (i + k < |v| && v[i + k])
  {
    v[k..] + Clear(k)
  }

  /** v >> k. */
  function ShiftRight(v: Block, k: nat): (r: Block)
    requires k <= |v|
    ensures |r| == |v| && forall i :: 0 <= i < |v| ==> r[i] == (i >= k && v[i - k])
  {
    Clear(k) + v[..|v| - k]
  }

  /** Conversion to a block of another width keeps the low bits. */
  function Cast(v: Block, width: nat): (r: Block)
    ensures |r| == width
    ensures forall i :: 0 <= i < width ==> r[i] == (i + |v| >= width && v[i + |v| - width])
  {
    if width >= |v| then Clear(width - |v|) + v else v[|v| - width..]
  }

  function Or(a: Block, b: Block): (r: Block)
    requires |a| == |b|
    ensures |r| == |a| && forall i :: 0 <= i < |a| ==> r[i] == (a[i] || b[i])
  {
    seq(|a|, i requires 0 <= i < |a| => a[i] || b[i])
  }

  function Not(a: Block): (r: Block)
    ensures |r| == |a| && forall i :: 0 <= i < |a| ==> r[i] == !a[i]
  {
    seq(|a|, i requires 0 <= i < |a| => !a[i])
  }

  function And(a: Block, b: Block): (r: Block)
    requires |a| == |b|
    ensures |r| == |a| && forall i :: 0 <= i < |a| ==> r[i] == (a[i] && b[i])
  {
    seq(|a|, i requires 0 <= i < |a| => a[i] && b[i])
  }

  /** The number 1. */
  function One(width: nat): (r: Block)
    requires width > 0
    ensures |r| == width && forall i :: 0 <= i < width ==> r[i] == (i == width - 1)
  {
    Clear(width - 1) + [true]
  }

  ghost predicate Blocks(buf: seq<Block>, width: nat) {
    forall k :: 0 <= k < |buf| ==> |buf[k]| == width
  }

  /** block_index and in_block_offset. */
  function BlockIndex(i: nat, width: nat): nat
    requires width > 0
  {
    i / width
  }

  function InBlockOffset(i: nat, width: nat): nat
    requires width > 0
  {
    i % width
  }

  lemma Parts(i: nat, width: nat)
    requires width > 0
    ensures i == BlockIndex(i, width) * width + InBlockOffset(i, width) && InBlockOffset(i, width) < width
  {
  }

  lemma PartsAreUnique(q: nat, r: nat, width: nat)
    requires r < width
    ensures BlockIndex(q * width + r, width) == q && InBlockOffset(q * width + r, width) == r
  {
    hide BlockIndex, InBlockOffset;
    var i := q * width + r;
    Parts(i, width);
    var d := BlockIndex(i, width) - q;
    assert d * width == r - InBlockOffset(i, width);
    assert d >= 1 ==> d * width >= width;
    assert d <= -1 ==> d * width <= 0 - width;
  }

  lemma InRange(i: nat, n: nat, width: nat)
    requires width > 0 && i < n * width
    ensures BlockIndex(i, width) < n && InBlockOffset(i, width) < width
  {
    hide BlockIndex, InBlockOffset;
    Parts(i, width);
    var q := BlockIndex(i, width);
    assert q >= n ==> q * width >= n * width;
  }

  /** get: bit i of a run of blocks. */
  predicate Get(buf: seq<Block>, width: nat, i: nat)
    requires width > 0 && Blocks(buf, width) && i < |buf| * width
  {
    InRange(i, |buf|, width);
    buf[BlockIndex(i, width)][InBlockOffset(i, width)]
  }

  lemma GetAt(buf: seq<Block>, width: nat, q: nat, r: nat)
    requires width > 0 && Blocks(buf, width) && q < |buf| && r < width
    ensures q * width + r < |buf| * width && Get(buf, width, q * width + r) == buf[q][r]
  {
    hide BlockIndex, InBlockOffset;
    assert (q + 1) * width <= |buf| * width;
    PartsAreUnique(q, r, width);
  }

  /** set and unset: bit i of the blocks. */
  method SetBit(buf: array<Block>, width: nat, i: nat, b: bool)
    requires width > 0 && Blocks(buf[..], width) && i < buf.Length * width
    modifies buf
    ensures Blocks(buf[..], width)
    ensures forall j: nat :: j < buf.Length * width ==>
              Get(buf[..], width, j) == if j == i then b else old(Get(buf[..], width, j))
  {
    hide BlockIndex, InBlockOffset, Get;
    InRange(i, buf.Length, width);
    ghost var before := buf[..];
    var q, r := BlockIndex(i, width), InBlockOffset(i, width);
    buf[q] := buf[q][r := b];
    forall j: nat | j < buf.Length * width
      ensures Get(buf[..], width, j) == if j == i then b else Get(before, width, j)
    {
      UpdatedAt(before, buf[..], width, i, b, j);
    }
  }

  lemma UpdatedAt(before: seq<Block>, after: seq<Block>, width: nat, i: nat, b: bool, j: nat)
    requires width > 0 && Blocks(before, width) && i < |before| * width && j < |before| * width
    requires BlockIndex(i, width) < |before| && InBlockOffset(i, width) < width
    requires after == before[BlockIndex(i, width) := before[BlockIndex(i, width)][InBlockOffset(i, width) := b]]
    ensures Blocks(after, width) && Get(after, width, j) == if j == i then b else Get(before, width, j)
  {
    hide BlockIndex, InBlockOffset;
    InRange(j, |before|, width);
    Parts(i, width);
    Parts(j, width);
  }

  /** One round of copy_set: len bits of a source block, from s on, land in a block from d on. */
  function MergeBits(dest: Block, d: nat, src: Block, s: nat, len: nat): (r: Block)
    requires 0 < len && d + len <= |dest| && s + len <= |src|
    ensures |r| == |dest|
    ensures forall j :: 0 <= j < |dest| ==> r[j] == (dest[j] || (d <= j < d + len && src[s + j - d]))
  {
    var aligned := ShiftRight(ShiftLeft(src, s), |src| - len);
    Or(dest, ShiftLeft(Cast(aligned, |dest|), |dest| - d - len))
  }

  /** What is in the destination once the bits before position d have been copied. */
  ghost predicate Copied(now: seq<Block>, before: seq<Block>, width: nat, from: nat, d: nat,
                         src: seq<Block>, srcWidth: nat, s: nat)
    requires width > 0 && srcWidth > 0 && Blocks(now, width) && Blocks(before, width) && Blocks(src, srcWidth)
    requires |now| == |before| && from <= d && s + (d - from) <= |src| * srcWidth
  {
    forall j: nat :: j < |now| * width ==>
      Get(now, width, j) == (Get(before, width, j) || (from <= j < d && Get(src, srcWidth, s + (j - from))))
  }

  lemma CopyRound(now: seq<Block>, next: seq<Block>, before: seq<Block>, width: nat, from: nat, q: nat, r: nat,
                  src: seq<Block>, srcWidth: nat, s: nat, p: nat, t: nat, len: nat)
    requires width > 0 && srcWidth > 0 && Blocks(now, width) && Blocks(before, width) && Blocks(src, srcWidth)
    requires |now| == |before| && q < |now| && p < |src|
    requires 0 < len && r + len <= width && t + len <= srcWidth
    requires next == now[q := MergeBits(now[q], r, src[p], t, len)]
    requires from <= q * width + r && p * srcWidth + t == s + (q * width + r - from)
    requires p * srcWidth + t + len <= |src| * srcWidth
    requires Copied(now, before, width, from, q * width + r, src, srcWidth, s)
    ensures Blocks(next, width)
    ensures Copied(next, before, width, from, q * width + r + len, src, srcWidth, s)
  {
    hide MergeBits, Get;
    var d := q * width + r;
    var e := p * srcWidth + t;
    forall j: nat | j < |now| * width
      ensures Get(next, width, j) ==
              (Get(before, width, j) || (from <= j < d + len && Get(src, srcWidth, s + (j - from))))
    {
      MergedAt(now, next, width, q, r, src[p], t, len, j);
      if d <= j < d + len {
        GetAt(src, srcWidth, p, t + (j - d));
      }
    }
  }

  /** The effect of a round on bit j, counted over all blocks. */
  lemma MergedAt(now: seq<Block>, next: seq<Block>, width: nat, q: nat, r: nat, block: Block, t: nat, len: nat, j: nat)
    requires width > 0 && Blocks(now, width) && q < |now| && j < |now| * width
    requires 0 < len && r + len <= width && t + len <= |block|
    requires next == now[q := MergeBits(now[q], r, block, t, len)]
    ensures Blocks(next, width)
    ensures var d := q * width + r;
            Get(next, width, j) == (Get(now, width, j) || (d <= j < d + len && block[t + (j - d)]))
  {
    hide MergeBits, BlockIndex, InBlockOffset;
    var k, o := BlockIndex(j, width), InBlockOffset(j, width);
    InRange(j, |now|, width);
    SameBlock(j, q, width);
    var merged := MergeBits(now[q], r, block, t, len);
    assert merged[o] == (now[q][o] || (r <= o < r + len && block[t + o - r]));
    if k == q {
      assert next[k][o] == merged[o];
    } else {
      assert next[k][o] == now[k][o];
    }
  }

  lemma SameBlock(j: nat, q: nat, width: nat)
    requires width > 0
    ensures BlockIndex(j, width) == q ==> j == q * width + InBlockOffset(j, width)
    ensures BlockIndex(j, width) < q ==> j < q * width
    ensures BlockIndex(j, width) > q ==> j >= q * width + width
  {
    hide BlockIndex, InBlockOffset;
    Parts(j, width);
    var k := BlockIndex(j, width);
    assert k < q ==> (k + 1) * width <= q * width;
    assert k > q ==> (q + 1) * width <= k * width;
  }

  /** copy_set: ors count bits of the source, from s on, into the destination, from d on. */
  method CopySet(dest: array<Block>, width: nat, from: nat, src: seq<Block>, srcWidth: nat, s: nat, count: nat)
    requires width > 0 && srcWidth > 0 && Blocks(dest[..], width) && Blocks(src, srcWidth)
    requires from + count <= dest.Length * width && s + count <= |src| * srcWidth
    modifies dest
    ensures Blocks(dest[..], width)
    ensures Copied(dest[..], old(dest[..]), width, from, from + count, src, srcWidth, s)
  {
    hide Get, MergeBits, Copied, BlockIndex, InBlockOffset;
    ghost var before := dest[..];
    var q, r := BlockIndex(from, width), InBlockOffset(from, width);
    var p, t := BlockIndex(s, srcWidth), InBlockOffset(s, srcWidth);
    var left := count;
    Parts(from, width);
    Parts(s, srcWidth);
    NothingCopied(before, width, from, src, srcWidth, s);
    while left != 0
      invariant 0 <= left <= count && 0 <= q && 0 <= p && 0 <= r < width && 0 <= t < srcWidth
      invariant q * width + r == from + (count - left) && p * srcWidth + t == s + (count - left)
      invariant Blocks(dest[..], width)
      invariant Copied(dest[..], before, width, from, from + (count - left), src, srcWidth, s)
    {
      var destAvailable, srcAvailable := width - r, srcWidth - t;
      var len := if destAvailable < srcAvailable then destAvailable else srcAvailable;
      len := if len < left then len else left;
      BlockExists(q, r, width, dest.Length);
      BlockExists(p, t, srcWidth, |src|);
      ghost var now := dest[..];
      dest[q] := MergeBits(dest[q], r, src[p], t, len);
      CopyRound(now, dest[..], before, width, from, q, r, src, srcWidth, s, p, t, len);
      NextBlock(q, width);
      NextBlock(p, srcWidth);
      if destAvailable == len {
        q, r := q + 1, 0;
      } else {
        r := r + len;
      }
      if srcAvailable == len {
        p, t := p + 1, 0;
      } else {
        t := t + len;
      }
      left := left - len;
    }
  }

  lemma NothingCopied(now: seq<Block>, width: nat, from: nat, src: seq<Block>, srcWidth: nat, s: nat)
    requires width > 0 && srcWidth > 0 && Blocks(now, width) && Blocks(src, srcWidth) && s <= |src| * srcWidth
    ensures Copied(now, now, width, from, from, src, srcWidth, s)
  {
  }

  lemma BlockExists(q: nat, r: nat, width: nat, n: nat)
    requires r < width && q * width + r < n * width
    ensures q < n
  {
    assert q >= n ==> q * width >= n * width;
  }

  lemma NextBlock(q: nat, width: nat)
    ensures (q + 1) * width == q * width + width
  {
  }

  // ----- Numbers as blocks

  /** The number whose binary digits are b. */
  function Number(b: Block): nat {
    if b == [] then 0 else 2 * Number(b[..|b| - 1]) + if b[|b| - 1] then 1 else 0
  }

  /** The low len binary digits of v. */
  function Digits(v: nat, len: nat): (b: Block)
    ensures |b| == len
  {
    if len == 0 then [] else Digits(v / 2, len - 1) + [v % 2 == 1]
  }

  lemma {:induction false} NumberOfDigits(v: nat, len: nat)
    requires v < Pow2(len)
    ensures Number(Digits(v, len)) == v
  {
    if len > 0 {
      NumberOfDigits(v / 2, len - 1);
      assert Digits(v, len)[..len - 1] == Digits(v / 2, len - 1);
    }
  }

  /** The low bits of a wide block are the digits of the narrow one. */
  lemma {:induction false} LowDigits(v: nat, wide: nat, len: nat)
    requires len <= wide
    ensures Digits(v, wide)[wide - len..] == Digits(v, len)
    decreases len
  {
    if len > 0 {
      LowDigits(v / 2, wide - 1, len - 1);
      assert Digits(v, wide)[wide - len..] == Digits(v / 2, wide - 1)[wide - len..] + [v % 2 == 1];
    }
  }

  /** Leading zeros do not change the number. */
  lemma {:induction false} NumberPadded(n: nat, b: Block)
    ensures Number(Clear(n) + b) == Number(b)
    decreases n + |b|
  {
    var c := Clear(n) + b;
    if b != [] {
      NumberPadded(n, b[..|b| - 1]);
      assert c[..|c| - 1] == Clear(n) + b[..|b| - 1];
    } else if n > 0 {
      NumberPadded(n - 1, []);
      assert c[..|c| - 1] == Clear(n - 1) + [];
    }
  }

  // ----- Bit vectors

  /** block_count. */
  function BlockCount(n: nat, width: nat): nat
    requires width > 0
  {
    (n + width - 1) / width
  }

  lemma BlocksHold(n: nat, width: nat)
    requires width > 0
    ensures n <= BlockCount(n, width) * width
  {
    var m := n + width - 1;
    assert m == BlockCount(n, width) * width + m % width;
  }

  /** len bits of a run of blocks, from position i on. */
  function Window(buf: seq<Block>, width: nat, i: nat, len: nat): (s: seq<bool>)
    requires width > 0 && Blocks(buf, width) && i + len <= |buf| * width
    ensures |s| == len && forall k :: 0 <= k < len ==> s[k] == Get(buf, width, i + k)
  {
    seq(len, k requires 0 <= k < len => Get(buf, width, i + k))
  }

  lemma WindowOfWord(v: Block, i: nat, len: nat)
    requires |v| > 0 && i + len <= |v|
    ensures Window([v], |v|, i, len) == v[i..i + len]
  {
    forall k | 0 <= k < len ensures Window([v], |v|, i, len)[k] == v[i..i + len][k] {
      GetAt([v], |v|, 0, i + k);
    }
  }

  /** After copying, the destination holds its old bits and behind them the source's. */
  lemma CopiedWindow(now: seq<Block>, before: seq<Block>, width: nat, from: nat, src: seq<Block>, srcWidth: nat,
                     s: nat, len: nat)
    requires width > 0 && srcWidth > 0 && Blocks(now, width) && Blocks(before, width) && Blocks(src, srcWidth)
    requires |now| == |before| && from + len <= |now| * width && s + len <= |src| * srcWidth
    requires Copied(now, before, width, from, from + len, src, srcWidth, s)
    requires forall i: nat :: from <= i < |before| * width ==> !Get(before, width, i)
    ensures Window(now, width, 0, from + len) == Window(before, width, 0, from) + Window(src, srcWidth, s, len)
    ensures forall i: nat :: from + len <= i < |now| * width ==> !Get(now, width, i)
  {
    hide Get;
    var x, y := Window(now, width, 0, from + len), Window(before, width, 0, from) + Window(src, srcWidth, s, len);
    forall k | 0 <= k < from + len ensures x[k] == y[k] {
      assert x[k] == Get(now, width, 0 + k);
      if k >= from { assert y[k] == Get(src, srcWidth, s + (k - from)); }
    }
  }

  class BitVector {
    const width: nat
    var buf: array<Block>
    var size: nat
    var capacity: nat

    ghost predicate Valid()
      reads this, buf
    {
      && width > 0 && size <= capacity <= buf.Length * width && Blocks(buf[..], width)
      && forall i: nat :: size <= i < buf.Length * width ==> !Get(buf[..], width, i)
    }

    ghost function Contents(): seq<bool>
      reads this, buf
      requires Valid()
    {
      Window(buf[..], width, 0, size)
    }

    constructor (width: nat)
      requires width > 0
      ensures Valid() && Contents() == [] && fresh(buf) && this.width == width
    {
      this.width, size, capacity := width, 0, 8;
      buf := new Block[BlockCount(8, width)](_ => Clear(width));
      new;
      BlocksHold(8, width);
      forall i: nat | i < buf.Length * width ensures !Get(buf[..], width, i) {
        InRange(i, buf.Length, width);
      }
    }

    /** Reallocates for the current capacity; blocks past the old ones are clear. */
    method Resize()
      requires width > 0 && size <= capacity && size <= buf.Length * width && Blocks(buf[..], width)
      requires forall i: nat :: size <= i < buf.Length * width ==> !Get(buf[..], width, i)
      modifies this`buf
      ensures Valid() && fresh(buf) && Contents() == old(Window(buf[..], width, 0, size))
    {
      hide Get, BlockIndex, InBlockOffset, BlockCount;
      BlocksHold(capacity, width);
      var old_buf := buf;
      var n := BlockCount(capacity, width);
      var next := new Block[n](_ => Clear(width));
      var k := 0;
      while k < n && k < old_buf.Length
        invariant 0 <= k <= n && k <= old_buf.Length && Blocks(next[..], width)
        invariant forall i :: 0 <= i < k ==> next[i] == old_buf[i]
        invariant forall i :: k <= i < n ==> next[i] == Clear(width)
      {
        next[k] := old_buf[k];
        k := k + 1;
      }
      ghost var before, after := old_buf[..], next[..];
      forall i: nat | i < n * width
        ensures Get(after, width, i) == (i < |before| * width && Get(before, width, i))
      {
        CopiedBlocks(before, after, width, k, i);
      }
      buf := next;
      SameWindow(before, after, width, size);
    }

    /** Makes room for so many bits, doubling the capacity. */
    method Grow(target: nat)
      requires Valid()
      modifies this`buf, this`capacity
      ensures Valid() && target <= capacity && Contents() == old(Contents())
      ensures fresh(buf) || buf == old(buf)
    {
      hide Get, Window;
      if target > capacity {
        var c := if capacity == 0 then 1 else capacity;
        while target > c
          invariant c > 0 && size <= c
          decreases target - c
        {
          c := 2 * c;
        }
        capacity := c;
        Resize();
      }
    }

    method PushBack(b: bool)
      requires Valid()
      modifies this, buf
      ensures Valid() && Contents() == old(Contents()) + [b]
      ensures fresh(buf) || buf == old(buf)
    {
      hide Get, Window;
      if size == capacity {
        capacity := if capacity == 0 then 1 else 2 * capacity;
        Resize();
      }
      ghost var before := buf[..];
      if b {
        SetBit(buf, width, size, true);
      }
      PushedWindow(before, buf[..], width, size, b);
      size := size + 1;
    }

    /** operator[]. */
    method Bit(i: nat) returns (b: bool)
      requires Valid() && i < size
      ensures b == Contents()[i]
    {
      InRange(i, buf.Length, width);
      assert Contents()[i] == Get(buf[..], width, 0 + i);
      b := buf[BlockIndex(i, width)][InBlockOffset(i, width)];
    }

    /** append(ptr, i, len): len bits of a run of blocks. */
    method AppendBlocks(src: seq<Block>, srcWidth: nat, i: nat, len: nat)
      requires Valid() && srcWidth > 0 && Blocks(src, srcWidth) && i + len <= |src| * srcWidth
      modifies this, buf
      ensures Valid() && Contents() == old(Contents()) + Window(src, srcWidth, i, len)
      ensures fresh(buf) || buf == old(buf)
    {
      hide Get, Window, Copied;
      Grow(size + len);
      ghost var grown := buf[..];
      CopySet(buf, width, size, src, srcWidth, i, len);
      CopiedWindow(buf[..], grown, width, size, src, srcWidth, i, len);
      size := size + len;
    }

    /** append(v, len): the low len bits of a word. */
    method AppendWord(v: Block, len: nat)
      requires Valid() && len <= |v| && |v| > 0
      modifies this, buf
      ensures Valid() && Contents() == old(Contents()) + v[|v| - len..]
      ensures fresh(buf) || buf == old(buf)
    {
      hide Get, Window;
      AppendBlocks([v], |v|, |v| - len, len);
      WindowOfWord(v, |v| - len, len);
      assert v[|v| - len..|v|] == v[|v| - len..];
    }

    /** get<T>(i, len): len bits as the low bits of a word of the given width. */
    method GetWord(i: nat, len: nat, wordWidth: nat) returns (v: Block)
      requires Valid() && i + len <= size && len <= wordWidth && wordWidth > 0
      ensures v == Clear(wordWidth - len) + Contents()[i..i + len]
    {
      hide Get, Window, Copied;
      var word := new Block[1](_ => Clear(wordWidth));
      ghost var zero := word[..];
      assert zero == [Clear(wordWidth)];
      ClearBits(wordWidth);
      CopySet(word, wordWidth, wordWidth - len, buf[..], width, i, len);
      CopiedWindow(word[..], zero, wordWidth, wordWidth - len, buf[..], width, i, len);
      v := word[0];
      assert word[..] == [v];
      WindowOfWord(v, 0, wordWidth);
      WindowOfWord(Clear(wordWidth), 0, wordWidth - len);
      SubWindow(buf[..], width, size, i, len);
      assert v[0..wordWidth] == v;
      assert Clear(wordWidth)[0..wordWidth - len] == Clear(wordWidth - len);
    }

    /** Gives back the room past the last bit. */
    method Compact()
      requires Valid()
      modifies this
      ensures fresh(buf) || buf == old(buf)
      ensures Valid() && Contents() == old(Contents())
    {
      if size != capacity {
        capacity := size;
        Resize();
      }
    }
  }

  lemma SameWindow(before: seq<Block>, after: seq<Block>, width: nat, n: nat)
    requires width > 0 && Blocks(before, width) && Blocks(after, width)
    requires n <= |before| * width && n <= |after| * width
    requires forall i: nat :: i < n ==> Get(after, width, i) == Get(before, width, i)
    ensures Window(after, width, 0, n) == Window(before, width, 0, n)
  {
    hide Get;
    var x, y := Window(after, width, 0, n), Window(before, width, 0, n);
    forall k | 0 <= k < n ensures x[k] == y[k] {
      assert x[k] == Get(after, width, 0 + k) && y[k] == Get(before, width, 0 + k);
    }
  }

  lemma ClearBits(n: nat)
    requires n > 0
    ensures forall i: nat :: i < 1 * n ==> !Get([Clear(n)], n, i)
  {
    forall i: nat | i < 1 * n ensures !Get([Clear(n)], n, i) {
      GetAt([Clear(n)], n, 0, i);
    }
  }

  lemma PushedWindow(before: seq<Block>, after: seq<Block>, width: nat, n: nat, b: bool)
    requires width > 0 && Blocks(before, width) && Blocks(after, width) && |before| == |after| && n < |before| * width
    requires forall i: nat :: n <= i < |before| * width ==> !Get(before, width, i)
    requires forall i: nat :: i < |before| * width ==>
             Get(after, width, i) == if i == n then b else Get(before, width, i)
    ensures Window(after, width, 0, n + 1) == Window(before, width, 0, n) + [b]
  {
    hide Get;
    var x, y := Window(after, width, 0, n + 1), Window(before, width, 0, n) + [b];
    forall k | 0 <= k < n + 1 ensures x[k] == y[k] {
      assert x[k] == Get(after, width, 0 + k);
    }
  }

  lemma SubWindow(buf: seq<Block>, width: nat, n: nat, i: nat, len: nat)
    requires width > 0 && Blocks(buf, width) && n <= |buf| * width && i + len <= n
    ensures Window(buf, width, 0, n)[i..i + len] == Window(buf, width, i, len)
  {
    hide Get;
  }

  lemma CopiedBlocks(before: seq<Block>, after: seq<Block>, width: nat, k: nat, i: nat)
    requires width > 0 && Blocks(before, width) && Blocks(after, width) && k <= |after| && k <= |before|
    requires k == |after| || k == |before|
    requires forall j :: 0 <= j < k ==> after[j] == before[j]
    requires forall j :: k <= j < |after| ==> after[j] == Clear(width)
    requires i < |after| * width
    ensures Get(after, width, i) == (i < |before| * width && Get(before, width, i))
  {
    hide BlockIndex, InBlockOffset;
    InRange(i, |after|, width);
    Parts(i, width);
    var q := BlockIndex(i, width);
    if q < k {
      NumberTheory.TimesMonotone(q + 1, |before|, width);
      NextBlock(q, width);
    } else {
      assert after[q] == Clear(width);
      NumberTheory.TimesMonotone(|before|, q, width);
    }
  }
}
