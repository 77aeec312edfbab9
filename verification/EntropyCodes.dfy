/** Exponential-Golomb codes and sign interleaving: exp_golomb.h and sign_interleave.h of
    external/pdlfs-common's ectrie. */
module EntropyCodes {
  import opened ByteBits
  import opened BitVectors
  import opened Sequences

  // ----- Sign interleaving

  /** Words of the given width as naturals; the upper half stands for the negative numbers. */
  function InterleaveEncode(v: nat, width: nat): nat
    requires width > 0 && v < Pow2(width)
  {
    if v < Pow2(width - 1) then 2 * v else 2 * (Pow2(width) - 1 - v) + 1
  }

  function InterleaveDecode(u: nat, width: nat): nat
    requires width > 0 && u < Pow2(width)
  {
    if u % 2 == 0 then u / 2 else Pow2(width) - 1 - u / 2
  }

  /** Interleaving is a bijection of the words, and only the least negative word gets the last code. */
  lemma InterleaveBijection(x: nat, width: nat)
    requires width > 0 && x < Pow2(width)
    ensures InterleaveEncode(x, width) < Pow2(width) && InterleaveDecode(x, width) < Pow2(width)
    ensures InterleaveDecode(InterleaveEncode(x, width), width) == x
    ensures InterleaveEncode(InterleaveDecode(x, width), width) == x
    ensures InterleaveEncode(x, width) == Pow2(width) - 1 <==> x == Pow2(width - 1)
  {
  }

  // The same on the bits of a word, with the source's shifts and masks.

  function InterleaveEncodeWord(v: Block): (r: Block)
    requires |v| > 0
    ensures |r| == |v|
  {
    if And(v, ShiftLeft(One(|v|), |v| - 1)) == Clear(|v|) then ShiftLeft(v, 1)
    else Or(ShiftLeft(Not(v), 1), One(|v|))
  }

  function InterleaveDecodeWord(v: Block): (r: Block)
    requires |v| > 0
    ensures |r| == |v|
  {
    if And(v, One(|v|)) == Clear(|v|) then And(ShiftRight(v, 1), Not(ShiftLeft(One(|v|), |v| - 1)))
    else Or(Not(ShiftRight(v, 1)), ShiftLeft(One(|v|), |v| - 1))
  }

  /** What the shifts and masks do to the bits. */
  lemma EncodeMovesSign(v: Block)
    requires |v| > 0
    ensures InterleaveEncodeWord(v) == if v[0] then Not(v[1..]) + [true] else v[1..] + [false]
  {
    hide And, Or, Not, ShiftLeft, Clear, One;
    var w := |v|;
    var top := And(v, ShiftLeft(One(w), w - 1));
    assert top[0] == v[0];
    if v[0] {
      SameBits(Or(ShiftLeft(Not(v), 1), One(w)), Not(v[1..]) + [true]);
    } else {
      SameBits(top, Clear(w));
      SameBits(ShiftLeft(v, 1), v[1..] + [false]);
    }
  }

  lemma DecodeMovesSign(v: Block)
    requires |v| > 0
    ensures InterleaveDecodeWord(v) ==
            if v[|v| - 1] then [true] + Not(v[..|v| - 1]) else [false] + v[..|v| - 1]
  {
    hide And, Or, Not, ShiftLeft, ShiftRight, Clear, One;
    var w := |v|;
    var low := And(v, One(w));
    assert low[w - 1] == v[w - 1];
    if v[w - 1] {
      SameBits(Or(Not(ShiftRight(v, 1)), ShiftLeft(One(w), w - 1)), [true] + Not(v[..w - 1]));
    } else {
      SameBits(low, Clear(w));
      SameBits(And(ShiftRight(v, 1), Not(ShiftLeft(One(w), w - 1))), [false] + v[..w - 1]);
    }
  }

  lemma SameBits(a: Block, b: Block)
    requires |a| == |b| && forall i :: 0 <= i < |a| ==> a[i] == b[i]
    ensures a == b
  {
  }

  lemma {:induction false} NumberPrepended(x: bool, b: Block)
    ensures Number([x] + b) == (if x then Pow2(|b|) else 0) + Number(b) && Number(b) < Pow2(|b|)
    decreases |b|
  {
    if b != [] {
      NumberPrepended(x, b[..|b| - 1]);
      assert ([x] + b)[..|b|] == [x] + b[..|b| - 1];
    }
  }

  lemma {:induction false} NumberInverted(b: Block)
    ensures Number(Not(b)) == Pow2(|b|) - 1 - Number(b)
    decreases |b|
  {
    if b != [] {
      NumberInverted(b[..|b| - 1]);
      assert Not(b)[..|b| - 1] == Not(b[..|b| - 1]);
    }
  }

  lemma NumberAppended(b: Block, x: bool)
    ensures Number(b + [x]) == 2 * Number(b) + if x then 1 else 0
  {
    assert (b + [x])[..|b|] == b;
  }

  /** The shifts and masks compute the arithmetic, on words of any width. */
  lemma EncodeWordAgrees(v: Block)
    requires |v| > 0
    ensures Number(v) < Pow2(|v|) && Number(InterleaveEncodeWord(v)) == InterleaveEncode(Number(v), |v|)
  {
    hide Number, InterleaveEncodeWord, Not, Pow2;
    var rest := v[1..];
    assert v == [v[0]] + rest;
    Pow2Double(|v| - 1);
    EncodeMovesSign(v);
    NumberPrepended(v[0], rest);
    NumberInverted(rest);
    NumberAppended(rest, false);
    NumberAppended(Not(rest), true);
  }

  lemma DecodeWordAgrees(v: Block)
    requires |v| > 0
    ensures Number(v) < Pow2(|v|) && Number(InterleaveDecodeWord(v)) == InterleaveDecode(Number(v), |v|)
  {
    hide Number, InterleaveDecodeWord, InterleaveDecode, Not, Pow2;
    var init, last := v[..|v| - 1], v[|v| - 1];
    assert v == init + [last] && v == [v[0]] + v[1..];
    Pow2Double(|v| - 1);
    DecodeMovesSign(v);
    NumberPrepended(v[0], v[1..]);
    NumberAppended(init, last);
    NumberInverted(init);
    NumberPrepended(false, init);
    NumberPrepended(true, Not(init));
    DecodeOf(Number(init), last, |v|);
  }

  lemma DecodeOf(n: nat, b: bool, width: nat)
    requires width > 0 && n < Pow2(width - 1)
    ensures var u := 2 * n + if b then 1 else 0;
            u < Pow2(width) && InterleaveDecode(u, width) == if b then Pow2(width) - 1 - n else n
  {
    Pow2Double(width - 1);
    hide Pow2;
  }

  /** The source's encode and decode undo each other on words of any width. */
  lemma WordsRoundTrip(v: Block)
    requires |v| > 0
    ensures InterleaveDecodeWord(InterleaveEncodeWord(v)) == v
    ensures InterleaveEncodeWord(InterleaveDecodeWord(v)) == v
  {
    hide InterleaveEncodeWord, InterleaveDecodeWord, Not;
    EncodeMovesSign(v);
    DecodeMovesSign(v);
    var e, d := InterleaveEncodeWord(v), InterleaveDecodeWord(v);
    DecodeMovesSign(e);
    EncodeMovesSign(d);
    SameBits(InterleaveDecodeWord(e), v);
    SameBits(InterleaveEncodeWord(d), v);
  }

  // ----- Exponential-Golomb codes

  /** The number of binary digits of m. */
  function DigitCount(m: nat): nat {
    if m == 0 then 0 else 1 + DigitCount(m / 2)
  }

  /** n >> k. */
  function HighPart(n: nat, k: nat): nat {
    if k == 0 then n else HighPart(n / 2, k - 1)
  }

  /** The code of n: the length of m in unary, the digits of m behind its first, and the low digits
      that the order splits off. */
  function GolombCode(order: nat, n: nat): seq<bool> {
    var m := HighPart(n, order) + 1;
    var len := DigitCount(m);
    CountPositive(m);
    Clear(len - 1) + [true] + Digits(m, len - 1) + Digits(n, order)
  }

  lemma CountPositive(m: nat)
    requires m > 0
    ensures DigitCount(m) > 0
  {
  }

  lemma {:induction false} CountBounds(m: nat)
    requires m > 0
    ensures DigitCount(m) > 0 && Pow2(DigitCount(m) - 1) <= m < Pow2(DigitCount(m))
  {
    if m > 1 { CountBounds(m / 2); }
  }

  lemma CountAtMost(m: nat, k: nat)
    requires m < Pow2(k)
    ensures DigitCount(m) <= k
  {
    if m > 0 {
      CountBounds(m);
      if DigitCount(m) > k { Pow2Monotone(k, DigitCount(m) - 1); }
    }
  }

  /** The digits below a leading one are those of the rest. */
  lemma {:induction false} DigitsDropTop(m: nat, k: nat)
    requires Pow2(k) <= m < Pow2(k + 1)
    ensures Digits(m, k) == Digits(m - Pow2(k), k)
    decreases k
  {
    if k > 0 { DigitsDropTop(m / 2, k - 1); }
  }

  lemma Doubled(a: nat, b: nat)
    ensures a * (2 * b) == 2 * (a * b)
  {
  }

  lemma {:induction false} SplitNumber(n: nat, k: nat)
    ensures n == HighPart(n, k) * Pow2(k) + Number(Digits(n, k))
    decreases k
  {
    if k > 0 {
      SplitNumber(n / 2, k - 1);
      var d := Digits(n, k);
      assert d[..k - 1] == Digits(n / 2, k - 1);
      Doubled(HighPart(n / 2, k - 1), Pow2(k - 1));
    }
  }

  const WORD: nat := 64  // bits of size_t

  /** exp_golomb::encode. */
  method GolombEncode(order: nat, out: BitVector, n: nat)
    requires out.Valid() && order < WORD && n < Pow2(WORD) && HighPart(n, order) + 1 < Pow2(WORD)
    modifies out, out.buf
    ensures out.Valid() && (fresh(out.buf) || out.buf == old(out.buf))
    ensures out.Contents() == old(out.Contents()) + GolombCode(order, n)
  {
    hide Digits, Pow2, HighPart, Window, Get, DigitCount, GolombCode;
    ghost var start := out.Contents();
    var m := HighPart(n, order) + 1;
    var len := CountDigits(m);
    CountPositive(m);
    CountAtMost(m, WORD);
    PushUnary(out, len - 1);
    AppendLow(out, m, len - 1);
    AppendLow(out, n, order);
    GolombJoin(start, order, n);
  }

  /** Zeros, and a one behind them. */
  method PushUnary(out: BitVector, n: nat)
    requires out.Valid()
    modifies out, out.buf
    ensures out.Valid() && (fresh(out.buf) || out.buf == old(out.buf))
    ensures out.Contents() == old(out.Contents()) + Clear(n) + [true]
  {
    hide Window, Get;
    PushZeros(out, n);
    out.PushBack(true);
  }

  /** The low digits of a word. */
  method AppendLow(out: BitVector, v: nat, len: nat)
    requires out.Valid() && len <= WORD
    modifies out, out.buf
    ensures out.Valid() && (fresh(out.buf) || out.buf == old(out.buf))
    ensures out.Contents() == old(out.Contents()) + Digits(v, len)
  {
    hide Digits, Window, Get;
    out.AppendWord(Digits(v, WORD), len);
    LowDigits(v, WORD, len);
  }

  lemma GolombJoin(start: seq<bool>, order: nat, n: nat)
    ensures var m := HighPart(n, order) + 1; var len := DigitCount(m);
            len > 0 && start + Clear(len - 1) + [true] + Digits(m, len - 1) + Digits(n, order)
              == start + GolombCode(order, n)
  {
    hide Digits, HighPart, DigitCount, Clear;
    CountPositive(HighPart(n, order) + 1);
    var m := HighPart(n, order) + 1;
    var len := DigitCount(m);
    FourParts(start, Clear(len - 1), [true], Digits(m, len - 1), Digits(n, order));
  }

  lemma FourParts(start: seq<bool>, a: seq<bool>, b: seq<bool>, c: seq<bool>, d: seq<bool>)
    ensures start + a + b + c + d == start + (a + b + c + d)
  {
  }

  method CountDigits(m: nat) returns (len: nat)
    ensures len == DigitCount(m)
  {
    len := 0;
    var p: nat := m;
    while p > 0
      invariant len + DigitCount(p) == DigitCount(m)
    {
      len := len + 1;
      p := p / 2;
    }
  }

  method PushZeros(out: BitVector, n: nat)
    requires out.Valid()
    modifies out, out.buf
    ensures out.Valid() && (fresh(out.buf) || out.buf == old(out.buf))
    ensures out.Contents() == old(out.Contents()) + Clear(n)
  {
    hide Window, Get;
    var i := 0;
    while i < n
      invariant 0 <= i <= n && out.Valid() && (fresh(out.buf) || out.buf == old(out.buf))
      invariant out.Contents() == old(out.Contents()) + Clear(i)
    {
      out.PushBack(false);
      assert Clear(i) + [false] == Clear(i + 1);
      i := i + 1;
    }
  }

  lemma GolombParts(order: nat, n: nat, len: nat)
    requires len == DigitCount(HighPart(n, order) + 1)
    ensures len > 0
    ensures var c := GolombCode(order, n); var m := HighPart(n, order) + 1;
            && |c| == len - 1 + 1 + (len - 1) + order
            && (forall k :: 0 <= k < len - 1 ==> !c[k]) && c[len - 1]
            && c[len..len + (len - 1)] == Digits(m, len - 1)
            && c[len + (len - 1)..] == Digits(n, order)
  {
    hide Digits, HighPart;
    CountPositive(HighPart(n, order) + 1);
    var c, m := GolombCode(order, n), HighPart(n, order) + 1;
    var a := Clear(len - 1) + [true];
    assert c == a + Digits(m, len - 1) + Digits(n, order);
  }

  /** exp_golomb::decode, on a buffer that holds the code of n at the iterator: it gives back n and
      leaves the iterator exactly past the code. */
  method GolombDecode(order: nat, buf: BitVector, iter: nat, ghost n: nat) returns (r: nat, next: nat)
    requires buf.Valid() && order < WORD && n < Pow2(WORD) && HighPart(n, order) + 1 < Pow2(WORD)
    requires iter + |GolombCode(order, n)| <= buf.size
    requires buf.Contents()[iter..iter + |GolombCode(order, n)|] == GolombCode(order, n)
    ensures r == n && next == iter + |GolombCode(order, n)|
  {
    hide GolombCode, Digits, Pow2, HighPart, Number, Window, Get, DigitCount, Clear;
    ghost var m0 := HighPart(n, order) + 1;
    ghost var total := DigitCount(m0);
    ghost var size := |GolombCode(order, n)|;
    GolombParts(order, n, total);
    ghost var bits := buf.Contents();
    CountAtMost(m0, WORD);
    var len := CountUnary(buf, iter, total, GolombCode(order, n));
    next := iter + len;
    SubSlice(bits, iter, size, len, len + (len - 1));
    SubSlice(bits, iter, size, len + (len - 1), size);
    var v := buf.GetWord(next, len - 1, WORD);
    LeadingDigit(m0, WORD);
    var m := Pow2(len - 1) + Number(v);
    next := next + (len - 1);
    var w := buf.GetWord(next, order, WORD);
    NumberPadded(WORD - order, Digits(n, order));
    SplitNumber(n, order);
    r := (m - 1) * Pow2(order) + Number(w);
    next := next + order;
  }

  /** Reads zeros up to the first one; the count includes it. */
  method CountUnary(buf: BitVector, iter: nat, ghost total: nat, ghost code: seq<bool>) returns (len: nat)
    requires buf.Valid() && 0 < total <= |code| && iter + |code| <= buf.size
    requires buf.Contents()[iter..iter + |code|] == code
    requires (forall k :: 0 <= k < total - 1 ==> !code[k]) && code[total - 1]
    ensures len == total
  {
    hide Window;
    ghost var bits := buf.Contents();
    len := 1;
    while true
      invariant 1 <= len <= total
      decreases total - len
    {
      assert bits[iter + (len - 1)] == code[len - 1];
      var b := buf.Bit(iter + (len - 1));
      if b {
        return;
      }
      len := len + 1;
    }
  }

  lemma LeadingDigit(m: nat, width: nat)
    requires 0 < m < Pow2(width)
    ensures var len := DigitCount(m);
            0 < len <= width && Pow2(len - 1) + Number(Clear(width - (len - 1)) + Digits(m, len - 1)) == m
  {
    CountBounds(m);
    CountAtMost(m, width);
    var k := DigitCount(m) - 1;
    NumberPadded(width - k, Digits(m, k));
    DigitsDropTop(m, k);
    Pow2Double(k);
    NumberOfDigits(m - Pow2(k), k);
  }

  lemma Pow2Double(k: nat)
    ensures Pow2(k + 1) == 2 * Pow2(k)
  {
  }
}
