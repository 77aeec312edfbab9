/** Byte strings, their order, and the integer codings of external/pdlfs-common/src/coding.cc that the
    block format uses. */
module Coding {
  import opened Sequences

  type Byte = b: int | 0 <= b < 256 witness 0
  type Bytes = seq<Byte>

  datatype Pair = Pair(key: Bytes, value: Bytes)

  const WORD32: nat := 0x1_0000_0000

  // ----- Byte order

  /** Slice::compare: memcmp over the common length, then the shorter first. */
  function Compare(a: Bytes, b: Bytes): int {
    if a == [] then (if b == [] then 0 else -1)
    else if b == [] then 1
    else if a[0] < b[0] then -1
    else if a[0] > b[0] then 1
    else Compare(a[1..], b[1..])
  }

  lemma {:induction false} CompareReverse(a: Bytes, b: Bytes)
    ensures Compare(a, b) == -Compare(b, a) && (Compare(a, b) == 0 <==> a == b)
  {
    if a != [] && b != [] {
      CompareReverse(a[1..], b[1..]);
      assert a == [a[0]] + a[1..] && b == [b[0]] + b[1..];
    }
  }

  lemma {:induction false} CompareTransitive(a: Bytes, b: Bytes, c: Bytes)
    ensures Compare(a, b) <= 0 && Compare(b, c) <= 0 ==> Compare(a, c) <= 0
    ensures Compare(a, b) <= 0 && Compare(b, c) < 0 ==> Compare(a, c) < 0
    ensures Compare(a, b) < 0 && Compare(b, c) <= 0 ==> Compare(a, c) < 0
  {
    if a != [] && b != [] && c != [] {
      CompareTransitive(a[1..], b[1..], c[1..]);
    }
  }

  lemma SameFirst(a: Bytes, b: Bytes, k: nat)
    requires 0 < k <= |a| && k <= |b| && a[..k] == b[..k]
    ensures a[0] == b[0]
  {
    assert a[..k][0] == b[..k][0];
  }

  /** The first difference decides, and of a string and its prefix the prefix is less. */
  lemma {:induction false} CompareMeans(a: Bytes, b: Bytes)
    ensures Compare(a, b) < 0 <==>
              || (|a| < |b| && a == b[..|a|])
              || exists k :: 0 <= k < |a| && k < |b| && a[..k] == b[..k] && a[k] < b[k]
    ensures Compare(a, b) == 0 <==> a == b
    decreases |a|
  {
    CompareReverse(a, b);
    if a != [] && b != [] && a[0] == b[0] {
      var x, y := a[1..], b[1..];
      CompareMeans(x, y);
      assert a == [a[0]] + x && b == [a[0]] + y;
      if k :| 0 <= k < |x| && k < |y| && x[..k] == y[..k] && x[k] < y[k] {
        assert a[..k + 1] == [a[0]] + x[..k] && b[..k + 1] == [a[0]] + y[..k];
        assert a[k + 1] < b[k + 1];
      }
      if k :| 0 <= k < |a| && k < |b| && a[..k] == b[..k] && a[k] < b[k] {
        assert k > 0;
        assert x[..k - 1] == a[..k][1..] && y[..k - 1] == b[..k][1..];
        assert x[k - 1] < y[k - 1];
      }
      assert |a| < |b| ==> b[..|a|] == [a[0]] + y[..|x|];
      assert |a| < |b| && a == b[..|a|] ==> x == b[..|a|][1..];
    } else if a != [] && b != [] {
      assert a[..0] == b[..0];
      if |a| < |b| { assert b[..|a|][0] == b[0]; }
      forall k | 0 <= k < |a| && k < |b| && a[..k] == b[..k] && a[k] < b[k] ensures k == 0 {
        if k > 0 { SameFirst(a, b, k); }
      }
    }
  }

  // ----- Fixed32

  function Fixed32(v: nat): (b: Bytes)
    requires v < WORD32
    ensures |b| == 4
  {
    [v % 256, v / 256 % 256, v / 65536 % 256, v / 16777216]
  }

  function DecodeFixed32(data: Bytes, p: nat): nat
    requires p + 4 <= |data|
  {
    var a: nat, b: nat, c: nat, d: nat := data[p], data[p + 1], data[p + 2], data[p + 3];
    a + 256 * b + 65536 * c + 16777216 * d
  }

  lemma BytesOfWord(v: nat)
    ensures v == v % 256 + 256 * (v / 256 % 256) + 65536 * (v / 65536 % 256) + 16777216 * (v / 16777216)
  {
    NextByte(v, 256);
    NextByte(v, 65536);
    assert v == v % 256 + 256 * (v / 256);
  }

  lemma NextByte(v: nat, unit: nat)
    requires unit == 256 || unit == 65536
    ensures unit * (v / unit) == unit * (v / unit % 256) + 256 * unit * (v / (256 * unit))
  {
    if unit == 256 {
      assert v / 256 / 256 == v / 65536;
    } else {
      assert v / 65536 / 256 == v / 16777216;
    }
  }

  lemma Fixed32RoundTrip(data: Bytes, p: nat, v: nat)
    requires v < WORD32 && Holds(data, p, Fixed32(v))
    ensures DecodeFixed32(data, p) == v
  {
    hide Holds;
    BytesOfWord(v);
    HoldsAt(data, p, Fixed32(v), 0);
    HoldsAt(data, p, Fixed32(v), 1);
    HoldsAt(data, p, Fixed32(v), 2);
    HoldsAt(data, p, Fixed32(v), 3);
  }

  const WORD64: nat := 0x1_0000_0000_0000_0000

  function Fixed64(v: nat): (b: Bytes)
    requires v < WORD64
    ensures |b| == 8
  {
    Fixed32(v % WORD32) + Fixed32(v / WORD32)
  }

  function DecodeFixed64(data: Bytes, p: nat): nat
    requires p + 8 <= |data|
  {
    DecodeFixed32(data, p) + WORD32 * DecodeFixed32(data, p + 4)
  }

  lemma Fixed64RoundTrip(data: Bytes, p: nat, v: nat)
    requires v < WORD64 && Holds(data, p, Fixed64(v))
    ensures p + 8 <= |data| && DecodeFixed64(data, p) == v
  {
    hide Fixed32, DecodeFixed32;
    HoldsParts(data, p, Fixed32(v % WORD32), Fixed32(v / WORD32));
    Fixed32RoundTrip(data, p, v % WORD32);
    Fixed32RoundTrip(data, p + 4, v / WORD32);
  }

  // ----- Varint32

  /** Seven bits to a byte, the low ones first; all bytes but the last are marked. */
  function Varint(v: nat): (b: Bytes)
    ensures |b| >= 1 && (b[0] < 128 <==> v < 128) && (v < 128 ==> b == [v])
  {
    if v < 128 then [v] else [v % 128 + 128] + Varint(v / 128)
  }

  /** EncodeVarint32, with one case for each length. */
  function EncodeVarint32(v: nat): Bytes
    requires v < WORD32
  {
    if v < 128 then [v]
    else if v < 16384 then [v % 128 + 128, v / 128]
    else if v < 2097152 then [v % 128 + 128, v / 128 % 128 + 128, v / 16384]
    else if v < 268435456 then [v % 128 + 128, v / 128 % 128 + 128, v / 16384 % 128 + 128, v / 2097152]
    else [v % 128 + 128, v / 128 % 128 + 128, v / 16384 % 128 + 128, v / 2097152 % 128 + 128, v / 268435456]
  }

  lemma EncodesVarint(v: nat)
    requires v < WORD32
    ensures EncodeVarint32(v) == Varint(v) && |Varint(v)| <= 5
  {
    hide Varint;
    VarintStep(v);
    VarintStep(v / 128);
    VarintStep(v / 16384);
    VarintStep(v / 2097152);
    VarintStep(v / 268435456);
    assert v / 128 / 128 == v / 16384 && v / 16384 / 128 == v / 2097152 && v / 2097152 / 128 == v / 268435456;
  }

  lemma VarintStep(v: nat)
    ensures Varint(v) == if v < 128 then [v] else [v % 128 + 128] + Varint(v / 128)
  {
  }

  function Scale(k: nat): nat
    requires k <= 5
  {
    [1, 128, 16384, 2097152, 268435456, 34359738368][k]
  }

  datatype Parsed = Parsed(value: nat, next: nat) | Malformed

  /** What GetVarint32Ptr returns when k bytes have been read before position p. */
  function ParseVarint(data: Bytes, p: nat, limit: nat, k: nat): (r: Parsed)
    requires limit <= |data| && k <= 5
    ensures r.Parsed? ==> p < r.next <= limit
    decreases 5 - k
  {
    if k > 4 || p >= limit then Malformed
    else
      var byte: nat := data[p];
      if byte < 128 then Parsed(byte * Scale(k) % WORD32, p + 1)
      else
        match ParseVarint(data, p + 1, limit, k + 1)
        case Malformed => Malformed
        case Parsed(v, next) => Parsed((byte - 128) * Scale(k) % WORD32 + v, next)
  }

  method GetVarint32(data: Bytes, p: nat, limit: nat) returns (r: Parsed)
    requires p <= limit <= |data|
    ensures r == ParseVarint(data, p, limit, 0)
  {
    var value: nat, next: nat, k := 0, p, 0;
    while k <= 4 && next < limit
      invariant 0 <= k <= 5 && p <= next <= limit
      invariant ParseVarint(data, p, limit, 0) ==
                match ParseVarint(data, next, limit, k)
                { case Malformed => Malformed case Parsed(v, q) => Parsed(value + v, q) }
      decreases 5 - k
    {
      var byte: nat := data[next];
      next := next + 1;
      if byte >= 128 {
        value := value + (byte - 128) * Scale(k) % WORD32;
      } else {
        return Parsed(value + byte * Scale(k) % WORD32, next);
      }
      k := k + 1;
    }
    return Malformed;
  }

  /** The number that these bytes spell, seven bits to a byte, the low ones first. */
  function Spelled(data: Bytes, p: nat, next: nat): nat
    requires p <= next <= |data|
    decreases next - p
  {
    if p == next then 0 else data[p] % 128 + 128 * Spelled(data, p + 1, next)
  }

  /** Parsing ends at the first byte below 128, and gives what the bytes up to there spell, in 32 bits. */
  ghost predicate ReadsAs(data: Bytes, p: nat, limit: nat, k: nat, r: Parsed)
    requires limit <= |data| && k <= 5
  {
    match r
    case Malformed => forall i: nat :: p <= i < limit && i - p + k <= 4 ==> data[i] >= 128
    case Parsed(v, next) =>
      && p < next <= limit && next - p + k <= 5 && data[next - 1] < 128
      && (forall i: nat :: p <= i < next - 1 ==> data[i] >= 128)
      && v < WORD32 && exists q: nat :: IsPart(v, q, Scale(k), Spelled(data, p, next))
  }

  /** v is what q times the scale is, and what the number times the scale is in 32 bits. */
  ghost predicate IsPart(v: nat, q: nat, scale: nat, n: nat) {
    v == q * scale && v == scale * n % WORD32
  }

  lemma {:induction false} ParseMeans(data: Bytes, p: nat, limit: nat, k: nat)
    requires limit <= |data| && k <= 5
    ensures ReadsAs(data, p, limit, k, ParseVarint(data, p, limit, k))
    decreases 5 - k
  {
    hide Scale, Spelled, IsPart, ParseVarint;
    if k > 4 || p >= limit {
      ParsesNothing(data, p, limit, k);
    } else {
      ParseStep(data, p, limit, k);
      var byte: nat := data[p];
      if byte < 128 {
        SpelledStep(data, p, p + 1);
        var _ := LastPart(k, byte);
      } else {
        ParseMeans(data, p + 1, limit, k + 1);
        var r := ParseVarint(data, p + 1, limit, k + 1);
        if r.Parsed? {
          SpelledStep(data, p, r.next);
          var q: nat :| IsPart(r.value, q, Scale(k + 1), Spelled(data, p + 1, r.next));
          var _ := NextPart(k, byte - 128, r.value, q, Spelled(data, p + 1, r.next));
        }
      }
    }
  }

  lemma ParsesNothing(data: Bytes, p: nat, limit: nat, k: nat)
    requires limit <= |data| && k <= 5 && (k > 4 || p >= limit)
    ensures ParseVarint(data, p, limit, k) == Malformed
  {
  }

  lemma SpelledStep(data: Bytes, p: nat, next: nat)
    requires p < next <= |data|
    ensures Spelled(data, p, next) == data[p] % 128 + 128 * Spelled(data, p + 1, next)
    ensures next == p + 1 ==> Spelled(data, p, next) == data[p] % 128
  {
  }

  lemma LastPart(k: nat, byte: nat) returns (q: nat)
    requires k <= 4 && byte < 128
    ensures IsPart(byte * Scale(k) % WORD32, q, Scale(k), byte)
  {
    assert Scale(0) == 1 && Scale(1) == 128 && Scale(2) == 16384 && Scale(3) == 2097152 && Scale(4) == 268435456;
    q := if k < 4 then byte else byte % 16;
  }

  lemma NextPart(k: nat, digit: nat, v: nat, q: nat, n: nat) returns (r: nat)
    requires k <= 3 && digit < 128 && v < WORD32 && IsPart(v, q, Scale(k + 1), n)
    ensures digit * Scale(k) % WORD32 + v < WORD32
    ensures IsPart(digit * Scale(k) % WORD32 + v, r, Scale(k), digit + 128 * n)
  {
    r := digit + 128 * q;
    assert Scale(0) == 1 && Scale(1) == 128 && Scale(2) == 16384 && Scale(3) == 2097152 && Scale(4) == 268435456;
    match k
    case 0 => NextPart0(digit, v, q, n);
    case 1 => NextPart1(digit, v, q, n);
    case 2 => NextPart2(digit, v, q, n);
    case 3 => NextPart3(digit, v, q, n);
  }

  lemma Wrapped(total: nat, t: nat, w: nat)
    requires total == t * WORD32 + w && w < WORD32
    ensures total % WORD32 == w
  {
  }

  lemma Unwrapped(total: nat) returns (t: nat)
    ensures total == t * WORD32 + total % WORD32
  {
    t := total / WORD32;
  }

  lemma NextPart0(digit: nat, v: nat, q: nat, n: nat)
    requires digit < 128 && v < WORD32 && v == q * 128 && v == 128 * n % WORD32
    ensures var w := digit * 1 % WORD32 + v;
            w < WORD32 && w == (digit + 128 * q) * 1 && w == 1 * (digit + 128 * n) % WORD32
  {
    var t := Unwrapped(128 * n);
    Wrapped(digit * 1, 0, digit * 1);
    Wrapped(1 * (digit + 128 * n), t, digit * 1 + v);
  }

  lemma NextPart1(digit: nat, v: nat, q: nat, n: nat)
    requires digit < 128 && v < WORD32 && v == q * 16384 && v == 16384 * n % WORD32
    ensures var w := digit * 128 % WORD32 + v;
            w < WORD32 && w == (digit + 128 * q) * 128 && w == 128 * (digit + 128 * n) % WORD32
  {
    var t := Unwrapped(16384 * n);
    Wrapped(digit * 128, 0, digit * 128);
    Wrapped(128 * (digit + 128 * n), t, digit * 128 + v);
  }

  lemma NextPart2(digit: nat, v: nat, q: nat, n: nat)
    requires digit < 128 && v < WORD32 && v == q * 2097152 && v == 2097152 * n % WORD32
    ensures var w := digit * 16384 % WORD32 + v;
            w < WORD32 && w == (digit + 128 * q) * 16384 && w == 16384 * (digit + 128 * n) % WORD32
  {
    var t := Unwrapped(2097152 * n);
    Wrapped(digit * 16384, 0, digit * 16384);
    Wrapped(16384 * (digit + 128 * n), t, digit * 16384 + v);
  }

  lemma NextPart3(digit: nat, v: nat, q: nat, n: nat)
    requires digit < 128 && v < WORD32 && v == q * 268435456 && v == 268435456 * n % WORD32
    ensures var w := digit * 2097152 % WORD32 + v;
            w < WORD32 && w == (digit + 128 * q) * 2097152 && w == 2097152 * (digit + 128 * n) % WORD32
  {
    var t := Unwrapped(268435456 * n);
    Wrapped(digit * 2097152, 0, digit * 2097152);
    Wrapped(2097152 * (digit + 128 * n), t, digit * 2097152 + v);
  }

  /** A number is read exactly when one of the first five bytes, before the limit, is below 128: it ends with the
      first of them and is what the bytes up to there spell, in 32 bits. */
  lemma VarintMeans(data: Bytes, p: nat, limit: nat)
    requires limit <= |data|
    ensures match ParseVarint(data, p, limit, 0)
            case Malformed => forall i: nat :: p <= i < limit && i < p + 5 ==> data[i] >= 128
            case Parsed(v, next) =>
              && p < next <= limit && next <= p + 5 && data[next - 1] < 128
              && (forall i: nat :: p <= i < next - 1 ==> data[i] >= 128)
              && v == Spelled(data, p, next) % WORD32
  {
    hide Spelled, ParseVarint;
    ParseMeans(data, p, limit, 0);
    assert Scale(0) == 1;
  }

  /** The code of a number parses as the number, and ends where the code does. */
  lemma VarintRoundTrip(data: Bytes, p: nat, limit: nat, v: nat)
    requires p <= limit <= |data| && v < WORD32 && Holds(data, p, Varint(v)) && p + |Varint(v)| <= limit
    ensures ParseVarint(data, p, limit, 0) == Parsed(v, p + |Varint(v)|)
  {
    hide Varint, Holds, ParseVarint;
    assert Scale(0) == 1;
    VarintParses(data, p, limit, 0, v);
  }

  lemma ParseStep(data: Bytes, p: nat, limit: nat, k: nat)
    requires p < limit <= |data| && k <= 4
    ensures var byte: nat := data[p];
            ParseVarint(data, p, limit, k) ==
            if byte < 128 then Parsed(byte * Scale(k) % WORD32, p + 1)
            else
              match ParseVarint(data, p + 1, limit, k + 1)
              case Malformed => Malformed
              case Parsed(v, next) => Parsed((byte - 128) * Scale(k) % WORD32 + v, next)
  {
    hide Scale;
  }

  lemma {:induction false} VarintParses(data: Bytes, p: nat, limit: nat, k: nat, rest: nat)
    requires p <= limit <= |data| && k <= 4 && Scale(k) * rest < WORD32
    requires Holds(data, p, Varint(rest)) && p + |Varint(rest)| <= limit
    ensures ParseVarint(data, p, limit, k) == Parsed(Scale(k) * rest, p + |Varint(rest)|)
    decreases 5 - k
  {
    hide Varint, Holds, Scale, ParseVarint;
    VarintStep(rest);
    ParseStep(data, p, limit, k);
    HoldsAt(data, p, Varint(rest), 0);
    NextDigit(k, rest);
    if rest >= 128 {
      HoldsParts<Byte>(data, p, [rest % 128 + 128], Varint(rest / 128));
      VarintParses(data, p + 1, limit, k + 1, rest / 128);
    }
  }

  /** A byte's share of the number, and what is left of it. */
  lemma NextDigit(k: nat, rest: nat)
    requires k <= 4 && Scale(k) * rest < WORD32
    ensures k == 4 ==> rest < 128
    ensures rest * Scale(k) % WORD32 == Scale(k) * rest
    ensures rest % 128 * Scale(k) % WORD32 + Scale(k + 1) * (rest / 128) == Scale(k) * rest
    ensures Scale(k + 1) * (rest / 128) < WORD32
  {
    hide Scale;
    ShortRest(0, k, rest);
    Digit(0, k, rest);
  }

  lemma ShortRest(value: nat, k: nat, rest: nat)
    requires k <= 4 && value + Scale(k) * rest < WORD32
    ensures k == 4 ==> rest < 128
    ensures rest * Scale(k) < WORD32 && rest % 128 * Scale(k) < WORD32
  {
    hide Scale;
    SmallerDigit(value, rest, Scale(k));
    FifthByte(rest);
  }

  lemma FifthByte(rest: nat)
    ensures rest * Scale(4) < WORD32 ==> rest < 128
  {
    assert Scale(4) == 268435456;
  }

  lemma SmallerDigit(value: nat, rest: nat, scale: nat)
    requires value + scale * rest < WORD32
    ensures rest * scale < WORD32 && rest % 128 * scale < WORD32
  {
    assert rest == 128 * (rest / 128) + rest % 128;
    assert rest * scale == 128 * (rest / 128) * scale + rest % 128 * scale;
    assert 128 * (rest / 128) * scale >= 0;
  }

  lemma Digit(value: nat, k: nat, rest: nat)
    requires k <= 4
    ensures value + rest % 128 * Scale(k) + Scale(k + 1) * (rest / 128) == value + Scale(k) * rest
  {
    assert rest == 128 * (rest / 128) + rest % 128;
  }
}
