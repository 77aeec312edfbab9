/** The RPC bodies of src/libdeltafs/parallel_compactor.cc: a count and length-prefixed keys and values. */
module KvBatches {
  import opened Coding
  import opened Sequences

  function LengthPrefixed(s: Bytes): Bytes {
    Varint(|s|) + s
  }

  function EncodePair(p: Pair): Bytes {
    LengthPrefixed(p.key) + LengthPrefixed(p.value)
  }

  function EncodePairs(ps: seq<Pair>): Bytes {
    if ps == [] then [] else EncodePair(ps[0]) + EncodePairs(ps[1..])
  }

  lemma {:induction false} EncodeSnoc(ps: seq<Pair>, p: Pair)
    ensures EncodePairs(ps + [p]) == EncodePairs(ps) + EncodePair(p)
  {
    hide EncodePair;
    if ps == [] {
      assert [] + [p] == [p] && [p][1..] == [];
    } else {
      EncodeSnoc(ps[1..], p);
      assert (ps + [p])[1..] == ps[1..] + [p];
    }
  }

  const INT_MAX: nat := 0x7fff_ffff

  /** What 32-bit lengths and a signed count can hold. */
  ghost predicate Fits(ps: seq<Pair>) {
    |ps| <= INT_MAX && forall i :: 0 <= i < |ps| ==> |ps[i].key| < WORD32 && |ps[i].value| < WORD32
  }

  function Body(ps: seq<Pair>): Bytes
    requires |ps| < WORD32
  {
    Fixed32(|ps|) + EncodePairs(ps)
  }

  // ----- Decoding

  datatype Piece = Piece(bytes: Bytes, next: nat) | NoPiece
  datatype Decoded = Pairs(ps: seq<Pair>) | BadEncoding

  /** GetLengthPrefixedSlice. */
  function ParsePiece(data: Bytes, p: nat): (r: Piece)
    requires p <= |data|
    ensures r.Piece? ==> p < r.next <= |data|
  {
    match ParseVarint(data, p, |data|, 0)
    case Malformed => NoPiece
    case Parsed(len, q) => if |data| - q >= len then Piece(data[q..q + len], q + len) else NoPiece
  }

  function DecodePairs(data: Bytes, p: nat, n: nat): Decoded
    requires p <= |data|
    decreases n
  {
    if n == 0 then Pairs([])
    else
      match ParsePiece(data, p)
      case NoPiece => BadEncoding
      case Piece(key, q) =>
        match ParsePiece(data, q)
        case NoPiece => BadEncoding
        case Piece(value, next) =>
          match DecodePairs(data, next, n - 1)
          case BadEncoding => BadEncoding
          case Pairs(rest) => Pairs([Pair(key, value)] + rest)
  }

  /** The count is read into an int: the upper half of its range is negative, and stands for no pairs. */
  function DecodeBody(body: Bytes): Decoded {
    if |body| < 4 then BadEncoding
    else
      var n := DecodeFixed32(body, 0);
      DecodePairs(body, 4, if n <= INT_MAX then n else 0)
  }

  lemma PieceRoundTrip(data: Bytes, p: nat, s: Bytes)
    requires Holds(data, p, LengthPrefixed(s)) && |s| < WORD32
    ensures p <= |data| && ParsePiece(data, p) == Piece(s, p + |LengthPrefixed(s)|)
  {
    hide Varint;
    HoldsParts(data, p, Varint(|s|), s);
    VarintRoundTrip(data, p, |data|, |s|);
  }

  lemma HoldsNothing(data: Bytes, p: nat)
    requires Holds(data, p, EncodePairs([]))
    ensures p <= |data|
  {
  }

  lemma {:induction false} PairsRoundTrip(data: Bytes, p: nat, ps: seq<Pair>)
    requires Holds(data, p, EncodePairs(ps)) && Fits(ps)
    ensures p <= |data| && DecodePairs(data, p, |ps|) == Pairs(ps)
    decreases |ps|
  {
    hide LengthPrefixed, ParsePiece, Holds;
    if ps == [] {
      HoldsNothing(data, p);
    } else {
      var q := p + |LengthPrefixed(ps[0].key)|;
      HoldsParts(data, p, EncodePair(ps[0]), EncodePairs(ps[1..]));
      HoldsParts(data, p, LengthPrefixed(ps[0].key), LengthPrefixed(ps[0].value));
      PieceRoundTrip(data, p, ps[0].key);
      PieceRoundTrip(data, q, ps[0].value);
      PairsRoundTrip(data, p + |EncodePair(ps[0])|, ps[1..]);
      assert [Pair(ps[0].key, ps[0].value)] + ps[1..] == ps;
    }
  }

  /** A body decodes to the pairs it was made of. */
  lemma BodyRoundTrip(ps: seq<Pair>)
    requires Fits(ps)
    ensures DecodeBody(Body(ps)) == Pairs(ps)
  {
    hide Fixed32, DecodeFixed32;
    var body := Body(ps);
    assert Holds(body, 0, Fixed32(|ps|));
    Fixed32RoundTrip(body, 0, |ps|);
    HoldsSuffix(Fixed32(|ps|), EncodePairs(ps));
    PairsRoundTrip(body, 4, ps);
  }

  /** The decoding loop of Call: fills the batch, or reports a bad encoding. */
  method Call(body: Bytes) returns (r: Decoded)
    ensures r == DecodeBody(body)
  {
    hide ParsePiece;
    if |body| < 4 {
      return BadEncoding;
    }
    var count := DecodeFixed32(body, 0);
    var n := if count <= INT_MAX then count else count - WORD32;
    var p: nat, batch, i := 4, [], 0;
    while i < n
      invariant 0 <= i && (n >= 0 ==> i <= n) && p <= |body|
      invariant DecodeBody(body) ==
                match DecodePairs(body, p, if n > 0 then n - i else 0)
                { case BadEncoding => BadEncoding case Pairs(rest) => Pairs(batch + rest) }
    {
      var key := ParsePiece(body, p);
      if key.NoPiece? {
        return BadEncoding;
      }
      var value := ParsePiece(body, key.next);
      if value.NoPiece? {
        return BadEncoding;
      }
      p := value.next;
      batch := batch + [Pair(key.bytes, value.bytes)];
      i := i + 1;
    }
    assert batch + [] == batch;
    return Pairs(batch);
  }
}
