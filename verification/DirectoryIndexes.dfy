/** The directory index of external/pdlfs-common/src/gigaplus.cc: a growable bitmap of partitions. */
module DirectoryIndexes {
  import opened ByteBits
  import opened PartitionBits
  import opened PartitionRouting

  // ----- Bitmaps

  /** The number of bytes that hold 2^radix bits. */
  function BitmapSize(radix: nat): nat {
    (Pow2(radix) + 7) / 8
  }

  predicate TestBit(bytes: seq<bv8>, i: nat) {
    i < 8 * |bytes| && BitIn(bytes[i / 8], i % 8)
  }

  ghost function BitsOf(bytes: seq<bv8>): (s: set<nat>)
    ensures forall i: nat :: i in s <==> TestBit(bytes, i)
  {
    set i | 0 <= i < 8 * |bytes| && TestBit(bytes, i)
  }

  lemma SameBits(s: set<nat>, bytes: seq<bv8>)
    requires forall i: nat :: i in s <==> TestBit(bytes, i)
    ensures s == BitsOf(bytes)
  {
    forall i: nat ensures i in s <==> i in BitsOf(bytes) {}
  }

  lemma SetOneBit(bytes: seq<bv8>, i: nat)
    requires i < 8 * |bytes|
    ensures BitsOf(bytes[i / 8 := bytes[i / 8] | KBits(i % 8)]) == BitsOf(bytes) + {i}
  {
    var after := bytes[i / 8 := bytes[i / 8] | KBits(i % 8)];
    forall j: nat ensures j in BitsOf(bytes) + {i} <==> TestBit(after, j) {
      if j < 8 * |bytes| && j / 8 == i / 8 {
        OrBit(bytes[i / 8], KBits(i % 8), j % 8);
        SingleBit(i % 8, j % 8);
      }
    }
    SameBits(BitsOf(bytes) + {i}, after);
  }

  lemma ZeroPadding(bytes: seq<bv8>, longer: seq<bv8>)
    requires |bytes| <= |longer| && longer[..|bytes|] == bytes
    requires forall k :: |bytes| <= k < |longer| ==> longer[k] == 0
    ensures BitsOf(longer) == BitsOf(bytes)
  {
    forall j: nat ensures j in BitsOf(bytes) <==> TestBit(longer, j) {
      NoBitInZero(j % 8);
      if j < 8 * |bytes| {
        assert longer[..|bytes|][j / 8] == longer[j / 8];
      } else if j < 8 * |longer| {
        assert longer[j / 8] == 0;
      }
    }
    SameBits(BitsOf(bytes), longer);
  }

  /** Bytes past the end read as zero. */
  function ByteAt(bytes: seq<bv8>, i: nat): bv8 {
    if i < |bytes| then bytes[i] else 0
  }

  lemma MergedBits(a: seq<bv8>, b: seq<bv8>, c: seq<bv8>, n: nat)
    requires |a| == |c| && |b| <= n <= |a|
    requires forall k :: 0 <= k < n ==> c[k] == a[k] | ByteAt(b, k)
    requires forall k :: n <= k < |a| ==> c[k] == a[k]
    ensures BitsOf(c) == BitsOf(a) + BitsOf(b)
  {
    forall j: nat ensures j in BitsOf(a) + BitsOf(b) <==> TestBit(c, j) {
      if j < 8 * |a| {
        NoBitInZero(j % 8);
        OrBit(a[j / 8], ByteAt(b, j / 8), j % 8);
      }
    }
    SameBits(BitsOf(a) + BitsOf(b), c);
  }

  /** A set whose radix is r fits into BitmapSize(r) bytes: the rest of a longer bitmap is zero. */
  lemma TailIsZero(bytes: seq<bv8>, r: nat, k: nat)
    requires RadixIs(BitsOf(bytes), r) && BitmapSize(r) <= k < |bytes|
    ensures bytes[k] == 0
  {
    forall off: nat | off < 8 ensures !BitIn(bytes[k], off) {
      var i := 8 * k + off;
      assert TestBit(bytes, i) <==> BitIn(bytes[k], off);
      RadixBound(i, r);
    }
    NoBits(bytes[k]);
  }

  lemma PrefixHoldsAll(bytes: seq<bv8>, r: nat)
    requires RadixIs(BitsOf(bytes), r) && BitmapSize(r) <= |bytes|
    ensures BitsOf(bytes[..BitmapSize(r)]) == BitsOf(bytes)
  {
    forall k | BitmapSize(r) <= k < |bytes| ensures bytes[k] == 0 { TailIsZero(bytes, r, k); }
    ZeroPadding(bytes[..BitmapSize(r)], bytes);
  }

  /** Two bitmaps of the same size with the same bits are the same bytes. */
  lemma BitsDetermineBytes(a: seq<bv8>, b: seq<bv8>)
    requires |a| == |b| && BitsOf(a) == BitsOf(b)
    ensures a == b
  {
    forall k | 0 <= k < |a| ensures a[k] == b[k] {
      forall off: nat | off < 8 ensures BitIn(a[k], off) == BitIn(b[k], off) {
        var i := 8 * k + off;
        assert TestBit(a, i) <==> BitIn(a[k], off);
        assert TestBit(b, i) <==> BitIn(b[k], off);
      }
      SameByte(a[k], b[k]);
    }
  }

  // ----- Images

  /** What ParseDirIndex reads off an image. */
  datatype View = View(zeroth: nat, radix: nat, bytes: seq<bv8>)
  datatype ParseResult = Parsed(view: View) | Rejected

  /** The highest bit below n. */
  function TopBelow(bytes: seq<bv8>, n: nat): (top: nat)
    requires n > 0 && TestBit(bytes, 0)
    ensures top < n && TestBit(bytes, top) && forall i: nat :: TestBit(bytes, i) && i < n ==> i <= top
  {
    if TestBit(bytes, n - 1) then n - 1 else TopBelow(bytes, n - 1)
  }

  /** HighestBit of a view, which looks at all its bytes. */
  function TopBit(bytes: seq<bv8>): (top: nat)
    requires TestBit(bytes, 0)
    ensures TestBit(bytes, top) && forall i: nat :: TestBit(bytes, i) ==> i <= top
  {
    TopBelow(bytes, 8 * |bytes|)
  }

  /** ParseDirIndex; an image whose bitmap is empty counts as {0}, but a bitmap that is accepted is
      never empty since 2^radix > 0. */
  function ParseDirIndex(image: seq<bv8>, paranoid: bool): ParseResult {
    if |image| < 4 then Rejected
    else
      var radix := DecodeFixed16(image[2..4]);
      var bytes := image[4..];
      if |bytes| < BitmapSize(radix) then Rejected
      else if !TestBit(bytes, 0) then Rejected
      else if paranoid && radix != ToRadix(TopBit(bytes)) then Rejected
      else Parsed(View(DecodeFixed16(image[..2]), radix, bytes))
  }

  /** The check of paranoid parsing accepts exactly the radix of the partitions in the bitmap. */
  lemma RadixCheck(bytes: seq<bv8>, radix: nat)
    requires TestBit(bytes, 0)
    ensures radix == ToRadix(TopBit(bytes)) <==> RadixIs(BitsOf(bytes), radix)
  {
    var top := TopBit(bytes);
    assert top in BitsOf(bytes);
    forall i | i in BitsOf(bytes) ensures ToRadix(i) <= ToRadix(top) {
      RadixBound(top, ToRadix(top));
      RadixBound(i, ToRadix(top));
    }
    if RadixIs(BitsOf(bytes), radix) { RadixIsUnique(BitsOf(bytes), radix, ToRadix(top)); }
  }

  function EncodeImage(zeroth: nat, radix: nat, bytes: seq<bv8>): seq<bv8>
    requires zeroth < 65536 && radix < 65536
  {
    EncodeFixed16(zeroth) + EncodeFixed16(radix) + bytes
  }

  /** An image with a radix and a bitmap for it parses to what it was made of, and under paranoid
      parsing exactly when the radix is that of the bitmap. */
  lemma ImageRoundTrip(zeroth: nat, radix: nat, bytes: seq<bv8>, paranoid: bool)
    requires zeroth < 65536 && radix < 65536 && |bytes| >= BitmapSize(radix) && TestBit(bytes, 0)
    ensures ParseDirIndex(EncodeImage(zeroth, radix, bytes), paranoid) ==
            if paranoid && !RadixIs(BitsOf(bytes), radix) then Rejected else Parsed(View(zeroth, radix, bytes))
  {
    hide EncodeFixed16, DecodeFixed16, TopBit, RadixIs, ToRadix;
    RadixCheck(bytes, radix);
    var image := EncodeImage(zeroth, radix, bytes);
    Fixed16RoundTrip(zeroth);
    Fixed16RoundTrip(radix);
    Fixed16Length(zeroth);
    Fixed16Length(radix);
    assert image[..2] == EncodeFixed16(zeroth);
    assert image[2..4] == EncodeFixed16(radix);
    assert image[4..] == bytes;
  }

  /** An image is accepted exactly if it has a bit for every partition of its radix, if partition 0 exists, and for
      paranoid parsing if the radix is that of the partitions; what is read then is what the bytes say. */
  lemma ParsesIff(image: seq<bv8>, paranoid: bool)
    ensures ParseDirIndex(image, paranoid).Parsed? <==>
            && |image| >= 4 && 8 * (|image| - 4) >= Pow2(image[2] as nat + 256 * image[3] as nat)
            && |image| > 4 && image[4] & 1 == 1
            && (paranoid ==> RadixIs(BitsOf(image[4..]), image[2] as nat + 256 * image[3] as nat))
    ensures ParseDirIndex(image, paranoid).Parsed? ==>
              ParseDirIndex(image, paranoid).view
              == View(image[0] as nat + 256 * image[1] as nat, image[2] as nat + 256 * image[3] as nat, image[4..])
  {
    hide TopBit, RadixIs, ToRadix, Pow2, DecodeFixed16, TestBit, BitmapSize, BitsOf;
    if |image| >= 4 {
      HeaderWords(image);
      var radix := DecodeFixed16(image[2..4]);
      EnoughBits(radix, |image| - 4);
      FirstBit(image);
      if TestBit(image[4..], 0) { RadixCheck(image[4..], radix); }
    }
  }

  lemma HeaderWords(image: seq<bv8>)
    requires |image| >= 4
    ensures DecodeFixed16(image[..2]) == image[0] as nat + 256 * image[1] as nat
    ensures DecodeFixed16(image[2..4]) == image[2] as nat + 256 * image[3] as nat
  {
  }

  lemma EnoughBits(radix: nat, n: nat)
    ensures n >= BitmapSize(radix) <==> 8 * n >= Pow2(radix)
  {
    hide Pow2;
  }

  lemma FirstBit(image: seq<bv8>)
    requires |image| >= 4
    ensures TestBit(image[4..], 0) <==> |image| > 4 && image[4] & 1 == 1
  {
    if |image| > 4 { LowBit(image[4]); }
  }

  lemma LowBit(b: bv8)
    ensures BitIn(b, 0) <==> b & 1 == 1
  {
  }

  /** What a view must be to come from an index of the same directory. */
  ghost predicate Genuine(v: View, nvs: nat) {
    && WellFormed(BitsOf(v.bytes)) && RadixIs(BitsOf(v.bytes), v.radix)
    && forall i :: i in BitsOf(v.bytes) ==> i < nvs
  }

  // ----- Capacity

  /** Doubling until the requested number of bytes fits. */
  function ScaledCapacity(current: nat, capacity: nat): (c: nat)
    requires current > 0
    ensures c >= capacity && c >= current
    decreases capacity - current
  {
    if current >= capacity then current else ScaledCapacity(2 * current, capacity)
  }

  /** SetAll asks for as many bytes as there are virtual servers. From the initial 16 bytes the
      capacity then stays within the largest bitmap exactly when there are at most 8192 of them. */
  lemma {:induction false} ReserveWithinBounds(current: nat, n: nat)
    requires current in {16, 32, 64, 128, 256, 512, 1024, 2048, 4096, 8192}
    ensures ScaledCapacity(current, n) <= 8192 <==> n <= 8192
    decreases 8192 - current
  {
    if current < n && current < 8192 {
      ReserveWithinBounds(2 * current, n);
    }
  }

  /** The largest bitmap, which the source asserts is never outgrown. */
  const MAX_BITMAP: nat := 8192

  /** What never happens to a bitmap that is no larger than the largest. */
  lemma SmallCapacity(length: nat)
    requires IsCapacity(length) && length <= MAX_BITMAP
    ensures length in {16, 32, 64, 128, 256, 512, 1024, 2048, 4096, 8192}
    ensures length < MAX_BITMAP ==> 2 * length <= MAX_BITMAP
  {
    var k: nat :| length == 16 * Pow2(k);
    assert Pow2(10) == 1024;
    if k > 10 { Pow2Monotone(10, k); }
  }

  /** A bitmap scaled to a size stays within the largest exactly when the size does. */
  lemma ScaleWithinBounds(current: nat, n: nat)
    requires IsCapacity(current) && current <= MAX_BITMAP
    ensures current > 0 && (ScaledCapacity(current, n) <= MAX_BITMAP <==> n <= MAX_BITMAP)
  {
    SmallCapacity(current);
    ReserveWithinBounds(current, n);
  }

  /** The assertion on the starting index of HashToIndex holds for every hash exactly when there are
      at least 2^radix virtual servers. */
  lemma StartingIndexBound(radix: nat, nvs: nat)
    requires radix <= MAX_RADIX
    ensures (forall h: Hash :: FirstBits(h, radix) < nvs) <==> Pow2(radix) <= nvs
  {
    if Pow2(radix) <= nvs {
      forall h: Hash ensures FirstBits(h, radix) < nvs { FirstBitsBound(h, radix); }
    } else {
      var h: Hash := [255, 255];
      AllOnes(radix);
      assert FirstBits(h, radix) >= nvs;
    }
  }

  /** An index where it fails: filled for three virtual servers, and a hash that begins with two ones. */
  lemma StartingIndexFails()
    ensures Legal(Filled(Created), 3) && RadixIs(Partitions(Filled(Created), 3), 2)
    ensures FirstBits([255, 255], 2) >= 3
  {
    assert ToRadix(2) == 2 && ToRadix(1) == 1 && ToRadix(0) == 0;
    assert Partitions(Filled(Created), 3) == {0, 1, 2};
    AllOnes(2);
    assert Pow2(2) == 4;
  }

  lemma {:induction false} AllOnes(n: nat)
    requires n <= MAX_RADIX
    ensures FirstBits([255, 255], n) == Pow2(n) - 1
  {
    hide BitIn;
    if n > 0 {
      AllOnes(n - 1);
      BitOfOnes(7 - (n - 1) % 8);
    }
  }

  lemma BitOfOnes(k: nat)
    requires k < 8
    ensures BitIn(255, k)
  {
  }

  /** Bitmaps start at 16 bytes and grow by doubling. */
  ghost predicate IsCapacity(n: nat) {
    exists k: nat :: n == 16 * Pow2(k)
  }

  lemma DoubledCapacity(n: nat)
    requires IsCapacity(n)
    ensures IsCapacity(2 * n) && n > 0
  {
    var k: nat :| n == 16 * Pow2(k);
    assert 2 * n == 16 * Pow2(k + 1);
  }

  lemma {:induction false} ScaledIsCapacity(current: nat, capacity: nat)
    requires IsCapacity(current)
    ensures current > 0 && IsCapacity(ScaledCapacity(current, capacity))
    decreases capacity - current
  {
    DoubledCapacity(current);
    if current < capacity { ScaledIsCapacity(2 * current, capacity); }
  }

  /** A bitmap that has room for a partition has room for its whole radix. */
  lemma RoomForRadix(index: nat, length: nat)
    requires IsCapacity(length) && index < 8 * length
    ensures BitmapSize(ToRadix(index)) <= length
  {
    var k: nat :| length == 16 * Pow2(k);
    Pow2Sum(k, 7);
    assert Pow2(7) == 128;
    RadixBound(index, k + 7);
    Pow2Monotone(ToRadix(index), k + 7);
  }

  class DirIndex {
    const zeroth: nat
    const nvs: nat  // number of virtual servers
    const paranoid: bool  // whether images are parsed with paranoid checks
    var radix: nat
    var bitmap: array<bv8>

    ghost function Bits(): set<nat>
      reads this, bitmap
    {
      BitsOf(bitmap[..])
    }

    /** The bitmap has room for the radix. */
    ghost predicate Room()
      reads this, bitmap
    {
      && zeroth < 65536 && 1 <= nvs <= MAX_PARTITIONS
      && radix <= MAX_RADIX && IsCapacity(bitmap.Length) && BitmapSize(radix) <= bitmap.Length
    }

    /** The bookkeeping: the radix, moreover, is that of the highest bit. */
    ghost predicate Shape()
      reads this, bitmap
    {
      Room() && RadixIs(Bits(), radix)
    }

    /** The invariant of every reachable index. */
    ghost predicate Valid()
      reads this, bitmap
    {
      Shape() && WellFormed(Bits()) && forall i :: i in Bits() ==> i < nvs
    }

    constructor (zserver: nat, nvs: nat, paranoid: bool)
      requires zserver < 65536 && 1 <= nvs <= MAX_PARTITIONS
      ensures Valid() && fresh(bitmap) && Bits() == {0} && radix == 0
      ensures zeroth == zserver && this.nvs == nvs && this.paranoid == paranoid && bitmap.Length == 16
    {
      this.zeroth, this.nvs, this.paranoid, radix := zserver, nvs, paranoid, 0;
      bitmap := new bv8[16](_ => 0);
      new;
      assert 16 == 16 * Pow2(0);
      ZeroPadding([], bitmap[..]);
      TurnOnBit(0);
      assert Bits() == {0};
    }

    predicate Bit(index: nat)
      reads this, bitmap
      requires BitmapSize(radix) <= bitmap.Length
    {
      index < BitmapSize(radix) * 8 && TestBit(bitmap[..], index)
    }

    lemma BitIsMember(index: nat)
      requires Shape()
      ensures Bit(index) <==> index in Bits()
    {
      if index in Bits() { RadixBound(index, radix); }
    }

    /** The highest partition, scanning bytes and then bits downwards. */
    method HighestBit() returns (top: nat)
      requires Shape() && 0 in Bits()
      ensures top in Bits() && ToRadix(top) == radix && forall i :: i in Bits() ==> i <= top
    {
      var i := BitmapSize(radix) - 1;
      assert TestBit(bitmap[..], 0) && BitIn(bitmap[0], 0);
      NoBitInZero(0);
      forall k | i < k < bitmap.Length ensures bitmap[k] == 0 { TailIsZero(bitmap[..], radix, k); }
      while bitmap[i] == 0
        invariant 0 <= i < bitmap.Length
        invariant forall k :: i < k < bitmap.Length ==> bitmap[k] == 0
        decreases i
      {
        assert i > 0;
        i := i - 1;
      }
      var off := 7;
      while !BitIn(bitmap[i], off)
        invariant 0 <= off < 8
        invariant forall k: nat :: off < k < 8 ==> !BitIn(bitmap[i], k)
        decreases off
      {
        if off == 0 { NoBits(bitmap[i]); }
        off := off - 1;
      }
      top := off + 8 * i;
      TopOfByte(bitmap[..], i, off);
      TopRadix(Bits(), radix, top);
    }

    method ScaleUp(factor: nat)
      requires factor > 0
      modifies this`bitmap
      ensures bitmap.Length == factor * old(bitmap.Length)
      ensures factor > 1 ==> fresh(bitmap)
      ensures factor == 1 ==> bitmap == old(bitmap)
      ensures Bits() == old(Bits())
    {
      if factor > 1 {
        var n := bitmap.Length;
        var bytes := bitmap;
        assert n <= factor * n;
        var buf := new bv8[factor * n](k => 0);
        var k := 0;
        while k < n
          invariant 0 <= k <= n && buf[..k] == bytes[..k]
          invariant forall j :: k <= j < buf.Length ==> buf[j] == 0
          invariant bytes[..] == old(bytes[..])
        {
          buf[k] := bytes[k];
          k := k + 1;
        }
        ZeroPadding(bytes[..], buf[..]);
        bitmap := buf;
      }
    }

    method ScaleToSize(capacity: nat)
      requires bitmap.Length > 0
      modifies this`bitmap
      ensures bitmap.Length == ScaledCapacity(old(bitmap.Length), capacity)
      ensures fresh(bitmap) || bitmap == old(bitmap)
      ensures Bits() == old(Bits())
    {
      var factor, current := 1, bitmap.Length;
      while current < capacity
        invariant current == factor * bitmap.Length > 0 && factor > 0
        invariant ScaledCapacity(current, capacity) == ScaledCapacity(bitmap.Length, capacity)
        decreases capacity - current
      {
        current := 2 * current;
        factor := 2 * factor;
      }
      ScaleUp(factor);
    }

    /** Adds one partition. The radix may grow by one at most, as the assertions demand. */
    method TurnOnBit(index: nat)
      requires Shape() && index < MAX_PARTITIONS && ToRadix(index) <= radix + 1
      modifies this, bitmap
      ensures Shape() && (fresh(bitmap) || bitmap == old(bitmap))
      ensures Bits() == old(Bits()) + {index}
      ensures bitmap.Length == if index < 8 * old(bitmap.Length) then old(bitmap.Length) else 2 * old(bitmap.Length)
      ensures old(bitmap.Length) <= MAX_BITMAP ==> bitmap.Length <= MAX_BITMAP
    {
      ghost var before := Bits();
      if bitmap.Length <= MAX_BITMAP { SmallCapacity(bitmap.Length); }
      GrowthFits(index, radix, bitmap.Length);
      if index >= bitmap.Length * 8 {
        assert index < 2 * bitmap.Length * 8;
        ScaleUp(2);
      }
      var r := ToRadix(index);
      BelowMax(index);
      DoubledCapacity(old(bitmap.Length));
      RoomForRadix(index, bitmap.Length);
      if radix < r {
        assert radix == r - 1;
        radix := r;
      }
      var i, off := index / 8, index % 8;
      SetOneBit(bitmap[..], index);
      bitmap[i] := bitmap[i] | KBits(off);
      assert Bits() == before + {index};
      assert RadixIs(Bits(), radix) by { assert index in Bits(); }
    }

    method Set(index: nat)
      requires Valid() && index < nvs && ToRadix(index) <= radix + 1
      modifies this, bitmap
      ensures Shape() && (fresh(bitmap) || bitmap == old(bitmap))
      ensures Bits() == old(Bits()) + {index}
      ensures WellFormed(Bits()) ==> Valid()
      ensures old(bitmap.Length) <= MAX_BITMAP ==> bitmap.Length <= MAX_BITMAP
    {
      TurnOnBit(index);
    }

    lemma NextPartitionFits(i: nat)
      requires Shape() && i > 0 && i - 1 in Bits()
      ensures ToRadix(i) <= radix + 1
    {
      NextRadix(i);
    }

    /** The loop of SetAll, with room for all. */
    method TurnOnAll()
      requires Shape() && nvs <= bitmap.Length
      modifies this, bitmap
      ensures Shape() && Bits() == old(Bits()) + Below(nvs)
      ensures (fresh(bitmap) || bitmap == old(bitmap)) && bitmap.Length == old(bitmap.Length)
    {
      hide WellFormed, RadixIs, BitmapSize, ToRadix, BitsOf, Below;
      ghost var before := Bits();
      RadixOfZero();
      TurnOnBit(0);
      assert before + {0} == before + Below(1) by { FirstBelow(); }
      var i := 1;
      while i < nvs
        invariant 1 <= i <= nvs && Shape() && Bits() == before + Below(i)
        invariant (fresh(bitmap) || bitmap == old(bitmap)) && bitmap.Length == old(bitmap.Length)
      {
        NextPartitionFits(i);
        NextBelow(before, i);
        TurnOnBit(i);
        i := i + 1;
      }
    }

    /** Fills the index. */
    method SetAll()
      requires Valid()
      modifies this, bitmap
      ensures Valid() && (fresh(bitmap) || bitmap == old(bitmap))
      ensures Bits() == Below(nvs)
      ensures bitmap.Length == ScaledCapacity(old(bitmap.Length), nvs)
      ensures old(bitmap.Length) <= MAX_BITMAP ==> (bitmap.Length <= MAX_BITMAP <==> nvs <= MAX_BITMAP)
    {
      hide WellFormed, RadixIs, BitmapSize, ToRadix, ScaledCapacity, BitsOf, Below;
      if bitmap.Length <= MAX_BITMAP { ScaleWithinBounds(bitmap.Length, nvs); }
      ghost var before := Bits();
      ScaledIsCapacity(bitmap.Length, nvs);
      ScaleToSize(nvs);
      TurnOnAll();
      FullKeepsShape(before, nvs);
      assert before + Below(nvs) == Below(nvs);
    }

    method IsSplittable(index: nat) returns (b: bool)
      requires Valid() && index < MAX_PARTITIONS
      ensures b <==> Splittable(Bits(), index, nvs)
      ensures b <==> index in Bits() && exists c: nat :: 0 < c < nvs && c !in Bits() && ToParentIndex(c) == index
    {
      SplittableIff(Bits(), index, nvs);
      BitIsMember(index);
      BelowMax(index);
      if !Bit(index) {
        return false;
      }
      var i: nat := index;
      var r := ToRadix(i);
      while r < MAX_RADIX
        invariant ToRadix(index) <= r <= MAX_RADIX && r == ToRadix(i)
        invariant DepthFrom(Bits(), index, r) == Depth(Bits(), index)
      {
        ChildOf(index, r);
        i := ToChildIndex(index, r);
        BitIsMember(i);
        if !Bit(i) {
          return i < nvs;
        }
        r := r + 1;
        assert r == ToRadix(i);
      }
      return false;
    }

    /** The next child of a splittable partition. */
    method NewIndexForSplitting(index: nat) returns (c: nat)
      requires Valid() && index < MAX_PARTITIONS && Splittable(Bits(), index, nvs)
      ensures c == ToChildIndex(index, Depth(Bits(), index)) && c < nvs && c !in Bits()
      ensures ToParentIndex(c) == index
      ensures forall d: nat :: 0 < d < nvs && d !in Bits() && ToParentIndex(d) == index ==> c <= d
      ensures ToRadix(c) <= radix + 1 && WellFormed(Bits() + {c})
    {
      hide Pow2, ToLog2, ToRadix, WellFormed, RadixIs, BitsOf, TestBit;
      c := index;
      var r := ToRadix(index);
      ghost var r0, d := r, Depth(Bits(), index);
      BitIsMember(c);
      while Bit(c)
        invariant r0 <= r <= d + 1
        invariant if r == r0 then c == index else c == ToChildIndex(index, r - 1)
        invariant Bit(c) <==> c in Bits()
        decreases d + 1 - r
      {
        c := ToChildIndex(index, r);
        r := r + 1;
        BitIsMember(c);
      }
      SplitKeepsShape(Bits(), radix, index);
      forall e: nat | 0 < e < nvs && e !in Bits() && ToParentIndex(e) == index ensures c <= e {
        FirstUnsetChild(Bits(), index, e);
      }
    }

    /** The partition that owns the hash. */
    method HashToIndex(h: Hash) returns (i: nat)
      requires Valid()
      ensures i == Route(Bits(), radix, h) && i in Bits() && i < nvs
      ensures forall j :: Owns(Bits(), j, h) <==> j == i
    {
      i := ComputeIndexFromHash(h, radix);
      BitIsMember(i);
      while !Bit(i)
        invariant RouteFrom(Bits(), i) == Route(Bits(), radix, h)
        invariant Bit(i) <==> i in Bits()
        decreases i
      {
        ParentOf(i);
        i := ToParentIndex(i);
        BitIsMember(i);
      }
      forall j ensures Owns(Bits(), j, h) <==> j == i {
        RouteIffOwns(Bits(), radix, h, j);
      }
    }

    /** Splits partition index: the child it gets takes over exactly the hashes to be migrated. */
    method Split(index: nat) returns (c: nat)
      requires Valid() && index < MAX_PARTITIONS && Splittable(Bits(), index, nvs)
      modifies this, bitmap
      ensures Valid() && (fresh(bitmap) || bitmap == old(bitmap))
      ensures c !in old(Bits()) && Bits() == old(Bits()) + {c}
      ensures old(bitmap.Length) <= MAX_BITMAP ==> bitmap.Length <= MAX_BITMAP
      ensures forall h: Hash :: Route(Bits(), radix, h) == c <==> MigratesTo(c, h)
      ensures forall h: Hash :: MigratesTo(c, h) ==> old(Route(Bits(), radix, h)) == index
      ensures forall h: Hash :: !MigratesTo(c, h) ==> Route(Bits(), radix, h) == old(Route(Bits(), radix, h))
    {
      ghost var s, r := Bits(), radix;
      c := NewIndexForSplitting(index);
      Set(c);
      SplitKeepsShape(s, r, index);
      RadixIsUnique(Bits(), radix, if ToRadix(c) > r then ToRadix(c) else r);
      forall h: Hash
        ensures Route(Bits(), radix, h) == c <==> MigratesTo(c, h)
        ensures MigratesTo(c, h) ==> Route(s, r, h) == index
        ensures !MigratesTo(c, h) ==> Route(Bits(), radix, h) == Route(s, r, h)
      {
        SplitMovesExactly(s, r, index, h);
      }
    }

    method ToBeMigrated(index: nat, hash: Hash) returns (b: bool)
      requires index < MAX_PARTITIONS
      ensures b <==> MigratesTo(index, hash)
    {
      BelowMax(index);
      var i := ComputeIndexFromHash(hash, ToRadix(index));
      b := i == index;
    }

    // ----- Images and merging

    function ToSlice(): seq<bv8>
      reads this, bitmap
      requires Shape()
    {
      EncodeImage(zeroth, radix, bitmap[..BitmapSize(radix)])
    }

    /** An index and its image describe the same partitions. */
    lemma ImageIsGenuine()
      requires Valid()
      ensures forall paranoid ::
                ParseDirIndex(ToSlice(), paranoid) == Parsed(View(zeroth, radix, bitmap[..BitmapSize(radix)]))
      ensures Genuine(View(zeroth, radix, bitmap[..BitmapSize(radix)]), nvs)
      ensures BitsOf(bitmap[..BitmapSize(radix)]) == Bits() && BitmapSize(radix) <= MAX_BITMAP
    {
      SizeBound(radix);
      var body := bitmap[..BitmapSize(radix)];
      assert body == bitmap[..][..BitmapSize(radix)];
      PrefixHoldsAll(bitmap[..], radix);
      assert 0 in BitsOf(body);
      forall paranoid
        ensures ParseDirIndex(ToSlice(), paranoid) == Parsed(View(zeroth, radix, body))
      {
        ImageRoundTrip(zeroth, radix, body, paranoid);
      }
    }

    method OrBytes(other: seq<bv8>, n: nat)
      requires |other| <= n <= bitmap.Length
      modifies bitmap
      ensures Bits() == old(Bits()) + BitsOf(other)
    {
      ghost var bytes := bitmap[..];
      var i := 0;
      while i < n
        invariant 0 <= i <= n
        invariant forall k :: 0 <= k < i ==> bitmap[k] == bytes[k] | ByteAt(other, k)
        invariant forall k :: i <= k < bitmap.Length ==> bitmap[k] == bytes[k]
      {
        bitmap[i] := bitmap[i] | ByteAt(other, i);
        i := i + 1;
      }
      MergedBits(bytes, other, bitmap[..], n);
    }

    /** Joins in the bytes of another index, or of an image. The radix stays that of the highest bit if
        it is in the image, and the index stays a reachable one if the image is of one. */
    method DoMerge(other: View)
      requires Valid() && other.zeroth == zeroth
      requires BitmapSize(other.radix) <= |other.bytes| <= MAX_BITMAP
      modifies this, bitmap
      ensures Room() && (fresh(bitmap) || bitmap == old(bitmap))
      ensures Bits() == old(Bits()) + BitsOf(other.bytes)
      ensures radix == if other.radix > old(radix) then other.radix else old(radix)
      ensures RadixIs(BitsOf(other.bytes), other.radix) ==> Shape()
      ensures Genuine(other, nvs) ==> Valid()
      ensures old(bitmap.Length) <= MAX_BITMAP ==> bitmap.Length <= MAX_BITMAP
    {
      ghost var mine, r0 := Bits(), radix;
      SizeBound(radix);
      SizeBound(other.radix);
      var capacity := if BitmapSize(radix) > |other.bytes| then BitmapSize(radix) else |other.bytes|;
      if bitmap.Length <= MAX_BITMAP { ScaleWithinBounds(bitmap.Length, capacity); }
      ScaledIsCapacity(bitmap.Length, capacity);
      ScaleToSize(capacity);
      radix := if other.radix > radix then other.radix else radix;
      OrBytes(other.bytes, capacity);
      if Genuine(other, nvs) { UnionKeepsShape(mine, r0, BitsOf(other.bytes), other.radix); }
    }

    /** Update from an image: refuses what does not parse or names another zeroth server. Whatever bits
        the image has are joined in; paranoid parsing keeps the radix right whoever made the image. */
    method Update(image: seq<bv8>) returns (ok: bool)
      requires Valid() && |image| <= 4 + MAX_BITMAP
      modifies this, bitmap
      ensures Room() && (fresh(bitmap) || bitmap == old(bitmap))
      ensures ok <==> ParseDirIndex(image, paranoid).Parsed? && ParseDirIndex(image, paranoid).view.zeroth == zeroth
      ensures ok ==> var view := ParseDirIndex(image, paranoid).view;
                     && Bits() == old(Bits()) + BitsOf(view.bytes)
                     && radix == (if view.radix > old(radix) then view.radix else old(radix))
                     && (paranoid ==> Shape())
                     && (Genuine(view, nvs) ==> Valid())
      ensures !ok ==> Valid() && Bits() == old(Bits()) && radix == old(radix)
      ensures old(bitmap.Length) <= MAX_BITMAP ==> bitmap.Length <= MAX_BITMAP
    {
      match ParseDirIndex(image, paranoid)
      case Rejected => return false;
      case Parsed(view) =>
        if zeroth != view.zeroth {
          return false;
        }
        RadixCheck(view.bytes, view.radix);
        DoMerge(view);
        return true;
    }

    /** Update from another index of the same directory. */
    method UpdateFrom(other: DirIndex)
      requires Valid() && other.Valid() && other.zeroth == zeroth && other.nvs == nvs
      modifies this, bitmap
      ensures Valid() && (fresh(bitmap) || bitmap == old(bitmap))
      ensures Bits() == old(Bits()) + old(other.Bits())
      ensures radix == old(if other.radix > radix then other.radix else radix)
      ensures old(bitmap.Length) <= MAX_BITMAP ==> bitmap.Length <= MAX_BITMAP
    {
      other.ImageIsGenuine();
      DoMerge(View(other.zeroth, other.radix, other.bitmap[..BitmapSize(other.radix)]));
    }

    /** The image is a function of the partitions: whatever way two indices came by the same ones,
        they encode alike. So merging commutes, associates and absorbs, image for image. */
    lemma ImageDeterminedByBits(other: DirIndex)
      requires Valid() && other.Valid() && zeroth == other.zeroth && Bits() == other.Bits()
      ensures radix == other.radix && ToSlice() == other.ToSlice()
    {
      RadixIsUnique(Bits(), radix, other.radix);
      ImageIsGenuine();
      other.ImageIsGenuine();
      BitsDetermineBytes(bitmap[..BitmapSize(radix)], other.bitmap[..BitmapSize(radix)]);
    }
  }

  /** The class of hashes a child partition takes over. */
  ghost predicate MigratesTo(c: nat, h: Hash) {
    ToRadix(c) <= MAX_RADIX && FirstBits(h, ToRadix(c)) == c
  }

  /** The highest bit of the last byte that has one. */
  lemma TopOfByte(bytes: seq<bv8>, i: nat, off: nat)
    requires i < |bytes| && off < 8 && BitIn(bytes[i], off)
    requires forall k :: i < k < |bytes| ==> bytes[k] == 0
    requires forall k: nat :: off < k < 8 ==> !BitIn(bytes[i], k)
    ensures off + 8 * i in BitsOf(bytes) && forall j :: j in BitsOf(bytes) ==> j <= off + 8 * i
  {
    hide BitIn;
    var top := off + 8 * i;
    assert top / 8 == i && top % 8 == off;
    forall j | j in BitsOf(bytes) ensures j <= top {
      NoBitInZero(j % 8);
      assert j == 8 * (j / 8) + j % 8;
    }
  }

  lemma TopRadix(s: set<nat>, radix: nat, top: nat)
    requires RadixIs(s, radix) && top in s && forall i :: i in s ==> i <= top
    ensures ToRadix(top) == radix
  {
    RadixBound(top, ToRadix(top));
    forall i | i in s ensures ToRadix(i) <= ToRadix(top) { RadixBound(i, ToRadix(top)); }
  }

  lemma GrowthFits(index: nat, radix: nat, length: nat)
    requires ToRadix(index) <= radix + 1 && BitmapSize(radix) <= length
    ensures index < 2 * length * 8
    ensures ToRadix(index) <= radix ==> index < 8 * length
  {
    RadixBound(index, radix + 1);
    RadixBound(index, radix);
  }

  /** A bitmap within the largest has a radix within the largest, and the reverse. */
  lemma SizeBound(radix: nat)
    ensures radix <= MAX_RADIX <==> BitmapSize(radix) <= MAX_BITMAP
  {
    Pow2Sum(8, 8);
    assert Pow2(8) == 256;
    if radix > MAX_RADIX { Pow2Monotone(MAX_RADIX, radix); } else { Pow2Monotone(radix, MAX_RADIX); }
  }

  lemma RadixOfZero()
    ensures ToRadix(0) == 0
  {
  }

  lemma FirstBelow()
    ensures Below(1) == {0}
  {
  }

  lemma NextBelow(before: set<nat>, i: nat)
    requires i > 0
    ensures before + Below(i + 1) == before + Below(i) + {i} && i - 1 in Below(i)
  {
  }

  lemma NextRadix(i: nat)
    requires i > 0
    ensures ToRadix(i) <= ToRadix(i - 1) + 1
  {
    RadixBound(i - 1, ToRadix(i - 1));
    RadixBound(i, ToRadix(i - 1) + 1);
  }
}
