/** The partitions of a directory as sets of indices: which sets the index protocol can reach, how
    they divide the hash space, and what a split or a merge does to that division. */
module PartitionRouting {
  import opened ByteBits
  import opened PartitionBits

  const MAX_PARTITIONS: nat := 65536

  // ----- Shape of an index

  /** Partitions are closed under parents, and each partition has its children in increasing-radix
      order. */
  ghost predicate WellFormed(s: set<nat>) {
    && 0 in s
    && (forall i :: i in s ==> i < MAX_PARTITIONS && ToParentIndex(i) in s)
    && (forall i, r, r' :: i in s && ToRadix(i) <= r' < r && ToChildIndex(i, r) in s ==> ToChildIndex(i, r') in s)
  }

  /** r is the radix of the highest partition. */
  ghost predicate RadixIs(s: set<nat>, r: nat) {
    && (forall i :: i in s ==> ToRadix(i) <= r)
    && (r > 0 ==> exists i :: i in s && ToRadix(i) == r)
  }

  /** The radix at which partition i is next divided: one above its largest child's. */
  ghost function Depth(s: set<nat>, i: nat): (d: nat)
    ensures ToRadix(i) <= MAX_RADIX ==> ToRadix(i) <= d <= MAX_RADIX
  {
    DepthFrom(s, i, ToRadix(i))
  }

  ghost function DepthFrom(s: set<nat>, i: nat, r: nat): (d: nat)
    ensures r <= MAX_RADIX ==> r <= d <= MAX_RADIX
    ensures d < MAX_RADIX ==> ToChildIndex(i, d) !in s
    ensures forall r' :: r <= r' < d ==> ToChildIndex(i, r') in s
    decreases MAX_RADIX - r
  {
    if r >= MAX_RADIX then r
    else if ToChildIndex(i, r) !in s then r
    else DepthFrom(s, i, r + 1)
  }

  // ----- Routing

  /** Walks from j towards the root until a partition is met. */
  ghost function RouteFrom(s: set<nat>, j: nat): (i: nat)
    ensures 0 in s ==> i in s
  {
    if j in s || j == 0 then j
    else
      ParentOf(j);
      RouteFrom(s, ToParentIndex(j))
  }

  ghost function Route(s: set<nat>, radix: nat, h: Hash): nat
    requires radix <= MAX_RADIX
  {
    RouteFrom(s, FirstBits(h, radix))
  }

  /** The part of the hash space that belongs to partition i: the first Depth bits spell i. */
  ghost predicate Owns(s: set<nat>, i: nat, h: Hash) {
    && i in s && Depth(s, i) <= MAX_RADIX
    && FirstBits(h, Depth(s, i)) == i
  }

  /** j without the bits at k and above, removed from the top: its ancestor of radix at most k. */
  ghost function Ancestor(j: nat, k: nat): nat {
    if ToRadix(j) <= k then j
    else
      ParentOf(j);
      Ancestor(ToParentIndex(j), k)
  }

  lemma {:induction false} AncestorOfFirstBits(h: Hash, n: nat, m: nat)
    requires m <= n <= MAX_RADIX
    ensures Ancestor(FirstBits(h, n), m) == FirstBits(h, m)
    ensures ToRadix(FirstBits(h, n)) <= n
    decreases n
  {
    hide FirstBits, HashBit, Pow2, ToLog2;
    FirstBitsBound(h, n);
    RadixBound(FirstBits(h, n), n);
    if m < n {
      AncestorOfFirstBits(h, n - 1, m);
      FirstBitsStep(h, n - 1);
      if HashBit(h, n - 1) {
        ChildOf(FirstBits(h, n - 1), n - 1);
      }
    }
  }

  lemma {:induction false} AncestorRadix(j: nat, k: nat)
    ensures ToRadix(Ancestor(j, k)) <= k
    decreases j
  {
    if ToRadix(j) > k { ParentOf(j); AncestorRadix(ToParentIndex(j), k); }
  }

  lemma {:induction false} AncestorInSet(s: set<nat>, j: nat, k: nat)
    requires WellFormed(s) && j in s
    ensures Ancestor(j, k) in s
    decreases j
  {
    if ToRadix(j) > k { ParentOf(j); AncestorInSet(s, ToParentIndex(j), k); }
  }

  /** A partition above radix d hangs below some child of its ancestor at d, and so the ancestor's
      first child at or above d exists. */
  lemma {:induction false} AncestorHasChild(s: set<nat>, j: nat, d: nat) returns (b: nat)
    requires WellFormed(s) && j in s && ToRadix(j) > d
    ensures b >= d && ToChildIndex(Ancestor(j, d), b) in s && Ancestor(j, d) in s
    ensures ToChildIndex(Ancestor(j, d), d) in s
    decreases j
  {
    AncestorInSet(s, j, d);
    AncestorRadix(j, d);
    ParentOf(j);
    var p := ToParentIndex(j);
    if ToRadix(p) > d {
      b := AncestorHasChild(s, p, d);
    } else {
      b := ToRadix(j) - 1;
      assert Ancestor(j, d) == p;
    }
    if b > d { assert ToRadix(p) <= d ==> ToChildIndex(p, b) in s; }
  }

  /** The ancestor of partition j at the depth of partition i is i only when j is i itself. */
  lemma OnlySelfBelowDepth(s: set<nat>, i: nat, j: nat)
    requires WellFormed(s) && i in s && j in s && ToRadix(i) <= MAX_RADIX && ToRadix(j) <= MAX_RADIX
    requires Ancestor(j, Depth(s, i)) == i
    ensures i == j
  {
    if ToRadix(j) > Depth(s, i) {
      var b := AncestorHasChild(s, j, Depth(s, i));
    }
  }

  lemma MembersBelow(s: set<nat>, i: nat)
    requires WellFormed(s) && i in s
    ensures ToRadix(i) <= MAX_RADIX
  {
    RadixBound(i, MAX_RADIX);
    assert Pow2(16) == MAX_PARTITIONS by { Pow2Sum(8, 8); assert Pow2(8) == 256; }
  }

  /** At most one partition owns a hash. */
  lemma OwnerIsUnique(s: set<nat>, i: nat, j: nat, h: Hash)
    requires WellFormed(s) && Owns(s, i, h) && Owns(s, j, h)
    ensures i == j
  {
    MembersBelow(s, i);
    MembersBelow(s, j);
    var d, e := Depth(s, i), Depth(s, j);
    if d <= e {
      AncestorOfFirstBits(h, e, d);
      OnlySelfBelowDepth(s, i, j);
    } else {
      AncestorOfFirstBits(h, d, e);
      OnlySelfBelowDepth(s, j, i);
    }
  }

  /** No partition has a child at or above the radix of the index. */
  lemma DepthBelowRadix(s: set<nat>, radix: nat, i: nat)
    requires WellFormed(s) && RadixIs(s, radix) && radix <= MAX_RADIX && i in s
    ensures ToRadix(i) <= Depth(s, i) <= radix
  {
    MembersBelow(s, i);
    var d := Depth(s, i);
    ChildOf(i, radix);
    assert radix < d ==> ToChildIndex(i, radix) in s;
  }

  lemma {:induction false} RouteFromOwns(s: set<nat>, radix: nat, h: Hash, n: nat)
    requires WellFormed(s) && RadixIs(s, radix) && radix <= MAX_RADIX && n <= radix
    requires n < radix ==> ToChildIndex(FirstBits(h, n), n) !in s
    ensures Owns(s, RouteFrom(s, FirstBits(h, n)), h)
    decreases n
  {
    hide FirstBits, WellFormed, RadixIs, ToRadix;
    HasRoot(s);
    var j := FirstBits(h, n);
    AncestorOfFirstBits(h, n, n);
    if j in s {
      MembersBelow(s, j);
      DepthBelowRadix(s, radix, j);
      var d := Depth(s, j);
      if n < radix { DepthAtMost(s, j, n); }
      AncestorOfFirstBits(h, n, d);
    } else {
      ParentOf(j);
      var m := ToRadix(j) - 1;
      AncestorOfFirstBits(h, n, m);
      AncestorStep(j);
      RouteFromOwns(s, radix, h, m);
    }
  }

  lemma HasRoot(s: set<nat>)
    requires WellFormed(s)
    ensures 0 in s
  {
  }

  lemma DepthAtMost(s: set<nat>, j: nat, n: nat)
    requires ToRadix(j) <= n && ToChildIndex(j, n) !in s && ToRadix(j) <= MAX_RADIX
    ensures Depth(s, j) <= n
  {
    hide ToRadix, ToChildIndex;
    var d := Depth(s, j);
    assert n < d ==> ToChildIndex(j, n) in s;
  }

  lemma AncestorStep(j: nat)
    requires j > 0
    ensures Ancestor(j, ToRadix(j) - 1) == ToParentIndex(j)
  {
    ParentOf(j);
  }

  /** Routing: HashToIndex answers i exactly when the class of partition i holds the hash. */
  lemma RouteIffOwns(s: set<nat>, radix: nat, h: Hash, i: nat)
    requires WellFormed(s) && RadixIs(s, radix) && radix <= MAX_RADIX
    ensures Route(s, radix, h) == i <==> Owns(s, i, h)
  {
    RouteFromOwns(s, radix, h, radix);
    if Owns(s, i, h) {
      OwnerIsUnique(s, i, Route(s, radix, h), h);
    }
  }

  // ----- Splitting

  /** Partition i can be split when its next child is a virtual server. */
  ghost predicate Splittable(s: set<nat>, i: nat, nvs: nat) {
    i in s && Depth(s, i) < MAX_RADIX && ToChildIndex(i, Depth(s, i)) < nvs
  }

  /** The unset children of a partition are at its depth and above, the least of them at its depth. */
  lemma FirstUnsetChild(s: set<nat>, i: nat, c: nat)
    requires WellFormed(s) && i in s && c > 0 && c !in s && ToParentIndex(c) == i && c < MAX_PARTITIONS
    ensures Depth(s, i) < MAX_RADIX && ToChildIndex(i, Depth(s, i)) <= c
  {
    hide WellFormed, ToParentIndex, ToRadix, Pow2;
    MembersBelow(s, i);
    ParentOf(c);
    var r: nat := ToRadix(c) - 1;
    BelowMax(c);
    assert r < Depth(s, i) ==> ToChildIndex(i, r) in s;
    Pow2Monotone(Depth(s, i), r);
  }

  /** A partition can be split exactly if it has a child that does not exist and is a virtual server. */
  lemma SplittableIff(s: set<nat>, i: nat, nvs: nat)
    requires WellFormed(s) && nvs <= MAX_PARTITIONS
    ensures Splittable(s, i, nvs) <==>
            i in s && exists c: nat :: 0 < c < nvs && c !in s && ToParentIndex(c) == i
  {
    hide WellFormed, ToParentIndex, ToRadix, Depth;
    if Splittable(s, i, nvs) {
      MembersBelow(s, i);
      var d := Depth(s, i);
      assert ToRadix(i) <= d && ToChildIndex(i, d) !in s by { DepthMeans(s, i); }
      ChildOf(i, d);
      var c := ToChildIndex(i, d);
      assert c > 0 by { HasRoot(s); }
    }
    if i in s && exists c: nat :: 0 < c < nvs && c !in s && ToParentIndex(c) == i {
      var c: nat :| 0 < c < nvs && c !in s && ToParentIndex(c) == i;
      FirstUnsetChild(s, i, c);
    }
  }

  lemma DepthMeans(s: set<nat>, i: nat)
    requires ToRadix(i) <= MAX_RADIX
    ensures ToRadix(i) <= Depth(s, i) <= MAX_RADIX
    ensures Depth(s, i) < MAX_RADIX ==> ToChildIndex(i, Depth(s, i)) !in s
  {
  }

  /** As long as a virtual server has no partition, some partition can be split: the parent of the least. */
  lemma SplitGoesOn(s: set<nat>, nvs: nat) returns (i: nat)
    requires WellFormed(s) && 1 <= nvs <= MAX_PARTITIONS && exists c: nat :: c < nvs && c !in s
    ensures Splittable(s, i, nvs)
  {
    hide WellFormed, ToParentIndex, Depth;
    HasRoot(s);
    var c: nat :| c < nvs && c !in s;
    c := LeastUnset(s, c);
    ParentOf(c);
    i := ToParentIndex(c);
    SplittableIff(s, i, nvs);
  }

  lemma {:induction false} LeastUnset(s: set<nat>, c: nat) returns (d: nat)
    requires c !in s
    ensures d <= c && d !in s && forall e: nat :: e < d ==> e in s
    decreases c
  {
    if e: nat :| e < c && e !in s {
      d := LeastUnset(s, e);
    } else {
      d := c;
    }
  }

  lemma SplitKeepsShape(s: set<nat>, radix: nat, i: nat)
    requires WellFormed(s) && RadixIs(s, radix) && radix <= MAX_RADIX && i in s && Depth(s, i) < MAX_RADIX
    ensures var c := ToChildIndex(i, Depth(s, i));
            && c < MAX_PARTITIONS && ToRadix(c) <= radix + 1 && ToRadix(c) == Depth(s, i) + 1
            && ToParentIndex(c) == i && c !in s
            && WellFormed(s + {c})
            && RadixIs(s + {c}, if ToRadix(c) > radix then ToRadix(c) else radix)
  {
    MembersBelow(s, i);
    DepthBelowRadix(s, radix, i);
    var d := Depth(s, i);
    var c := ToChildIndex(i, d);
    ChildOf(i, d);
    BelowMax(c);
    var t := s + {c};
    forall j, r, r' | j in t && ToRadix(j) <= r' < r && ToChildIndex(j, r) in t
      ensures ToChildIndex(j, r') in t
    {
      // a child of c would have c as its parent; c itself is the child of i at radix d
      ChildOf(j, r);
    }
  }

  lemma BelowMax(c: nat)
    ensures ToRadix(c) <= MAX_RADIX <==> c < MAX_PARTITIONS
  {
    RadixBound(c, MAX_RADIX);
    assert Pow2(16) == MAX_PARTITIONS by { Pow2Sum(8, 8); assert Pow2(8) == 256; }
  }

  /** The depths after partition i has been split: i and its new child go one deeper, the rest stay. */
  lemma SplitDepths(s: set<nat>, radix: nat, i: nat, j: nat)
    requires WellFormed(s) && RadixIs(s, radix) && radix <= MAX_RADIX && i in s && Depth(s, i) < MAX_RADIX
    requires j in s + {ToChildIndex(i, Depth(s, i))}
    ensures var d := Depth(s, i); var c := ToChildIndex(i, d);
            Depth(s + {c}, j) == if j == i || j == c then d + 1 else Depth(s, j)
  {
    hide WellFormed, RadixIs, Depth, ToChildIndex, ToRadix;
    SplitKeepsShape(s, radix, i);
    var c := ToChildIndex(i, Depth(s, i));
    if j == c {
      ChildDepth(s, radix, i);
    } else if j == i {
      ParentDepth(s, radix, i);
    } else {
      OtherDepth(s, radix, i, j);
    }
  }

  lemma ChildDepth(s: set<nat>, radix: nat, i: nat)
    requires WellFormed(s) && RadixIs(s, radix) && radix <= MAX_RADIX && i in s && Depth(s, i) < MAX_RADIX
    ensures var c := ToChildIndex(i, Depth(s, i)); Depth(s + {c}, c) == Depth(s, i) + 1
  {
    hide RadixIs, Depth, ToChildIndex, ToRadix;
    SplitKeepsShape(s, radix, i);
    var d := Depth(s, i);
    var c := ToChildIndex(i, d);
    // a child of c would have c as its parent
    if d + 1 < MAX_RADIX { ChildOf(c, d + 1); }
    ChildIsLarger(c, d + 1);
    DepthIs(s + {c}, c, d + 1);
  }

  lemma ChildIsLarger(c: nat, r: nat)
    ensures ToChildIndex(c, r) != c
  {
  }

  lemma ParentDepth(s: set<nat>, radix: nat, i: nat)
    requires WellFormed(s) && RadixIs(s, radix) && radix <= MAX_RADIX && i in s && Depth(s, i) < MAX_RADIX
    ensures var c := ToChildIndex(i, Depth(s, i)); Depth(s + {c}, i) == Depth(s, i) + 1
  {
    hide RadixIs, ToChildIndex, ToRadix;
    MembersBelow(s, i);
    SplitKeepsShape(s, radix, i);
    var d := Depth(s, i);
    var c := ToChildIndex(i, d);
    if d + 1 < MAX_RADIX {
      ChildOf(i, d + 1);
      NextChildAbsent(s, i, d);
    }
    DepthIs(s + {c}, i, d + 1);
  }

  lemma OtherDepth(s: set<nat>, radix: nat, i: nat, j: nat)
    requires WellFormed(s) && RadixIs(s, radix) && radix <= MAX_RADIX && i in s && Depth(s, i) < MAX_RADIX
    requires j in s && j != i
    ensures Depth(s + {ToChildIndex(i, Depth(s, i))}, j) == Depth(s, j)
  {
    hide WellFormed, RadixIs, ToChildIndex, ToRadix;
    MembersBelow(s, j);
    SplitKeepsShape(s, radix, i);
    var e := Depth(s, j);
    if e < MAX_RADIX { ChildOf(j, e); }
    DepthIs(s + {ToChildIndex(i, Depth(s, i))}, j, e);
  }

  lemma NextChildAbsent(s: set<nat>, i: nat, d: nat)
    requires WellFormed(s) && i in s && ToRadix(i) <= d && ToChildIndex(i, d) !in s
    ensures ToChildIndex(i, d + 1) !in s
  {
  }

  lemma DepthIs(s: set<nat>, i: nat, d: nat)
    requires ToRadix(i) <= d <= MAX_RADIX
    requires d < MAX_RADIX ==> ToChildIndex(i, d) !in s
    requires forall r' :: ToRadix(i) <= r' < d ==> ToChildIndex(i, r') in s
    ensures Depth(s, i) == d
  {
    var e := Depth(s, i);
    assert d < e ==> ToChildIndex(i, d) in s;
  }

  lemma OwnerAfterSplit(h: Hash, i: nat, d: nat)
    requires d < MAX_RADIX && FirstBits(h, d) == i && FirstBits(h, d + 1) != ToChildIndex(i, d)
    ensures FirstBits(h, d + 1) == i
  {
    FirstBitsStep(h, d);
  }

  /** Split exactness. */
  lemma SplitMovesExactly(s: set<nat>, radix: nat, i: nat, h: Hash)
    requires WellFormed(s) && RadixIs(s, radix) && radix <= MAX_RADIX && i in s && Depth(s, i) < MAX_RADIX
    ensures var c := ToChildIndex(i, Depth(s, i));
            var radix' := if ToRadix(c) > radix then ToRadix(c) else radix;
            && ToRadix(c) <= MAX_RADIX && radix' <= MAX_RADIX
            && (Route(s + {c}, radix', h) == c <==> FirstBits(h, ToRadix(c)) == c)
            && (FirstBits(h, ToRadix(c)) == c ==> Route(s, radix, h) == i)
            && (FirstBits(h, ToRadix(c)) != c ==> Route(s + {c}, radix', h) == Route(s, radix, h))
  {
    hide Depth, FirstBits, ToChildIndex, Ancestor, WellFormed, RadixIs;
    SplitKeepsShape(s, radix, i);
    var d := Depth(s, i);
    var c := ToChildIndex(i, d);
    BelowMax(c);
    var radix' := if ToRadix(c) > radix then ToRadix(c) else radix;
    var t := s + {c};
    SplitDepths(s, radix, i, c);
    RouteIffOwns(t, radix', h, c);
    if FirstBits(h, d + 1) == c {
      AncestorOfFirstBits(h, d + 1, d);
      AncestorStep(c);
      RouteIffOwns(s, radix, h, i);
    } else {
      var k := Route(s, radix, h);
      RouteIffOwns(s, radix, h, k);
      SplitDepths(s, radix, i, k);
      if k == i { OwnerAfterSplit(h, i, d); }
      RouteIffOwns(t, radix', h, k);
    }
  }

  // ----- Merging

  lemma UnionKeepsShape(s: set<nat>, m: nat, t: set<nat>, n: nat)
    requires WellFormed(s) && RadixIs(s, m) && WellFormed(t) && RadixIs(t, n)
    ensures WellFormed(s + t) && RadixIs(s + t, if m > n then m else n)
  {
    forall i, r, r' | i in s + t && ToRadix(i) <= r' < r && ToChildIndex(i, r) in s + t
      ensures ToChildIndex(i, r') in s + t
    {
      ChildOf(i, r);
    }
  }

  lemma RadixIsUnique(s: set<nat>, m: nat, n: nat)
    requires RadixIs(s, m) && RadixIs(s, n)
    ensures m == n
  {
  }

  /** An index that knows fewer partitions routes every hash to an ancestor of the right one, or to
      the right one itself. */
  lemma StaleRouteIsAncestor(s: set<nat>, m: nat, t: set<nat>, n: nat, h: Hash)
    requires WellFormed(s) && RadixIs(s, m) && m <= MAX_RADIX
    requires WellFormed(t) && RadixIs(t, n) && n <= MAX_RADIX && s <= t
    ensures exists k :: Route(s, m, h) == Ancestor(Route(t, n, h), k)
  {
    var i, j := Route(s, m, h), Route(t, n, h);
    RouteIffOwns(s, m, h, i);
    RouteIffOwns(t, n, h, j);
    MembersBelow(s, i);
    MembersBelow(t, j);
    var d, e := Depth(s, i), Depth(t, j);
    if d <= e {
      AncestorOfFirstBits(h, e, d);
      assert i == Ancestor(j, d);
    } else {
      AncestorOfFirstBits(h, d, e);
      OnlySelfBelowDepth(t, j, i);
      assert i == Ancestor(j, e);
    }
  }

  // ----- Full indices

  ghost function Below(n: nat): (s: set<nat>)
    requires n > 0
    ensures forall i :: i in s <==> 0 <= i < n
  {
    if n == 1 then {0} else Below(n - 1) + {n - 1}
  }

  lemma FullKeepsShape(s: set<nat>, n: nat)
    requires WellFormed(s) && 0 < n <= MAX_PARTITIONS
    ensures WellFormed(s + Below(n))
  {
    var t := s + Below(n);
    forall i | i in t ensures ToParentIndex(i) in t {
      if i > 0 { ParentOf(i); }
    }
    forall i, r, r' | i in t && ToRadix(i) <= r' < r && ToChildIndex(i, r) in t
      ensures ToChildIndex(i, r') in t
    {
      ChildOf(i, r);
      Pow2Monotone(r', r);
    }
  }

  // ----- Every reachable index

  /** How an index comes about: created, filled, split at a partition, or merged from two others. */
  datatype History =
    | Created
    | Filled(before: History)
    | Split(before: History, partition: nat)
    | Merged(left: History, right: History)

  ghost function Partitions(b: History, nvs: nat): set<nat>
    requires nvs > 0
  {
    match b
    case Created => {0}
    case Filled(before) => Partitions(before, nvs) + Below(nvs)
    case Split(before, i) => Partitions(before, nvs) + {ToChildIndex(i, Depth(Partitions(before, nvs), i))}
    case Merged(left, right) => Partitions(left, nvs) + Partitions(right, nvs)
  }

  /** Splits happen only where IsSplittable allows them. */
  ghost predicate Legal(b: History, nvs: nat)
    requires nvs > 0
  {
    match b
    case Created => true
    case Filled(before) => Legal(before, nvs)
    case Split(before, i) => Legal(before, nvs) && Splittable(Partitions(before, nvs), i, nvs)
    case Merged(left, right) => Legal(left, nvs) && Legal(right, nvs)
  }

  lemma {:induction false} ReachableIsWellFormed(b: History, nvs: nat) returns (radix: nat)
    requires 1 <= nvs <= MAX_PARTITIONS && Legal(b, nvs)
    ensures WellFormed(Partitions(b, nvs)) && RadixIs(Partitions(b, nvs), radix) && radix <= MAX_RADIX
    ensures forall i :: i in Partitions(b, nvs) ==> i < nvs
  {
    var s := Partitions(b, nvs);
    match b
    case Created =>
      radix := 0;
    case Filled(before) =>
      var _ := ReachableIsWellFormed(before, nvs);
      FullKeepsShape(Partitions(before, nvs), nvs);
      radix := RadixExists(s, nvs);
    case Split(before, i) =>
      var r := ReachableIsWellFormed(before, nvs);
      SplitKeepsShape(Partitions(before, nvs), r, i);
      radix := RadixExists(s, nvs);
    case Merged(left, right) =>
      var m := ReachableIsWellFormed(left, nvs);
      var n := ReachableIsWellFormed(right, nvs);
      UnionKeepsShape(Partitions(left, nvs), m, Partitions(right, nvs), n);
      radix := if m > n then m else n;
  }

  lemma {:induction false} RadixExists(s: set<nat>, bound: nat) returns (radix: nat)
    requires 0 in s && bound <= MAX_PARTITIONS && forall i :: i in s ==> i < bound
    ensures RadixIs(s, radix) && radix <= MAX_RADIX
    decreases bound
  {
    var top := bound - 1;
    if top in s {
      radix := ToRadix(top);
      BelowMax(top);
      forall i | i in s ensures ToRadix(i) <= radix {
        RadixBound(top, radix);
        RadixBound(i, radix);
      }
    } else {
      radix := RadixExists(s, top);
    }
  }

  /** In every reachable index some partition can be split, until there is one for every virtual server. */
  lemma ReachableSplitGoesOn(b: History, nvs: nat)
    requires 1 <= nvs <= MAX_PARTITIONS && Legal(b, nvs)
    ensures (forall c: nat :: c < nvs ==> c in Partitions(b, nvs))
            || exists i: nat :: Splittable(Partitions(b, nvs), i, nvs)
  {
    hide Partitions, Splittable, Legal;
    var _ := ReachableIsWellFormed(b, nvs);
    if exists c: nat :: c < nvs && c !in Partitions(b, nvs) {
      var i := SplitGoesOn(Partitions(b, nvs), nvs);
    }
  }

  /** Tiling, for every reachable index: each hash has exactly one owner, and routing finds it. */
  lemma ReachableTiling(b: History, nvs: nat, h: Hash) returns (radix: nat, owner: nat)
    requires 1 <= nvs <= MAX_PARTITIONS && Legal(b, nvs)
    ensures var s := Partitions(b, nvs);
            && RadixIs(s, radix) && radix <= MAX_RADIX && Route(s, radix, h) == owner && owner < nvs
            && forall i :: Owns(s, i, h) <==> i == owner
  {
    radix := ReachableIsWellFormed(b, nvs);
    var s := Partitions(b, nvs);
    owner := Route(s, radix, h);
    forall i ensures Owns(s, i, h) <==> i == owner {
      RouteIffOwns(s, radix, h, i);
    }
  }
}
