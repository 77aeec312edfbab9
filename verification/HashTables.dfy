/** The intrusive hash table of external/pdlfs-common/include/pdlfs-common/hashmap.h: buckets are chains
    through the entries themselves. */
module HashTables {
  import opened CacheModel
  import opened ByteBits
  import opened BitVectors

  /** An entry of the cache, with the links of its bucket and of the list that holds it. */
  class Entry {
    const slot: Slot
    const charge: nat
    var nextHash: Entry?
    var next: Entry?
    var prev: Entry?
    var refs: nat
    var inCache: bool

    constructor (slot: Slot, charge: nat)
      ensures this.slot == slot && this.charge == charge
    {
      this.slot, this.charge := slot, charge;
      nextHash, next, prev, refs, inCache := null, null, null, 0, false;
    }

    /** The dummy head of a circular list. */
    constructor Head()
      ensures next == this && prev == this
    {
      slot, charge := Slot([], 0), 0;
      nextHash, refs, inCache := null, 0, false;
      new;
      next, prev := this, this;
    }
  }

  predicate PowerOfTwo(n: nat) {
    n == 1 || (n > 1 && n % 2 == 0 && PowerOfTwo(n / 2))
  }

  /** The bucket of a hash; see BucketIsMask. */
  function Bucket(hash: nat, length: nat): (b: nat)
    requires length > 0
    ensures b < length
  {
    hash % length
  }

  const HASH_WIDTH: nat := 32

  /** a & b, as words of some width. */
  function Masked(a: nat, b: nat, width: nat): nat {
    Number(And(Digits(a, width), Digits(b, width)))
  }

  lemma MaskStep(a: nat, b: nat, width: nat)
    requires width > 0
    ensures Masked(a, b, width) == 2 * Masked(a / 2, b / 2, width - 1) + if a % 2 == 1 && b % 2 == 1 then 1 else 0
  {
    hide And, Number;
    var w := And(Digits(a, width), Digits(b, width));
    assert w[..width - 1] == And(Digits(a / 2, width - 1), Digits(b / 2, width - 1));
    LastDigit(w);
  }

  lemma LastDigit(b: Block)
    requires |b| > 0
    ensures Number(b) == 2 * Number(b[..|b| - 1]) + if b[|b| - 1] then 1 else 0
  {
  }

  /** For lengths that are powers of two the bucket is hash & (length - 1) on words. */
  lemma {:induction false} MaskIsRemainder(hash: nat, length: nat, width: nat)
    requires PowerOfTwo(length) && hash < Pow2(width) && length <= Pow2(width)
    ensures Masked(hash, length - 1, width) == hash % length
    decreases width
  {
    hide Masked, Pow2, PowerOfTwo;
    Halves(hash, length, width);
    if width == 0 {
      NoBitsMasked();
    } else {
      MaskStep(hash, length - 1, width);
      if length == 1 {
        MaskIsRemainder(hash / 2, 1, width - 1);
      } else {
        MaskIsRemainder(hash / 2, length / 2, width - 1);
        HalfRemainder(hash, length / 2);
      }
    }
  }

  lemma Halves(hash: nat, length: nat, width: nat)
    requires PowerOfTwo(length) && hash < Pow2(width) && length <= Pow2(width)
    ensures length > 0 && hash % 1 == 0 && (width == 0 ==> hash == 0 && length == 1)
    ensures width > 0 ==> hash / 2 < Pow2(width - 1) && 1 <= Pow2(width - 1) && PowerOfTwo(1)
    ensures length > 1 ==>
              && width > 0 && length == 2 * (length / 2) && PowerOfTwo(length / 2) && length / 2 <= Pow2(width - 1)
              && (length - 1) / 2 == length / 2 - 1 && (length - 1) % 2 == 1
  {
  }

  lemma NoBitsMasked()
    ensures Masked(0, 0, 0) == 0
  {
  }

  lemma HalfRemainder(hash: nat, half: nat)
    requires half > 0
    ensures hash % (2 * half) == 2 * (hash / 2 % half) + hash % 2
  {
    var q, r := hash / 2 / half, hash / 2 % half;
    Parts(hash / 2, half);
    assert hash == q * (2 * half) + (2 * r + hash % 2);
    PartsAreUnique(q, 2 * r + hash % 2, 2 * half);
  }

  /** Following the links from p one meets the chain and then q. */
  ghost predicate Linked(p: Entry?, chain: seq<Entry>, q: Entry?)
    reads (set e | e in chain)`nextHash
  {
    && (p == if |chain| == 0 then q else chain[0])
    && forall j :: 0 <= j < |chain| ==> chain[j].nextHash == if j + 1 < |chain| then chain[j + 1] else q
  }

  lemma NextIs(p: Entry?, chain: seq<Entry>, q: Entry?, j: nat)
    requires Linked(p, chain, q) && j < |chain|
    ensures chain[j].nextHash == if j + 1 < |chain| then chain[j + 1] else q
  {
  }

  lemma SplitLinks(p: Entry?, a: seq<Entry>, b: seq<Entry>, q: Entry?, chain: seq<Entry>)
    requires Linked(p, chain, q) && chain == a + b
    ensures Linked(p, a, if |b| == 0 then q else b[0]) && Linked(if |b| == 0 then q else b[0], b, q)
  {
    forall k: nat | k < |a| ensures a[k].nextHash == if k + 1 < |a| then a[k + 1] else if |b| == 0 then q else b[0] {
      NextIs(p, chain, q, k);
      assert a[k] == chain[k];
    }
    forall k: nat | k < |b| ensures b[k].nextHash == if k + 1 < |b| then b[k + 1] else q {
      var i := |a| + k;
      NextIs(p, chain, q, i);
      assert b[k] == chain[i] && (k + 1 < |b| ==> b[k + 1] == chain[i + 1]);
    }
  }

  lemma JoinLinks(p: Entry?, a: seq<Entry>, m: Entry?, b: seq<Entry>, q: Entry?, chain: seq<Entry>)
    requires Linked(p, a, m) && Linked(m, b, q) && chain == a + b
    ensures Linked(p, chain, q)
  {
    forall k: nat | k < |chain| ensures chain[k].nextHash == if k + 1 < |chain| then chain[k + 1] else q {
      if k < |a| {
        NextIs(p, a, m, k);
        assert chain[k] == a[k] && (k + 1 < |a| ==> chain[k + 1] == a[k + 1]);
      } else {
        var i := k - |a|;
        NextIs(m, b, q, i);
        assert chain[k] == b[i] && (i + 1 < |b| ==> chain[k + 1] == b[i + 1]);
      }
    }
  }

  ghost function Members(chains: seq<seq<Entry>>): set<Entry> {
    set b, e | 0 <= b < |chains| && e in chains[b] :: e
  }

  ghost predicate InBucket(chains: seq<seq<Entry>>, b: nat)
    requires b < |chains|
  {
    Distinct(chains[b]) && forall e :: e in chains[b] ==> Bucket(e.slot.hash, |chains|) == b
  }

  /** Every bucket holds its chain, and every entry is in the bucket of its hash. */
  ghost predicate TableOf(list: array<Entry?>, chains: seq<seq<Entry>>)
    reads list, Members(chains)`nextHash
  {
    && |chains| == list.Length > 0
    && (forall b: nat :: b < |chains| ==> Linked(list[b], chains[b], null))
    && (forall b: nat :: b < |chains| ==> InBucket(chains, b))
  }

  /** No two entries have one key and hash. */
  ghost predicate OneEach(s: set<Entry>) {
    forall x, y :: x in s && y in s && x.slot == y.slot ==> x == y
  }

  /** What the search for a slot finds among the entries. */
  ghost predicate Found(s: set<Entry>, slot: Slot, e: Entry?) {
    if e == null then forall x :: x in s ==> x.slot != slot else e in s && e.slot == slot
  }

  lemma MembersUpdate(chains: seq<seq<Entry>>, b: nat, chain: seq<Entry>)
    requires b < |chains| && (forall c: nat :: c < |chains| ==> InBucket(chains, c))
    ensures Members(chains[b := chain]) == Members(chains) - (set e | e in chains[b]) + (set e | e in chain)
  {
    var next := chains[b := chain];
    forall e | e in Members(next) ensures e in Members(chains) - (set x | x in chains[b]) + (set x | x in chain) {
      var c :| 0 <= c < |next| && e in next[c];
      if c != b { assert e in chains[c] && InBucket(chains, c) && InBucket(chains, b); }
    }
    forall e | e in Members(chains) - (set x | x in chains[b]) + (set x | x in chain) ensures e in Members(next) {
      if e in chain {
        assert e in next[b];
      } else {
        var c :| 0 <= c < |chains| && e in chains[c];
        assert e in next[c];
      }
    }
  }

  /** An entry in some chain is in the one of its hash. */
  lemma OwnBucket(chains: seq<seq<Entry>>, e: Entry)
    requires |chains| > 0 && (forall b: nat :: b < |chains| ==> InBucket(chains, b))
    ensures e in Members(chains) <==> e in chains[Bucket(e.slot.hash, |chains|)]
  {
    if e in Members(chains) {
      var c: nat :| c < |chains| && e in chains[c];
      assert InBucket(chains, c);
    }
  }

  /** Links an entry in as the first of its bucket. */
  method PushFront(e: Entry, list: array<Entry?>, ghost chains: seq<seq<Entry>>) returns (ghost after: seq<seq<Entry>>)
    requires TableOf(list, chains) && e !in Members(chains)
    modifies list, e`nextHash
    ensures TableOf(list, after) && |after| == |chains| && Members(after) == Members(chains) + {e}
  {
    hide Bucket;
    var b := Bucket(e.slot.hash, list.Length);
    after := chains[b := [e] + chains[b]];
    MembersUpdate(chains, b, [e] + chains[b]);
    forall c: nat | c < |chains| ensures e !in chains[c] { assert e in chains[c] ==> e in Members(chains); }
    e.nextHash := list[b];
    list[b] := e;
    forall c: nat | c < |after| ensures Linked(list[c], after[c], null) {
      assert old(Linked(list[c], chains[c], null));
      assert Linked(if c == b then e.nextHash else list[c], chains[c], null);
      if c == b { JoinLinks(e, [e], e.nextHash, chains[c], null, after[c]); }
    }
    forall c: nat | c < |after| ensures InBucket(after, c) {
      assert InBucket(chains, c);
    }
  }

  /** Moves a whole chain to a new list. */
  method MoveChain(head: Entry?, ghost chain: seq<Entry>, list: array<Entry?>, ghost chains: seq<seq<Entry>>,
                   count: nat)
    returns (ghost after: seq<seq<Entry>>, count': nat)
    requires Linked(head, chain, null) && Distinct(chain) && TableOf(list, chains)
    requires forall e :: e in chain ==> e !in Members(chains)
    modifies list, (set e | e in chain)`nextHash
    ensures TableOf(list, after) && |after| == |chains| && Members(after) == Members(chains) + (set e | e in chain)
    ensures count' == count + |chain|
  {
    hide TableOf, Members;
    after, count' := chains, count;
    var e := head;
    ghost var j := 0;
    while e != null
      invariant 0 <= j <= |chain| && (e == if j < |chain| then chain[j] else null)
      invariant forall i :: j <= i < |chain| ==> chain[i].nextHash == if i + 1 < |chain| then chain[i + 1] else null
      invariant TableOf(list, after) && |after| == |chains|
                && Members(after) == Members(chains) + (set i | 0 <= i < j :: chain[i])
      invariant count' == count + j
      decreases |chain| - j
    {
      var next := e.nextHash;
      assert e !in Members(chains) && forall i :: 0 <= i < j ==> chain[i] != e;
      after := PushFront(e, list, after);
      e := next;
      j := j + 1;
      count' := count' + 1;
    }
  }

  /** The number of buckets for so many entries. */
  method LengthFor(elems: nat) returns (length: nat)
    ensures length >= 4 && PowerOfTwo(length) && length >= elems
  {
    length := 4;
    while length < elems
      invariant length >= 4 && PowerOfTwo(length)
      decreases elems - length
    {
      length := length * 2;
    }
  }

  class HashTable {
    var length: nat
    var elems: nat
    var list: array<Entry?>
    ghost var chains: seq<seq<Entry>>

    ghost predicate Valid()
      reads this, list, Members(chains)`nextHash
    {
      && TableOf(list, chains) && length == list.Length == |chains| && length >= 4 && PowerOfTwo(length)
      && elems == |Members(chains)|
      && OneEach(Members(chains))
    }

    ghost function Entries(): set<Entry>
      reads this
    {
      Members(chains)
    }

    /** The table's own lengths are powers of two, so its buckets are where the source's mask finds them. */
    lemma BucketIsMask(hash: nat)
      requires Valid() && hash < Pow2(HASH_WIDTH) && length < Pow2(HASH_WIDTH)
      ensures Masked(hash, length - 1, HASH_WIDTH) == Bucket(hash, length)
    {
      hide Masked, Pow2, PowerOfTwo, TableOf, OneEach;
      MaskIsRemainder(hash, length, HASH_WIDTH);
    }

    constructor ()
      ensures Valid() && Entries() == {} && fresh(list)
    {
      length, elems, list, chains := 4, 0, new Entry?[4](_ => null), [[], [], [], []];
      new;
      assert Members(chains) == {};
    }

    /** Rebuilds the table so that it has at least as many buckets as entries. */
    method Resize()
      requires TableOf(list, chains) && length == list.Length == |chains|
      requires elems == |Members(chains)|
      requires OneEach(Members(chains))
      modifies this, Members(chains)`nextHash
      ensures Valid() && Entries() == old(Entries()) && elems == old(elems) <= length && fresh(list)
    {
      hide Members, Bucket, OneEach, PowerOfTwo;
      var newLength := LengthFor(elems);
      var newList, count;
      ghost var newChains;
      newList, newChains, count := Relink(newLength);
      assert elems == count;
      list, length, chains := newList, newLength, newChains;
    }

    /** Moves all entries to a new list. */
    method Relink(newLength: nat) returns (newList: array<Entry?>, ghost newChains: seq<seq<Entry>>, count: nat)
      requires TableOf(list, chains) && length == list.Length == |chains| && newLength > 0
      modifies Members(chains)`nextHash
      ensures TableOf(newList, newChains) && |newChains| == newList.Length == newLength && fresh(newList)
      ensures Members(newChains) == Members(chains) && count == |Members(chains)|
    {
      hide Members, Bucket;
      newList := new Entry?[newLength](_ => null);
      newChains := seq(newLength, _ => []);
      NoMembers(newLength);
      assert chains[..0] == [];
      count := 0;
      var i := 0;
      while i < length
        invariant 0 <= i <= length
        invariant TableOf(newList, newChains) && |newChains| == newLength && fresh(newList)
        invariant Members(newChains) == Members(chains[..i]) && count == |Members(chains[..i])|
        invariant forall b: nat :: i <= b < length ==> Linked(list[b], chains[b], null)
      {
        assert InBucket(chains, i);
        DisjointBucket(chains, i);
        newChains, count := MoveChain(list[i], chains[i], newList, newChains, count);
        i := i + 1;
      }
      assert chains[..length] == chains;
    }

    /** The slot where the search for a key ends: the link behind prev, or the bucket's own. */
    method FindPointer(slot: Slot) returns (b: nat, prev: Entry?, curr: Entry?, ghost j: nat)
      requires Valid()
      ensures Valid() && b == Bucket(slot.hash, length) && j <= |chains[b]|
      ensures prev == (if j == 0 then null else chains[b][j - 1])
              && curr == if j < |chains[b]| then chains[b][j] else null
      ensures Found(Entries(), slot, curr)
    {
      hide Members;
      b := Bucket(slot.hash, length);
      assert InBucket(chains, b) && Linked(list[b], chains[b], null);
      prev, curr, j := null, list[b], 0;
      while curr != null && curr.slot != slot
        invariant j <= |chains[b]| && curr == (if j < |chains[b]| then chains[b][j] else null)
        invariant prev == if j == 0 then null else chains[b][j - 1]
        invariant forall i :: 0 <= i < j ==> chains[b][i].slot != slot
        decreases |chains[b]| - j
      {
        NextIs(list[b], chains[b], null, j);
        prev, curr, j := curr, curr.nextHash, j + 1;
      }
      forall e | e in Entries() && e.slot == slot ensures curr != null { OwnBucket(chains, e); }
      if curr != null { OwnBucket(chains, curr); }
    }

    /** Stores a link in a slot: what the chain had from j on gives way to what hangs on the link. */
    method Store(b: nat, prev: Entry?, p: Entry?, ghost j: nat, ghost tail: seq<Entry>)
      requires TableOf(list, chains) && length == list.Length && b < length && j <= |chains[b]|
      requires prev == (if j == 0 then null else chains[b][j - 1])
      requires Linked(p, tail, null) && forall e :: e in tail ==> e !in chains[b][..j]
      requires forall c: nat, e :: c < length && c != b && e in tail ==> e !in chains[c]
      requires InBucket(chains[b := chains[b][..j] + tail], b)
      modifies list, this`chains, Members(chains)`nextHash
      ensures TableOf(list, chains) && chains == old(chains[b := chains[b][..j] + tail])
    {
      hide Members, Bucket, InBucket;
      ghost var front := chains[b][..j];
      SplitLinks(list[b], front, chains[b][j..], null, chains[b]);
      DistinctBucket(chains, b);
      if prev == null {
        list[b] := p;
      } else {
        AllMembers(chains, b);
        prev.nextHash := p;
      }
      ghost var before := chains;
      chains := chains[b := front + tail];
      JoinLinks(list[b], front, p, tail, null, chains[b]);
      forall c: nat | c < |chains| && c != b ensures Linked(list[c], chains[c], null) {
        assert old(Linked(list[c], chains[c], null));
        if prev != null { OtherBucket(before, b, c, prev); }
      }
      forall c: nat | c < |chains| ensures InBucket(chains, c) {
        if c != b { SameBucket(before, chains, c); }
      }
    }

    /** The part of Inject before the table may be rebuilt. */
    method Place(e: Entry, b: nat, prev: Entry?, curr: Entry?, ghost j: nat)
      requires Valid() && e !in Entries() && b == Bucket(e.slot.hash, length) && j <= |chains[b]|
      requires prev == (if j == 0 then null else chains[b][j - 1])
               && curr == if j < |chains[b]| then chains[b][j] else null
      requires Found(Entries(), e.slot, curr)
      modifies this`elems, this`chains, list, Entries()`nextHash, e`nextHash
      ensures Valid() && Entries() == Without(old(Entries()), curr) + {e} && Entries() <= old(Entries()) + {e}
    {
      hide Members, Bucket, InBucket, TableOf, Linked, PowerOfTwo, OneEach, Found, Without;
      ghost var rest := LinkIn(e, list, chains, b, j, curr);
      PlaceEffect(chains, b, j, e, curr, chains[b := chains[b][..j] + ([e] + rest)]);
      Store(b, prev, e, j, [e] + rest);
      if curr == null {
        elems := elems + 1;
      }
    }

    /** Puts an entry into a slot, in the place of the one it points to, if any. */
    method Inject(e: Entry, b: nat, prev: Entry?, curr: Entry?, ghost j: nat)
      requires Valid() && e !in Entries() && b == Bucket(e.slot.hash, length) && j <= |chains[b]|
      requires prev == (if j == 0 then null else chains[b][j - 1])
               && curr == if j < |chains[b]| then chains[b][j] else null
      requires Found(Entries(), e.slot, curr)
      modifies this, list, Entries()`nextHash, e`nextHash
      ensures Valid() && (list == old(list) || fresh(list)) && Entries() == Without(old(Entries()), curr) + {e}
      ensures curr == null && elems > old(length) ==> fresh(list) && elems <= length
    {
      hide Members, Bucket, InBucket, TableOf, Linked, PowerOfTwo, OneEach, Found, Without;
      Place(e, b, prev, curr, j);
      if curr == null && elems > length {
        Resize();
      }
    }

    /** The entry takes the place of the one with its key and hash, if there is one. */
    method Insert(e: Entry) returns (previous: Entry?)
      requires Valid() && e !in Entries()
      modifies this, list, Entries()`nextHash, e`nextHash
      ensures Valid() && (list == old(list) || fresh(list)) && Entries() == Without(old(Entries()), previous) + {e}
      ensures Found(old(Entries()), e.slot, previous)
    {
      hide Members, Bucket, InBucket, TableOf, Linked, PowerOfTwo, OneEach, Found, Without;
      var b, prev;
      ghost var j;
      b, prev, previous, j := FindPointer(e.slot);
      Inject(e, b, prev, previous, j);
    }

    /** Takes the entry out of the slot that points to it. */
    method Unlink(b: nat, prev: Entry?, curr: Entry, ghost j: nat)
      requires Valid() && b < length && j < |chains[b]|
      requires prev == (if j == 0 then null else chains[b][j - 1]) && curr == chains[b][j]
      modifies this, list, Entries()`nextHash
      ensures Valid() && list == old(list) && Entries() == old(Entries()) - {curr} && curr in old(Entries())
    {
      hide Members, Bucket, InBucket, TableOf, Linked, PowerOfTwo, OneEach, Without;
      ghost var entries := Entries();
      ghost var rest := chains[b][j + 1..];
      PastEntry(list, chains, b, j);
      SplicedBucket(chains, b, j, [], chains[b := chains[b][..j] + ([] + rest)]);
      assert [] + rest == rest;
      Store(b, prev, curr.nextHash, j, rest);
      TakenOut(entries, curr);
      elems := elems - 1;
    }

    /** Takes out the entry with a key and hash. */
    method Remove(slot: Slot) returns (e: Entry?)
      requires Valid()
      modifies this, list, Entries()`nextHash
      ensures Valid() && list == old(list) && Entries() == Without(old(Entries()), e) && Found(old(Entries()), slot, e)
    {
      hide Members, Bucket, InBucket, TableOf, Linked, PowerOfTwo, OneEach, Found;
      var b, prev;
      ghost var j;
      b, prev, e, j := FindPointer(slot);
      if e != null {
        Unlink(b, prev, e, j);
      }
    }

    /** Takes out this entry; another one with its key and hash stays. */
    method RemoveEntry(e: Entry) returns (r: Entry?)
      requires Valid()
      modifies this, list, Entries()`nextHash
      ensures Valid() && list == old(list) && Entries() == old(Entries()) - {e}
      ensures r == if e in old(Entries()) then e else null
    {
      hide Members, Bucket, InBucket, TableOf, Linked, PowerOfTwo, Without;
      var b, prev, curr;
      ghost var j;
      b, prev, curr, j := FindPointer(e.slot);
      if e == curr {
        Unlink(b, prev, e, j);
        r := e;
      } else {
        r := null;
      }
    }
  }

  lemma DistinctBucket(chains: seq<seq<Entry>>, b: nat)
    requires b < |chains| && InBucket(chains, b)
    ensures Distinct(chains[b])
  {
  }

  lemma OtherBucket(chains: seq<seq<Entry>>, b: nat, c: nat, e: Entry)
    requires b < |chains| && c < |chains| && b != c && InBucket(chains, b) && InBucket(chains, c) && e in chains[b]
    ensures e !in chains[c]
  {
    hide Bucket;
  }

  lemma SameBucket(before: seq<seq<Entry>>, after: seq<seq<Entry>>, c: nat)
    requires c < |before| == |after| && before[c] == after[c] && InBucket(before, c)
    ensures InBucket(after, c)
  {
    hide Bucket;
  }

  lemma PastEntry(list: array<Entry?>, chains: seq<seq<Entry>>, b: nat, j: nat)
    requires TableOf(list, chains) && b < |chains| == list.Length && j < |chains[b]|
    ensures Linked(chains[b][j].nextHash, chains[b][j + 1..], null) && chains[b][j] in Members(chains)
    ensures forall c: nat :: c < |chains| ==> InBucket(chains, c)
  {
    hide TableOf, InBucket, Linked;
    BucketOf(list, chains, b);
    AllMembers(chains, b);
    var rest := chains[b][j + 1..];
    assert chains[b][..j + 1] + rest == chains[b];
    SplitLinks(list[b], chains[b][..j + 1], rest, null, chains[b]);
    NextIs(list[b], chains[b], null, j);
  }

  lemma TakenOut(s: set<Entry>, e: Entry)
    requires OneEach(s) && e in s
    ensures OneEach(s - {e}) && Without(s, e) + (set x: Entry | x in []) == s - {e}
  {
  }

  lemma Replaced(s: set<Entry>, gone: Entry?, e: Entry)
    requires OneEach(s) && e !in s && Found(s, e.slot, gone)
    ensures Without(s, gone) <= s && OneEach(Without(s, gone) + {e})
            && |Without(s, gone) + {e}| == |s| + if gone == null then 1 else 0
  {
    if gone == null { assert Without(s, gone) == s; } else { assert Without(s, gone) == s - {gone}; }
  }

  /** What the entries are when e takes the place of curr. */
  lemma PlaceEffect(chains: seq<seq<Entry>>, b: nat, j: nat, e: Entry, curr: Entry?, next: seq<seq<Entry>>)
    requires b < |chains| && j <= |chains[b]| && (forall c: nat :: c < |chains| ==> InBucket(chains, c))
    requires e !in Members(chains) && Bucket(e.slot.hash, |chains|) == b && OneEach(Members(chains))
    requires curr == (if j < |chains[b]| then chains[b][j] else null) && Found(Members(chains), e.slot, curr)
    requires next == chains[b := chains[b][..j] + ([e] + chains[b][if j < |chains[b]| then j + 1 else j..])]
    ensures InBucket(next, b) && Members(next) == Without(Members(chains), curr) + {e} && OneEach(Members(next))
    ensures |Members(next)| == |Members(chains)| + if curr == null then 1 else 0
    ensures Members(next) <= Members(chains) + {e}
    ensures var rest := chains[b][if j < |chains[b]| then j + 1 else j..];
            && (forall x :: x in [e] + rest ==> x !in chains[b][..j])
            && forall c: nat, x :: c < |chains| && c != b && x in [e] + rest ==> x !in chains[c]
  {
    hide Members, Bucket, InBucket, OneEach, Found, Without;
    SplicedBucket(chains, b, j, [e], next);
    assert (set x | x in [e]) == {e};
    Replaced(Members(chains), curr, e);
  }

  /** Makes an entry point behind the one it is to replace. */
  method LinkIn(e: Entry, list: array<Entry?>, ghost chains: seq<seq<Entry>>, b: nat, ghost j: nat, curr: Entry?)
    returns (ghost rest: seq<Entry>)
    requires TableOf(list, chains) && b < |chains| == list.Length && j <= |chains[b]| && e !in Members(chains)
    requires curr == if j < |chains[b]| then chains[b][j] else null
    modifies e`nextHash
    ensures TableOf(list, chains) && rest == chains[b][if j < |chains[b]| then j + 1 else j..]
    ensures Linked(e, [e] + rest, null)
    ensures forall c: nat :: c < |chains| ==> InBucket(chains, c)
  {
    hide Members, TableOf, InBucket;
    ghost var k := if j < |chains[b]| then j + 1 else j;
    rest := chains[b][k..];
    BucketOf(list, chains, b);
    e.nextHash := if curr == null then null else curr.nextHash;
    BucketOf(list, chains, b);
    assert chains[b][..k] + rest == chains[b];
    SplitLinks(list[b], chains[b][..k], rest, null, chains[b]);
    if curr != null {
      AllMembers(chains, b);
      NextIs(list[b], chains[b], null, j);
    }
    JoinLinks(e, [e], e.nextHash, rest, null, [e] + rest);
  }

  /** The entries without one of them, or all of them. */
  ghost function Without(s: set<Entry>, e: Entry?): set<Entry> {
    set x | x in s && x != e
  }

  lemma SpliceDistinct(chain: seq<Entry>, j: nat, k: nat, mid: seq<Entry>)
    requires Distinct(chain) && j <= k <= |chain| && |mid| <= 1 && forall e :: e in mid ==> e !in chain
    ensures Distinct(chain[..j] + (mid + chain[k..]))
  {
    var c := chain[..j] + (mid + chain[k..]);
    forall x, y | 0 <= x < y < |c| ensures c[x] != c[y] {
      assert x < j ==> c[x] == chain[x];
      assert y < j ==> c[y] == chain[y];
      assert j <= x < j + |mid| ==> c[x] == mid[0] && mid[0] in mid;
      assert j <= y < j + |mid| ==> c[y] == mid[0] && mid[0] in mid;
      assert x >= j + |mid| ==> c[x] == chain[k + x - j - |mid|];
      assert y >= j + |mid| ==> c[y] == chain[k + y - j - |mid|];
    }
  }

  /** What a bucket is after its entry at j, if any, has given way to the entries in mid. */
  lemma SplicedBucket(chains: seq<seq<Entry>>, b: nat, j: nat, mid: seq<Entry>, next: seq<seq<Entry>>)
    requires b < |chains| && j <= |chains[b]| && (forall c: nat :: c < |chains| ==> InBucket(chains, c))
    requires |mid| <= 1 && forall e :: e in mid ==> e !in Members(chains) && Bucket(e.slot.hash, |chains|) == b
    requires next == chains[b := chains[b][..j] + (mid + chains[b][if j < |chains[b]| then j + 1 else j..])]
    ensures InBucket(next, b)
    ensures Members(next)
            == Without(Members(chains), if j < |chains[b]| then chains[b][j] else null) + (set e | e in mid)
    ensures forall e :: e in mid + chains[b][if j < |chains[b]| then j + 1 else j..] ==> e !in chains[b][..j]
    ensures forall c: nat, e ::
              c < |chains| && c != b && e in mid + chains[b][if j < |chains[b]| then j + 1 else j..] ==>
                e !in chains[c]
  {
    hide Bucket;
    assert InBucket(chains, b);
    AllMembers(chains, b);
    var rest := chains[b][if j < |chains[b]| then j + 1 else j..];
    MembersUpdate(chains, b, next[b]);
    SpliceDistinct(chains[b], j, if j < |chains[b]| then j + 1 else j, mid);
    forall c: nat, e | c < |chains| && c != b && e in mid + rest ensures e !in chains[c] {
      AllMembers(chains, c);
      assert InBucket(chains, c);
    }
    var gone := if j < |chains[b]| then chains[b][j] else null;
    forall e | e in Without(Members(chains), gone) + (set x | x in mid) ensures e in Members(next) {
      if e in mid {
        assert e in next[b];
      } else if e in chains[b] {
        var i :| 0 <= i < |chains[b]| && chains[b][i] == e;
        assert i < j ==> next[b][i] == e;
        assert i > j ==> rest[i - j - 1] == e;
      }
    }
    forall e | e in Members(next) ensures e in Without(Members(chains), gone) + (set x | x in mid) {
      assert e in next[b] ==> e in chains[b][..j] || e in mid || e in rest;
    }
  }

  lemma BucketOf(list: array<Entry?>, chains: seq<seq<Entry>>, b: nat)
    requires TableOf(list, chains) && b < list.Length
    ensures |chains| == list.Length && Linked(list[b], chains[b], null) && InBucket(chains, b)
    ensures forall c: nat :: c < |chains| ==> InBucket(chains, c)
  {
  }

  lemma AllMembers(chains: seq<seq<Entry>>, b: nat)
    requires b < |chains|
    ensures forall e :: e in chains[b] ==> e in Members(chains)
  {
  }

  lemma NoMembers(n: nat)
    requires n > 0
    ensures Members(seq(n, _ => [])) == {} && Members([]) == {}
  {
  }

  lemma SetSize(chain: seq<Entry>)
    requires Distinct(chain)
    ensures |(set e | e in chain)| == |chain|
  {
    if chain != [] {
      var last := |chain| - 1;
      SetSize(chain[..last]);
      assert (set e | e in chain) == (set e | e in chain[..last]) + {chain[last]};
    }
  }

  /** A bucket's entries are in no bucket before it, nor behind it. */
  lemma DisjointBucket(chains: seq<seq<Entry>>, i: nat)
    requires i < |chains| && forall b: nat :: b < |chains| ==> InBucket(chains, b)
    ensures forall e :: e in chains[i] ==> e !in Members(chains[..i]) && e in Members(chains)
    ensures forall b, e :: i < b < |chains| && e in chains[i] ==> e !in chains[b]
    ensures Members(chains[..i + 1]) == Members(chains[..i]) + (set e | e in chains[i])
    ensures |Members(chains[..i + 1])| == |Members(chains[..i])| + |chains[i]|
  {
    hide Bucket;
    assert InBucket(chains, i);
    forall b, e | 0 <= b < |chains| && b != i && e in chains[i] ensures e !in chains[b] {
      assert InBucket(chains, b);
    }
    forall e | e in chains[i] ensures e !in Members(chains[..i]) {
      forall b | 0 <= b < i ensures e !in chains[..i][b] {}
    }
    var all, some := Members(chains[..i + 1]), Members(chains[..i]);
    forall e | e in all ensures e in some + (set x | x in chains[i]) {
      var b: nat :| b < i + 1 && e in chains[..i + 1][b];
      assert b < i ==> e in chains[..i][b];
    }
    forall e | e in some + (set x | x in chains[i]) ensures e in all {
      if e in chains[i] { assert e in chains[..i + 1][i]; } else {
        var b: nat :| b < i && e in chains[..i][b];
        assert e in chains[..i + 1][b];
      }
    }
    SetSize(chains[i]);
    assert some !! (set e | e in chains[i]);
  }
}
