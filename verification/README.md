# A verified model of the algorithmic cores of deltafs and pdlfs-common

deltafs is a file system metadata service that stands on a LevelDB-style library, pdlfs-common. This
project models the parts of both whose correctness takes an argument, in Dafny, and proves what they
are for. `dafny verify dfyconfig.toml` checks all of it.

Loops and objects of the source are methods and classes here, each proved against a specification
function or predicate; the results over whole runs are lemmas about these. Protocols between threads,
processes or crashes are state machines whose steps are the source's atomic steps.

- **GIGA+ directory index** (`PartitionBits`, `PartitionRouting`, `DirectoryIndexes`). Partitions of a
  directory are a set of integers closed under parents. In every reachable index they tile the hash
  space, the parent walk finds the owner of a hash, a split moves exactly the hashes it should, some
  partition can be split until every virtual server has one, and merging is a join.
- **Random sequences** (`NumberTheory`, `PrimeCertificate`, `RandomSequences`). The quadratic-residue
  permutation is a bijection, for every prime that is 3 mod 4 and with a certificate that 4294967291 is one.
- **LRU cache** (`CacheModel`, `CacheOutcomes`, `HashTables`, `LruCaches`). A model on values with its laws over
  all runs and what is cached after each operation, and the linked heap structures of the source refining it
  operation by operation.
- **Entropy-coded trie** (`BitVectors`, `EntropyCodes`, `HuffmanTrees`, `HuffmanCosts`, `HuffmanGenerator`,
  `HuffmanCoders`, `EntropyTries`). From copying bits across blocks of different widths, over optimal codes, to
  recovering ranks from the encoded trie.
- **Log** (`LogFormat`, `LogFiles`, `LogChecks`). Writer and reader, what reading returns after a cut at any
  byte, and what checksums keep out of any file.
- **CRC-32C** of RFC 3720, section 12.1 (`Crc32c`, `Polynomials`, `Crc32cRemainder`, `Crc32cStandard`,
  `Crc32cSoftware`, `Crc32cHardware`). The sliced and the three-way interleaved routine equal the bit-by-bit
  definition, and that is the remainder of the message by the polynomial of the standard.
- **Blocks, merging iterator, skip list** (`Coding`, `BlockFormat`, `BlockIterators`, `MergingIterators`,
  `SkipLists`, `SkipInserts`). Cursors that agree with plain sequences; the skip list under interleaving at single
  links. `ByteLayouts` has small inputs of the formats byte by byte.
- **Compactor** (`KvBatches`, `KvSenders`, `Compactors`, `Delivery`, `SenderProgress`), **name creation and
  control blocks** (`Namespaces`, `InodeNumbers`, `DirTables`), **object file sets** (`OfsRecords`,
  `OfsRecovery`, `OfsStorage`). Interleavings, and crashes at any byte.

Where code and claim part, the code is kept, the exact condition is proved, and an input that fails is given:

- `SetAll` stays within the largest bitmap exactly for at most 8192 virtual servers (`ReserveWithinBounds`,
  and the contract of `SetAll`).
- The assertion on the starting index of `HashToIndex` holds exactly when 2 to the radix does not exceed the
  number of virtual servers (`StartingIndexBound`); it fails with three (`StartingIndexFails`).
- `locate` consumes the whole code exactly when, wherever its key turns left, the run to the right is one that
  nothing is written for (`ReadsAllIff`); `SomeLeftUnread` has three keys where it does not.
- The log reader loses nothing in silence (`RunAccounts`) but fragments whose type byte is 5 or 6, the numbers of
  its own codes for the end and for a bad record (`SentinelTypes`).
- A file set whose deletion stops half way comes back with the files from before its last mount exactly when
  its newer log was log 1 (`HalfDeleted`); `DeletedFileReturns` is a run after which a deleted file returns.

Hashes, clocks, random heights, results of RPCs and of the object store, and the moments of crashes are
parameters. Integers are unbounded unless a width is written out; sizes and counters of 64 bits are
taken not to wrap, those of 32 bits are bounded where the source stores them.

## Model

| member | source | states |
|---|---|---|
| `PartitionBits.ChildOf` | external/pdlfs-common/src/gigaplus.cc:78-98 | a child index, made by setting the bit of a radix at or above the index's own, has the index as its parent and the next radix as its own |
| `PartitionBits.ParentOf` | external/pdlfs-common/src/gigaplus.cc:84-98 | the parent of a non-zero index drops its highest bit: it is smaller and has a smaller radix, and the index is its child at that radix |
| `PartitionBits.RadixBound` | external/pdlfs-common/src/gigaplus.cc:62-65 | an index is below a power of two exactly when its radix does not exceed the exponent |
| `PartitionBits.ReverseMirrorsBits` | external/pdlfs-common/src/gigaplus.cc:45-47 | the multiply-and-mask trick puts bit 7 - k of the byte in place of bit k, for every byte |
| `PartitionBits.ComputeIndexFromHash` | external/pdlfs-common/src/gigaplus.cc:120-138 | the loop over whole bytes and the masked last byte compute the number whose binary digits are the first n hash bits, most significant hash bit lowest |
| `PartitionRouting.RouteIffOwns` | external/pdlfs-common/src/gigaplus.cc:546-555 | walking parents from the hash's first bits ends at a set partition exactly when the low depth bits of the reversed hash equal that partition |
| `PartitionRouting.OwnerIsUnique` | external/pdlfs-common/src/gigaplus.cc:546-555 | no hash is owned by two partitions: the classes are disjoint |
| `PartitionRouting.AncestorOfFirstBits` | external/pdlfs-common/src/gigaplus.cc:84-98 | dropping high bits of an index that came from a hash gives the index of fewer of its bits |
| `PartitionRouting.SplitKeepsShape` | external/pdlfs-common/src/gigaplus.cc:285-302 | setting the next child of a partition keeps the shape of a reachable index, grows the radix by one at most, and the radix stays that of the highest bit |
| `PartitionRouting.SplitDepths` | external/pdlfs-common/src/gigaplus.cc:524-534 | a split gives parent and child one more bit and leaves every other partition's depth alone |
| `PartitionRouting.SplitMovesExactly` | external/pdlfs-common/src/gigaplus.cc:567-573 | after a split a hash routes to the child exactly when ToBeMigrated says so; all such hashes came from the parent, and every other hash stays where it was |
| `PartitionRouting.UnionKeepsShape` | external/pdlfs-common/src/gigaplus.cc:304-314 | the union of two reachable indices has the reachable shape, with the larger radix |
| `PartitionRouting.StaleRouteIsAncestor` | external/pdlfs-common/src/gigaplus.cc:304-314 | an index with a subset of the bits routes every hash to an ancestor, or the same partition, of the other's choice |
| `PartitionRouting.FullKeepsShape` | external/pdlfs-common/src/gigaplus.cc:473-479 | the first n partitions, for any n, have the reachable shape |
| `PartitionRouting.ReachableIsWellFormed` | external/pdlfs-common/src/gigaplus.cc:467-479 | every history of construction, SetAll, splits and merges gives a set of partitions with the reachable shape, all below num_virtual_servers |
| `PartitionRouting.ReachableTiling` | external/pdlfs-common/src/gigaplus.cc:546-555 | in every reachable index every hash has exactly one owner, it is where routing ends, and it is below num_virtual_servers |
| `PartitionRouting.SplittableIff` | external/pdlfs-common/src/gigaplus.cc:502-519 | a partition can be split exactly when it exists and some index below num_virtual_servers is missing whose parent it is |
| `PartitionRouting.SplitGoesOn` | external/pdlfs-common/src/gigaplus.cc:502-534 | as long as some virtual server has no partition, the parent of the least such can be split |
| `PartitionRouting.ReachableSplitGoesOn` | external/pdlfs-common/src/gigaplus.cc:502-519 | in every reachable index that lacks a virtual server some partition can be split |
| `DirectoryIndexes.ImageRoundTrip` | external/pdlfs-common/src/gigaplus.cc:200-218 | an image of a zeroth server, a radix and a bitmap parses to these, and with paranoid checks exactly when the radix is that of the bitmap's highest bit |
| `DirectoryIndexes.ParsesIff` | external/pdlfs-common/src/gigaplus.cc:200-218 | for any bytes, exactly which images are accepted, with and without paranoid checks, and what is read off them |
| `DirectoryIndexes.RadixCheck` | external/pdlfs-common/src/gigaplus.cc:213-214 | the paranoid check on a view's highest bit accepts exactly the radix of its partitions |
| `DirectoryIndexes.ReserveWithinBounds` | external/pdlfs-common/src/gigaplus.cc:365-373 | reserving num_virtual_servers bytes, as SetAll does with a number of bits, stays within the largest bitmap exactly when that number is at most 8192 |
| `DirectoryIndexes.StartingIndexFails` | external/pdlfs-common/src/gigaplus.cc:549-550 | an index filled for three virtual servers, and a hash whose starting index is three |
| `DirectoryIndexes.StartingIndexBound` | external/pdlfs-common/src/gigaplus.cc:549-550 | the source's assertion that the starting index is below num_virtual_servers holds for every hash exactly when 2 to the radix does not exceed that number |
| `DirectoryIndexes.DirIndex.constructor` | external/pdlfs-common/src/gigaplus.cc:383-390 | a new index has partition 0 alone |
| `DirectoryIndexes.DirIndex.TurnOnBit` | external/pdlfs-common/src/gigaplus.cc:285-302 | sets exactly one bit, grows the bitmap and the radix as needed, and none of the source's assertions fails: the radix grows by one at most and stays that of the highest bit, and a bitmap within 8192 bytes stays so |
| `DirectoryIndexes.DirIndex.Set` | external/pdlfs-common/src/gigaplus.cc:467-471 | adds the index to the set of partitions and nothing else |
| `DirectoryIndexes.DirIndex.SetAll` | external/pdlfs-common/src/gigaplus.cc:473-479 | afterwards the partitions are those before and all below num_virtual_servers; a bitmap within 8192 bytes stays so exactly when there are at most 8192 virtual servers |
| `DirectoryIndexes.DirIndex.IsSplittable` | external/pdlfs-common/src/gigaplus.cc:502-519 | true exactly when the partition exists and there is a missing index below num_virtual_servers whose parent is the partition |
| `DirectoryIndexes.DirIndex.NewIndexForSplitting` | external/pdlfs-common/src/gigaplus.cc:524-534 | returns the least missing child of the partition: it is not set, is below num_virtual_servers, and the partition is its parent |
| `DirectoryIndexes.DirIndex.Split` | external/pdlfs-common/src/gigaplus.cc:467-471 | choosing the child and setting it: the new set of partitions, with routing as in SplitMovesExactly |
| `DirectoryIndexes.DirIndex.HashToIndex` | external/pdlfs-common/src/gigaplus.cc:546-555 | returns the one set partition that owns the hash; the loop ends |
| `DirectoryIndexes.DirIndex.ToBeMigrated` | external/pdlfs-common/src/gigaplus.cc:571-573 | true exactly when the first bits of the hash spell the child index |
| `DirectoryIndexes.DirIndex.HighestBit` | external/pdlfs-common/src/gigaplus.cc:256-266 | the scan from the end finds the largest set partition |
| `DirectoryIndexes.DirIndex.ScaleToSize` | external/pdlfs-common/src/gigaplus.cc:365-373 | the bitmap grows by doubling until it has the capacity; no bit changes |
| `DirectoryIndexes.DirIndex.DoMerge` | external/pdlfs-common/src/gigaplus.cc:304-314 | the bits become the union of both, the radix the larger one, whatever the sizes of the bitmaps and whatever the other's bits; the radix stays that of the highest bit if the other's was, and the index stays a reachable one if the other was |
| `DirectoryIndexes.DirIndex.Update` | external/pdlfs-common/src/gigaplus.cc:422-437 | merging any image sets the union of bits and the larger radix, or changes nothing when the image does not parse or is of another zeroth server; with paranoid checks the radix is right whoever made the image |
| `DirectoryIndexes.DirIndex.UpdateFrom` | external/pdlfs-common/src/gigaplus.cc:441-450 | merging an index sets the union of bits and the larger radix: with UnionKeepsShape, a join |
| `DirectoryIndexes.DirIndex.ImageIsGenuine` | external/pdlfs-common/src/gigaplus.cc:397-400 | what Encode gives is an image that parses to an index of the reachable shape |
| `DirectoryIndexes.DirIndex.ImageDeterminedByBits` | external/pdlfs-common/src/gigaplus.cc:227-230 | two indices with the same partitions and zeroth server have the same image, so merging is commutative, associative and idempotent on images too |
| `NumberTheory.MinusOneIsNoSquare` | external/pdlfs-common/src/random.cc:16-24 | for a modulus that is 3 mod 4 no square is -1: what keeps the two halves of the residues apart |
| `NumberTheory.SumOfTwoSquares` | external/pdlfs-common/src/random.cc:16-24 | a prime that is 3 mod 4 and divides a sum of two squares divides both |
| `NumberTheory.Pocklington` | external/pdlfs-common/src/random.cc:17 | a certificate with one prime factor of n - 1 makes every divisor of n exceed that factor, and n prime when it is large enough |
| `PrimeCertificate.PrimeModulus` | external/pdlfs-common/src/random.cc:17 | 4294967291 is prime |
| `RandomSequences.PermuteIsInjective` | external/pdlfs-common/src/random.cc:16-24 | for every prime that is 3 mod 4 the quadratic-residue map is injective below the prime |
| `RandomSequences.PermuteStaysBelow` | external/pdlfs-common/src/random.cc:21-23 | and its values are below the prime |
| `RandomSequences.Permute` | external/pdlfs-common/src/random.cc:16-24 | the 32-bit map is its own on the five integers out of range, and below the prime otherwise |
| `RandomSequences.PermuteIs` | external/pdlfs-common/src/random.cc:16-24 | below the prime the value is congruent to the square of x up to the middle and to its negative above; the five words from the prime on stay |
| `RandomSequences.MaskFlips` | external/pdlfs-common/src/random.cc:32 | the mask flips exactly these bits |
| `RandomSequences.ValueIs` | external/pdlfs-common/src/random.cc:31-33 | the index permuted, the offset added in 32 bits, the bits of the mask flipped, the result permuted |
| `RandomSequences.ValuesDiffer` | external/pdlfs-common/src/random.cc:31-33 | two different indices give different outputs |
| `RandomSequences.OutputsAreDistinct` | external/pdlfs-common/src/random.cc:31-33 | among any 2^32 consecutive outputs no two are equal |
| `RandomSequences.AllOutputsDistinct` | external/pdlfs-common/src/random.cc:31-33 | the outputs of n at most 2^32 calls are n different values |
| `RandomSequences.FullPeriod` | external/pdlfs-common/src/random.cc:31-33 | 2^32 consecutive calls yield every 32-bit value |
| `RandomSequences.RandomSequence.Next` | external/pdlfs-common/src/random.cc:31-33 | returns the value at the index and advances the index modulo 2^32 |
| `RandomSequences.SequenceOf301` | external/pdlfs-common/src/random.cc:26-33 | the first two outputs for seed 301 |
| `RandomSequences.OffsetSkips` | external/pdlfs-common/src/random.cc:26-29 | an offset is the same as skipping so many outputs |
| `RandomSequences.RandomSequence.Skip` | external/pdlfs-common/include/pdlfs-common/random.h:85 | moves on by n outputs |
| `RandomSequences.Run` | external/pdlfs-common/src/random.cc:31-33 | n calls of Next give the n outputs from the index on |
| `CacheModel.StepKeeps` | external/pdlfs-common/include/pdlfs-common/lru.h:176-215 | every operation keeps counts, flags, queue, table, both usages and the deletion log in agreement, and the usage within capacity |
| `CacheModel.InsertKeeps` | external/pdlfs-common/include/pdlfs-common/lru.h:271-314 | so does an insert, with replacement, eviction and the final ejection |
| `CacheModel.EvictsOldest` | external/pdlfs-common/include/pdlfs-common/lru.h:297-304 | eviction takes a prefix of the idle queue, hands it to the deleters in that order, touches nothing else, and stops as soon as it may |
| `CacheModel.EvictKeeps` | external/pdlfs-common/include/pdlfs-common/lru.h:297-304 | eviction ends within the limit or with nothing idle |
| `CacheModel.RunKeeps` | external/pdlfs-common/include/pdlfs-common/lru.h:157-168 | over any legal run the agreement holds and the capacity is fixed |
| `CacheModel.ReferencedIsLive` | external/pdlfs-common/include/pdlfs-common/lru.h:30-34 | an entry is alive exactly while a client or the cache refers to it, and idle exactly when only the cache does |
| `CacheModel.DeletedExactlyOnce` | external/pdlfs-common/include/pdlfs-common/lru.h:176-184 | after any run from the empty cache an entry's deleter has run once if nobody refers to it any more and never otherwise; usage and total usage are the sums of the charges, within capacity |
| `CacheModel.StepQueues` | external/pdlfs-common/include/pdlfs-common/lru.h:51-54 | the idle queue is kept in order; only the release of a cached entry's last handle puts that entry at its end |
| `CacheModel.ChargesWithout` | external/pdlfs-common/include/pdlfs-common/lru.h:177-183 | a sum of charges loses exactly the charge of the entry taken out |
| `CacheOutcomes.InsertOutcome` | external/pdlfs-common/include/pdlfs-common/lru.h:271-314 | the new entry is cached and found under its slot exactly when caching is on and it fits beside the cached entries that clients hold, without the one that had the slot; otherwise it is its client's alone |
| `CacheOutcomes.InsertIntoCache` | external/pdlfs-common/include/pdlfs-common/lru.h:271-314 | of the idle entries just enough of the oldest go to make room, or all; what is cached then is the held entries, the idle ones left, and the new one if it fits |
| `CacheOutcomes.EvictOutcome` | external/pdlfs-common/include/pdlfs-common/lru.h:297-304 | eviction takes the oldest idle entries and nothing else |
| `CacheOutcomes.StepTable` | external/pdlfs-common/include/pdlfs-common/lru.h:320-359 | what the table has after each other operation: an erase loses one slot, pruning leaves the entries that clients hold, the rest change nothing |
| `HashTables.HashTable.FindPointer` | external/pdlfs-common/include/pdlfs-common/hashmap.h:67-73 | the slot returned is that of the entry with the key and hash, or the trailing slot of its chain if there is none |
| `HashTables.HashTable.Inject` | external/pdlfs-common/include/pdlfs-common/hashmap.h:77-89 | the entry takes the place of the one in the slot, or joins the chain; the table stays valid, and is rebuilt when it has more entries than buckets |
| `HashTables.HashTable.Insert` | external/pdlfs-common/include/pdlfs-common/hashmap.h:94-97 | the entries are those before, without the one of the same key and hash, which is returned, and with the new one |
| `HashTables.HashTable.Remove` | external/pdlfs-common/include/pdlfs-common/hashmap.h:113-121 | takes out exactly the entry with the key and hash, and returns it or null |
| `HashTables.HashTable.RemoveEntry` | external/pdlfs-common/include/pdlfs-common/hashmap.h:101-110 | takes out exactly this entry, not another of its key |
| `HashTables.HashTable.Resize` | external/pdlfs-common/include/pdlfs-common/hashmap.h:139-163 | relinks every entry into the bucket of its hash, loses none, and ends with at least as many buckets as entries |
| `HashTables.MaskIsRemainder` | external/pdlfs-common/include/pdlfs-common/hashmap.h:67-68 | for lengths that are powers of two the mask of the hash's bits is its remainder |
| `HashTables.HashTable.BucketIsMask` | external/pdlfs-common/include/pdlfs-common/hashmap.h:67-68 | the lengths of the table are such, so its buckets are the masked ones |
| `HashTables.HashTable.Store` | external/pdlfs-common/include/pdlfs-common/hashmap.h:67-89 | storing a link in a slot replaces the rest of one chain and leaves all others |
| `HashTables.MoveChain` | external/pdlfs-common/include/pdlfs-common/hashmap.h:149-158 | moves a whole old chain entry by entry to the new buckets, counting them |
| `HashTables.SplicedBucket` | external/pdlfs-common/include/pdlfs-common/hashmap.h:77-121 | what a bucket and the set of entries are after a splice |
| `LruCaches.Unjoin` | external/pdlfs-common/include/pdlfs-common/lru.h:192-195 | unlinking an entry leaves the circular list without it, linked in both directions |
| `LruCaches.JoinLast` | external/pdlfs-common/include/pdlfs-common/lru.h:197-203 | linking an entry before the head makes it the last of the circular list |
| `LruCaches.LRUCache.constructor` | external/pdlfs-common/include/pdlfs-common/lru.h:219-226 | an empty cache, both lists empty, as in the model |
| `LruCaches.LRUCache.Unref` | external/pdlfs-common/include/pdlfs-common/lru.h:176-190 | on the linked entries: the same effect as in the model, deletion and demotion included |
| `LruCaches.LRUCache.Remove` | external/pdlfs-common/include/pdlfs-common/lru.h:210-215 | clears the flag, reduces the usage and withdraws the cache's reference, as in the model |
| `LruCaches.LRUCache.Insert` | external/pdlfs-common/include/pdlfs-common/lru.h:271-314 | the new state is that of the model's insert; usage ends within capacity, and the victim found by key is the one meant |
| `LruCaches.InsertThenLookup` | external/pdlfs-common/include/pdlfs-common/lru.h:271-326 | a Lookup right after an Insert returns the new entry exactly when it fits beside the entries that clients hold |
| `LruCaches.LRUCache.EvictOldest` | external/pdlfs-common/include/pdlfs-common/lru.h:298-304 | one turn of the eviction loop discards the head of the idle list |
| `LruCaches.LRUCache.Lookup` | external/pdlfs-common/include/pdlfs-common/lru.h:320-326 | returns the entry the table has for key and hash, with one more reference |
| `LruCaches.LRUCache.Ref` | external/pdlfs-common/include/pdlfs-common/lru.h:385-392 | one more reference; an idle entry moves to the in-use list |
| `LruCaches.LRUCache.Release` | external/pdlfs-common/include/pdlfs-common/lru.h:375-378 | one reference less, as in the model |
| `LruCaches.LRUCache.Erase` | external/pdlfs-common/include/pdlfs-common/lru.h:345-350 | erases by key and hash |
| `LruCaches.LRUCache.EraseEntry` | external/pdlfs-common/include/pdlfs-common/lru.h:354-359 | erases this entry only if it is the one in the table |
| `LruCaches.LRUCache.Prune` | external/pdlfs-common/include/pdlfs-common/lru.h:329-337 | empties the idle list in order |
| `BitVectors.SetBit` | external/pdlfs-common/src/ectrie/bit_access.h:46-58 | one bit over all blocks changes |
| `BitVectors.MergeBits` | external/pdlfs-common/src/ectrie/bit_access.h:94-111 | the shifts, cast and or of one round put exactly the chosen source bits into the chosen places |
| `BitVectors.CopySet` | external/pdlfs-common/src/ectrie/bit_access.h:77-126 | bits of source blocks of one width are or-ed into destination blocks of another, at any offsets; nothing else changes |
| `BitVectors.BitVector.PushBack` | external/pdlfs-common/src/ectrie/bit_vector.h:34-44 | appends one bit |
| `BitVectors.BitVector.AppendBlocks` | external/pdlfs-common/src/ectrie/bit_vector.h:70-81 | appends a window of a run of blocks |
| `BitVectors.BitVector.AppendWord` | external/pdlfs-common/src/ectrie/bit_vector.h:83-95 | appends the low bits of a word |
| `BitVectors.BitVector.GetWord` | external/pdlfs-common/src/ectrie/bit_vector.h:97-103 | returns a window as the low bits of a word of any sufficient width |
| `BitVectors.BitVector.Bit` | external/pdlfs-common/src/ectrie/bit_vector.h:51-53 | returns the bit |
| `BitVectors.BitVector.Resize` | external/pdlfs-common/src/ectrie/bit_vector.cc:44-75 | a reallocated vector has the old bits and clear blocks behind them |
| `BitVectors.BitVector.Compact` | external/pdlfs-common/src/ectrie/bit_vector.cc:37-42 | giving back the room past the last bit keeps the bits |
| `EntropyCodes.EncodeWordAgrees` | external/pdlfs-common/src/ectrie/sign_interleave.h:20-28 | the shifts, complement and mask on the bits of a word of any width compute the arithmetic of the model |
| `EntropyCodes.DecodeWordAgrees` | external/pdlfs-common/src/ectrie/sign_interleave.h:31-40 | and so do those of the decoder |
| `EntropyCodes.WordsRoundTrip` | external/pdlfs-common/src/ectrie/sign_interleave.h:20-40 | on the bits of a word the two undo each other |
| `EntropyCodes.InterleaveBijection` | external/pdlfs-common/src/ectrie/sign_interleave.h:20-40 | on words of any width the two functions undo each other, and only the least number gets the last code |
| `EntropyCodes.GolombEncode` | external/pdlfs-common/src/ectrie/exp_golomb.h:24-48 | appends the code of the number: its length in unary, its digits, and the low digits of the order |
| `EntropyCodes.GolombDecode` | external/pdlfs-common/src/ectrie/exp_golomb.h:50-75 | where the code of a number starts, it returns the number and stops exactly behind the code |
| `EntropyCodes.GolombParts` | external/pdlfs-common/src/ectrie/exp_golomb.h:24-48 | where the three parts of a code are |
| `HuffmanTrees.InsertKeepsSorted` | external/pdlfs-common/src/ectrie/huffman.h:110-113 | the queue stays sorted by weight and gains exactly the new entry |
| `HuffmanGenerator.Generate` | external/pdlfs-common/src/ectrie/huffman.h:107-127 | for any weights the tree is full, every node weighs what its symbols weigh together, no left child is the heavier, and no tree with the same symbols has codes of a smaller weighted length |
| `HuffmanGenerator.Round` | external/pdlfs-common/src/ectrie/huffman.h:115-126 | a round keeps these: the queue still covers all symbols, and nothing joined so far can be bettered |
| `HuffmanCosts.MergeBound` | external/pdlfs-common/src/ectrie/huffman.h:115-126 | any code lengths for a queue give lengths for the queue with its two lightest joined, at what the joined entry weighs or less |
| `HuffmanCosts.AnotherLongest` | external/pdlfs-common/src/ectrie/huffman.h:115-126 | in lengths that add up to one the longest is not alone |
| `HuffmanCosts.TreeGivesLengths` | external/pdlfs-common/src/ectrie/huffman.h:175-190 | the code lengths in any full tree add up to one, and cost what its codes cost |
| `HuffmanCosts.CodeCostIsTreeCost` | external/pdlfs-common/src/ectrie/huffman.h:120 | the weighted length of all codes is the sum of the weights below the root |
| `HuffmanTrees.JoinTwo` | external/pdlfs-common/src/ectrie/huffman.h:115-126 | joining the two lightest trees under a new node keeps the leaves of the queue |
| `HuffmanTrees.WalkCode` | external/pdlfs-common/src/ectrie/huffman.h:285-301 | walking a symbol's code, whatever follows it, ends at the symbol and at the end of the code |
| `HuffmanTrees.CodeLength` | external/pdlfs-common/src/ectrie/huffman.h:243-257 | no code is longer than the tree is high, nor as long as there are symbols |
| `HuffmanCoders.GenerateCodes` | external/pdlfs-common/src/ectrie/huffman.h:175-190 | the code table holds for every symbol its path, most significant bit first |
| `HuffmanCoders.FindMaxLength` | external/pdlfs-common/src/ectrie/huffman.h:233-241 | the height of the tree |
| `HuffmanCoders.FillTable` | external/pdlfs-common/src/ectrie/huffman.h:243-257 | below a node the entries with its prefix, and only these, say which symbol they lead to and after how many bits |
| `HuffmanCoders.ForkFilled` | external/pdlfs-common/src/ectrie/huffman.h:253-256 | filling below both children fills below their parent |
| `HuffmanCoders.LookupAgrees` | external/pdlfs-common/src/ectrie/huffman.h:222-230 | one look into the reverse table gives what walking the tree gives |
| `HuffmanCoders.MakeCoder` | external/pdlfs-common/src/ectrie/huffman.h:275 | any weights give a coder with a full tree, both tables, and codes of the least weighted length |
| `HuffmanCoders.Encode` | external/pdlfs-common/src/ectrie/huffman.h:277-283 | appends exactly the code of the symbol |
| `HuffmanCoders.Decode` | external/pdlfs-common/src/ectrie/huffman.h:285-301 | follows the tree from the iterator and stops behind the last bit used; at the end of the buffer there is no symbol |
| `HuffmanCoders.DecodesCode` | external/pdlfs-common/src/ectrie/huffman.h:285-301 | where the bits have a symbol's code, that is the symbol decoded and the bits used |
| `HuffmanCoders.EncodeThenDecode` | external/pdlfs-common/src/ectrie/huffman.h:277-301 | symbols encoded end to end are read back in order |
| `EntropyTries.SplitRange` | external/pdlfs-common/src/ectrie/trie.h:64-69 | in a sorted run every key behind the first with the bit set has it too, and both parts are runs again |
| `EntropyTries.SomeBitLeft` | external/pdlfs-common/src/ectrie/trie.h:62 | two distinct keys cannot share all bits: the assertion on the depth holds |
| `EntropyTries.BalanceFits` | external/pdlfs-common/src/ectrie/trie.h:75-76 | the interleaved difference from half survives the word arithmetic and stays below what the code can take |
| `EntropyTries.EncodeSize` | external/pdlfs-common/src/ectrie/trie.h:71-77 | appends the code of a left size, Huffman for small runs and Exp-Golomb above |
| `EntropyTries.DecodeSize` | external/pdlfs-common/src/ectrie/trie.h:101-111 | reads the left size back and stops behind its code; it does not exceed the run |
| `EntropyTries.EncodeRec` | external/pdlfs-common/src/ectrie/trie.h:50-83 | appends the preorder of the size codes, and nothing for runs that need none |
| `EntropyTries.SkipRec` | external/pdlfs-common/src/ectrie/trie.h:128-157 | passes over exactly the bits that were written for the run |
| `EntropyTries.LocateRec` | external/pdlfs-common/src/ectrie/trie.h:86-125 | for a member its rank, or with several keys to a block the rank of a key in its block; never above the size; and it leaves unread exactly the right subtrees beside its path |
| `EntropyTries.EncodeThenLocate` | external/pdlfs-common/src/ectrie/trie.h:32-46 | for every sorted array of distinct keys, locating the i-th gives i, or with several keys per block an index in i's block; and all that was written has been read exactly when ReadsAllIff says so |
| `EntropyTries.ReadsAllIff` | external/pdlfs-common/src/ectrie/trie.h:86-125 | a search reads the whole code exactly when, wherever the key turns left, the run to the right is one that nothing is written for |
| `EntropyTries.WrittenNotEmpty` | external/pdlfs-common/src/ectrie/trie.h:50-60 | nothing is written for a run exactly when it has at most one key or lies in one destination block |
| `EntropyTries.SomeLeftUnread` | external/pdlfs-common/src/ectrie/trie.h:86-125 | three keys of which the search for the first leaves bits unread |
| `EntropyTries.OwnPlace` | external/pdlfs-common/src/ectrie/trie.h:56-60 | with at most one key per block only i itself is in i's place |
| `EntropyTries.MakeTrie` | external/pdlfs-common/src/ectrie/huffman.h:312-325 | a coder for every run size up to the limit |
| `LogFormat.EmitLayout` | external/pdlfs-common/src/log_writer.cc:96-122 | where checksum, length, type and payload of a physical record are |
| `LogFormat.ReadWhole` | external/pdlfs-common/src/log_reader.cc:237-290 | a physical record that is all there is read, with or without checksums |
| `LogFormat.ReadTorn` | external/pdlfs-common/src/log_reader.cc:243-254 | one that is cut anywhere reads as the end of the file, with no report |
| `LogFormat.SkipTrailer` | external/pdlfs-common/src/log_reader.cc:212-226 | a block's trailer is passed over, whole or cut |
| `LogFormat.ReadBackRecord` | external/pdlfs-common/src/log_reader.cc:68-193 | a record is read back whole if its last byte is there and ignored in silence otherwise |
| `LogFormat.ReadBackRun` | external/pdlfs-common/src/log_reader.cc:68-193 | what a file holding a cut run of records reads as |
| `LogFormat.CompleteMeansWritten` | external/pdlfs-common/src/log_writer.cc:45-94 | the number of records read is that of those whose bytes all lie before the cut |
| `LogFormat.TornLog` | external/pdlfs-common/src/log_reader.cc:68-193 | for any records and any cut, reading yields exactly the records that were whole, in order, with no corruption report |
| `LogChecks.PhysicalIsChecked` | external/pdlfs-common/src/log_reader.cc:210-290 | in any file, what is read with checksums on lies in one block and has in its header its length, its type and the masked checksum of type and payload |
| `LogChecks.DamageIsReported` | external/pdlfs-common/src/log_reader.cc:237-290 | in any file, a wrong checksum or a length that leaves the block drops the rest of the block and reports its size; a torn end and a zero header are passed over in silence |
| `LogChecks.RunIsChecked` | external/pdlfs-common/src/log_reader.cc:68-193 | in any file every record delivered is made of such fragments, one whole or a first, middle ones and a last, each behind the other |
| `LogChecks.RunAccounts` | external/pdlfs-common/src/log_reader.cc:68-193 | of any file, the payloads of its fragments and what is dropped with damaged blocks are, byte for byte counted, in the records delivered, in the reports, or in a record that the end of the file cuts short |
| `LogChecks.UnfinishedIsChecked` | external/pdlfs-common/src/log_reader.cc:163-170 | and that record's bytes are a first fragment and middle ones with the right checksums |
| `LogChecks.SentinelTypes` | external/pdlfs-common/src/log_reader.cc:163-179 | a fragment whose type is the number of one of the reader's own two codes, and whose checksum is right, ends the reading or is dropped, without a report |
| `LogChecks.OneRecord` | external/pdlfs-common/src/log_writer.cc:96-122 | the ten bytes of a log with the record "foo" |
| `LogChecks.LongRecord` | external/pdlfs-common/src/log_writer.cc:45-94 | a record over three blocks has the types 2, 3 and 4 |
| `LogFiles.Writer.AddRecord` | external/pdlfs-common/src/log_writer.cc:45-94 | appends the fragments of one record, after a trailer where no header fits; one fragment even for an empty record |
| `LogFiles.Writer.EmitPhysicalRecord` | external/pdlfs-common/src/log_writer.cc:96-122 | appends header and payload and advances the block offset |
| `LogFiles.Reader.ReadPhysicalRecord` | external/pdlfs-common/src/log_reader.cc:210-292 | with its buffer, the reader sees what the file holds at its position |
| `LogFiles.Reader.ReadRecord` | external/pdlfs-common/src/log_reader.cc:68-193 | returns the next logical record, position and reports of the format |
| `LogFiles.Reader.TakeFragment` | external/pdlfs-common/src/log_reader.cc:106-190 | what each fragment type does to the record being gathered |
| `LogFiles.WriteRun` | external/pdlfs-common/src/log_writer.cc:45-94 | records written to a new file make its bytes |
| `LogFiles.ReadFile` | external/pdlfs-common/src/log_reader.cc:68-193 | reading until the end gives the records of the format and its reports |
| `LogFiles.WriteCrashRead` | external/pdlfs-common/src/log_reader.cc:68-193 | writer, cut at any byte, then reader: the whole records, in order, no report |
| `Crc32c.FeedConcat` | external/pdlfs-common/include/pdlfs-common/crc32c.h:25-31 | feeding a register two strings is feeding it their concatenation |
| `Crc32c.ExtendConcat` | external/pdlfs-common/include/pdlfs-common/crc32c.h:25-34 | extending over A then B is the value of A followed by B |
| `Crc32c.FeedLinear` | external/pdlfs-common/include/pdlfs-common/crc32c.h:25-31 | the register after data is the data from zero plus the shifted register |
| `Polynomials.RemainderIsUnique` | external/pdlfs-common/src/crc32c/crc32c_sw.cc:211-257 | a polynomial over GF(2) has one remainder only |
| `Crc32cRemainder.FeedIsCongruent` | external/pdlfs-common/src/crc32c/crc32c_sse42.cc:60 | feeding leaves the message raised by 32, plus the register it began with raised past the message, modulo the polynomial with the exponents of section 12.1 of RFC 3720 |
| `Crc32cRemainder.ExtendIsRemainder` | external/pdlfs-common/include/pdlfs-common/crc32c.h:25-31 | with both inversions undone the new checksum is the remainder of the old one, raised past the message, plus the message raised by 32 |
| `Crc32cRemainder.RemainderIsExtend` | external/pdlfs-common/include/pdlfs-common/crc32c.h:25-31 | and no other word is |
| `Crc32cStandard.ZeroBytes` | external/pdlfs-common/src/crc32c/crc32c_test.cc:60-61 | the checksum of 32 zero bytes, as section B.4 of RFC 3720 has it |
| `Crc32cStandard.OneBytes` | external/pdlfs-common/src/crc32c/crc32c_test.cc:63-64 | that of 32 bytes 0xff |
| `Crc32cStandard.Ascending` | external/pdlfs-common/src/crc32c/crc32c_test.cc:66-69 | that of the bytes from 0 to 31 |
| `Crc32cStandard.Descending` | external/pdlfs-common/src/crc32c/crc32c_test.cc:71-74 | that of the bytes from 31 to 0 |
| `Crc32cStandard.ReadCommand` | external/pdlfs-common/src/crc32c/crc32c_test.cc:76-91 | that of the SCSI read command |
| `Crc32c.MaskRoundTrip` | external/pdlfs-common/include/pdlfs-common/crc32c.h:44-53 | masking is undone by unmasking |
| `Crc32cSoftware.Step1IsByte` | external/pdlfs-common/src/crc32c/crc32c_sw.cc:216-220 | the table step is eight bitwise steps |
| `Crc32cSoftware.Step4IsFeed` | external/pdlfs-common/src/crc32c/crc32c_sw.cc:221-227 | the sliced step is four byte steps |
| `Crc32cSoftware.LoadIsFixed32` | external/pdlfs-common/src/crc32c/crc32c_sw.cc:206-208 | the word loaded is the four bytes, low first |
| `Crc32cSoftware.ExtendSW` | external/pdlfs-common/src/crc32c/crc32c_sw.cc:211-257 | at any alignment and length the routine is the bitwise CRC-32C, which Crc32cRemainder says in polynomials |
| `Crc32cHardware.Gf2MatrixTimes` | external/pdlfs-common/src/crc32c/crc32c_sse42.cc:66-76 | the loop computes the product over GF(2) |
| `Crc32cHardware.ColumnsSuffice` | external/pdlfs-common/src/crc32c/crc32c_sse42.cc:62-76 | a matrix whose columns are the shifted units applies the shift to every vector |
| `Crc32cHardware.Gf2MatrixSquare` | external/pdlfs-common/src/crc32c/crc32c_sse42.cc:80-84 | squaring an operator for n zero bits gives the one for 2n |
| `Crc32cHardware.ZerosOperator` | external/pdlfs-common/src/crc32c/crc32c_sse42.cc:91-123 | the operator built is that of the largest power of two zero bytes not above the length |
| `Crc32cHardware.ZerosTables` | external/pdlfs-common/src/crc32c/crc32c_sse42.cc:127-138 | the four tables hold the operator on each byte lane |
| `Crc32cHardware.ShiftPushes` | external/pdlfs-common/src/crc32c/crc32c_sse42.cc:141-144 | looking up four lanes applies the operator to the register |
| `Crc32cHardware.JoinStreams` | external/pdlfs-common/src/crc32c/crc32c_sse42.cc:210-211 | shifting one register over the next stream and adding that stream's register joins them |
| `Crc32cHardware.HardwareCrc.ThreeStreams` | external/pdlfs-common/src/crc32c/crc32c_sse42.cc:195-214 | three interleaved streams joined by two shifts are the bytes fed in order |
| `Crc32cHardware.HardwareCrc.Extend` | external/pdlfs-common/src/crc32c/crc32c_sse42.cc:168-265 | at any alignment and length the routine is the bitwise CRC-32C, which Crc32cRemainder says in polynomials |
| `Crc32cHardware.BothRoutines` | external/pdlfs-common/src/crc32c/crc32c_sse42.cc:168-265 | both routines agree with each other and with the value of the concatenation |
| `Coding.EncodesVarint` | external/pdlfs-common/src/coding.cc:68-94 | the five-case encoder writes seven bits to a byte, low first, at most five |
| `Coding.GetVarint32` | external/pdlfs-common/src/coding.cc:140-156 | the decoding loop, for any bytes |
| `Coding.VarintMeans` | external/pdlfs-common/src/coding.cc:140-156 | for any bytes a number is read exactly when one of the first five before the limit is below 128; it ends with the first of these and is what the bytes up to there spell, in 32 bits |
| `Coding.VarintRoundTrip` | external/pdlfs-common/src/coding.cc:140-156 | an encoded number parses as the number and ends where its code does |
| `Coding.Fixed32RoundTrip` | external/pdlfs-common/src/coding.cc:30-39 | a fixed word decodes to its value |
| `Coding.CompareTransitive` | external/pdlfs-common/src/slice.cc:21-30 | byte order is transitive, strictly and weakly |
| `Coding.CompareMeans` | external/pdlfs-common/src/slice.cc:21-30 | the first byte that differs decides, and of a string and a longer one that begins with it the shorter is less |
| `ByteBits.Fixed16RoundTrip` | external/pdlfs-common/src/coding.cc:21-28 | a fixed half word decodes to its value |
| `BlockFormat.BlockBuilder.constructor` | external/pdlfs-common/src/leveldb/block_builder.cc:61-69 | an interval below one counts as one |
| `BlockFormat.BlockBuilder.Add` | external/pdlfs-common/src/leveldb/block_builder.cc:186-222 | the buffer is the entries in order, each without the prefix it shares, whole at restart points |
| `BlockFormat.BlockBuilder.StartEntry` | external/pdlfs-common/src/leveldb/block_builder.cc:191-204 | a restart point exactly every interval entries, at the offset of the entry |
| `BlockFormat.BlockBuilder.Finish` | external/pdlfs-common/src/leveldb/block_builder.cc:150-161 | the finished block is the entries, the restart offsets and their number |
| `BlockFormat.EntryAt` | external/pdlfs-common/src/leveldb/block_builder.cc:208-215 | each entry is written at its offset |
| `BlockFormat.NextRestart` | external/pdlfs-common/src/leveldb/block_builder.cc:192-204 | a new entry adds a restart point exactly when the last interval is full |
| `BlockIterators.DecodeEntry` | external/pdlfs-common/src/leveldb/block.cc:66-86 | where an entry is written, fast path or not, its three lengths, key rest and value are found |
| `BlockIterators.FirstBytes` | external/pdlfs-common/src/leveldb/block.cc:70-75 | three small first bytes are the three lengths |
| `BlockIterators.RestartInBlock` | external/pdlfs-common/src/leveldb/block.cc:111-114 | the restart array holds the offsets |
| `BlockIterators.OffsetOrder` | external/pdlfs-common/src/leveldb/block.cc:159-172 | offsets order entries |
| `BlockIterators.BlockIter.ParseNextKey` | external/pdlfs-common/src/leveldb/block.cc:236-263 | parses the entry behind the current one, or finds the end; no entry of a finished block is taken for corrupt |
| `BlockIterators.BlockIter.Next` | external/pdlfs-common/src/leveldb/block.cc:149-152 | moves one entry on |
| `BlockIterators.BlockIter.Prev` | external/pdlfs-common/src/leveldb/block.cc:154-173 | moves one entry back, from any valid position however reached; off the front from the first |
| `BlockIterators.BlockIter.Seek` | external/pdlfs-common/src/leveldb/block.cc:175-213 | ends on the first key not below the target |
| `BlockIterators.BlockIter.FindRestart` | external/pdlfs-common/src/leveldb/block.cc:176-201 | the binary search leaves only keys below the target before its restart point |
| `BlockIterators.BlockIter.SeekToLast` | external/pdlfs-common/src/leveldb/block.cc:220-225 | ends on the last entry |
| `BlockIterators.BlockIter.SeekToFirst` | external/pdlfs-common/src/leveldb/block.cc:215-218 | ends on the first entry |
| `BlockIterators.Build` | external/pdlfs-common/src/leveldb/block_builder.cc:186-222 | adding any pairs that fit and finishing gives their block, with the restart interval given |
| `BlockIterators.BuildThenScan` | external/pdlfs-common/src/leveldb/block.cc:149-173 | a finished block reads back as the pairs added, forward and backward, for any interval |
| `ByteLayouts.BlockOfTwo` | external/pdlfs-common/src/leveldb/block_builder.cc:39-51 | the bytes of a block with two keys that share a letter |
| `ByteLayouts.BatchOfTwo` | src/libdeltafs/parallel_compactor.cc:475-490 | the bytes of an RPC with two pairs |
| `ByteLayouts.RecordOfPut` | external/pdlfs-common/src/ofs_impl.h:247-258 | the bytes of a log record with two operations |
| `ByteLayouts.ImageOfThree` | external/pdlfs-common/src/gigaplus.cc:144-147 | the bytes of the image of an index with three partitions, and which bits these are |
| `ByteLayouts.LowByteFirst` | external/pdlfs-common/src/coding.cc:21-50 | words have their low byte first |
| `MergingIterators.MergingIterator.FindSmallest` | external/pdlfs-common/src/leveldb/merger.cc:160-173 | no valid child has a smaller key than the current one |
| `MergingIterators.MergingIterator.FindLargest` | external/pdlfs-common/src/leveldb/merger.cc:175-188 | no valid child has a larger key |
| `MergingIterators.MergingIterator.LeastIsEntry` | external/pdlfs-common/src/leveldb/merger.cc:160-173 | with every child at its first key from an entry of the union on, the least of them is that entry |
| `MergingIterators.MergingIterator.Next` | external/pdlfs-common/src/leveldb/merger.cc:67-91 | on disjoint children one entry on in the union, also after moving backward; going forward only the current child moves |
| `MergingIterators.MergingIterator.Prev` | external/pdlfs-common/src/leveldb/merger.cc:93-120 | one entry back in the union, also after moving forward |
| `MergingIterators.MergingIterator.Seek` | external/pdlfs-common/src/leveldb/merger.cc:59-65 | the first entry of the union not below the target |
| `MergingIterators.MergingIterator.SeekToFirst` | external/pdlfs-common/src/leveldb/merger.cc:43-49 | the first entry of the union |
| `MergingIterators.MergingIterator.SeekToLast` | external/pdlfs-common/src/leveldb/merger.cc:51-57 | the last entry of the union |
| `MergingIterators.Drive` | external/pdlfs-common/src/leveldb/merger.cc:43-120 | any mix of moves shows what a plain cursor on the sorted union shows |
| `MergingIterators.ScanForward` | external/pdlfs-common/src/leveldb/merger.cc:67-91 | a forward scan of children that share keys yields each key once per child that has it, ascending |
| `SkipLists.StepKeeps` | external/pdlfs-common/src/leveldb/skiplist.h:274-293 | every single load or store, of the writer or of any reader, keeps every level a strictly sorted list, a sublist of the level below, and every search on its way |
| `SkipLists.PublishSorts` | external/pdlfs-common/src/leveldb/skiplist.h:376-381 | the one store that publishes a node puts it in its place in the level |
| `SkipLists.SearchKeeps` | external/pdlfs-common/src/leveldb/skiplist.h:274-293 | a step of the writer's search moves to a node before the key or has found the last before it on the level |
| `SkipLists.HeightKeeps` | external/pdlfs-common/src/leveldb/skiplist.h:358-373 | raising the height before linking leaves every level a list |
| `SkipLists.LoadKeeps` | external/pdlfs-common/src/leveldb/skiplist.h:297-334 | a step of any search moves to a node before its target, or has the answer for the list as it is then |
| `SkipLists.NextKeeps` | external/pdlfs-common/src/leveldb/skiplist.h:219-222 | an iterator's Next lands on what follows its node at that time |
| `SkipLists.LevelsAreLists` | external/pdlfs-common/src/leveldb/skiplist.h:376-381 | in every reachable state following the links of a level meets a strictly ascending list of keys, all on the level below too |
| `SkipLists.LookupIsRight` | external/pdlfs-common/src/leveldb/skiplist.h:274-334 | whatever runs before and beside it, a lookup that ends returns nothing below its target, and misses no key whose Insert had finished when it began |
| `SkipInserts.InsertLinks` | external/pdlfs-common/src/leveldb/skiplist.h:344-381 | whatever runs beside it, an Insert that has returned has put its key into the levels below the height that it drew, into no other, and changed nothing else |
| `SkipInserts.LoadProgresses` | external/pdlfs-common/src/leveldb/skiplist.h:274-334 | a load of a search ends it, goes down a level, or leaves fewer keys before it on its level |
| `SkipInserts.LookupEnds` | external/pdlfs-common/src/leveldb/skiplist.h:274-334 | from any state a lookup that runs alone ends |
| `SkipInserts.InsertProgresses` | external/pdlfs-common/src/leveldb/skiplist.h:344-381 | every step of an Insert brings it nearer to its end |
| `SkipInserts.InsertCanStep` | external/pdlfs-common/src/leveldb/skiplist.h:344-381 | until then there is always a step that it can take |
| `SkipInserts.InsertEnds` | external/pdlfs-common/src/leveldb/skiplist.h:344-381 | from any state an Insert that runs alone ends, whatever height it draws |
| `KvBatches.BodyRoundTrip` | src/libdeltafs/parallel_compactor.cc:902-929 | a body of at most 2^31 - 1 pairs decodes to the pairs |
| `KvBatches.Call` | src/libdeltafs/parallel_compactor.cc:902-929 | the decoding loop, for any body: the pairs or a bad encoding; a count in the upper half of its range is negative and stands for no pairs |
| `KvSenders.StepKeeps` | src/libdeltafs/parallel_compactor.cc:453-540 | every step of producer, server and worker keeps one RPC at most outstanding, the buffer and message encoding what they should, and every pair accounted for |
| `KvSenders.ScheduleKeeps` | src/libdeltafs/parallel_compactor.cc:475-490 | handing out the buffer loses no pair |
| `KvSenders.CompleteKeeps` | src/libdeltafs/parallel_compactor.cc:467-473 | an RPC that failed or was refused leaves an error behind |
| `KvSenders.WaitedDelivers` | src/libdeltafs/parallel_compactor.cc:542-548 | in any state that the sender can come to, once a Flush and then a WaitForAsyncOperations have returned OK the applied batches are exactly the pairs sent |
| `KvSenders.AllDelivered` | src/libdeltafs/parallel_compactor.cc:499-548 | over every interleaving, with a Flush and then a WaitForAsyncOperations returning OK the applied batches are exactly the pairs sent, once and in order; between calls the buffer stays below the larger batch size |
| `KvSenders.WakeProgresses` | src/libdeltafs/parallel_compactor.cc:502-513 | once the RPC has completed, waking a sleeping producer ends its call or starts the next RPC |
| `SenderProgress.NoFalseAlarm` | src/libdeltafs/parallel_compactor.cc:453-548 | as long as no RPC fails and no server refuses, no call reports an error |
| `SenderProgress.FaultIsReported` | src/libdeltafs/parallel_compactor.cc:467-473 | an RPC that fails, that the server refused, or that ends unanswered leaves an error |
| `SenderProgress.ErrorStays` | src/libdeltafs/parallel_compactor.cc:499-548 | an error stays, and from then on every call that ends reports it, save one whose own RPC runs in it |
| `SenderProgress.NeverTwice` | src/libdeltafs/parallel_compactor.cc:453-548 | over every interleaving and whatever fails, what the server has applied is what was sent first, each pair once and in order |
| `SenderProgress.WhoWaits` | src/libdeltafs/parallel_compactor.cc:499-548 | a Send waits exactly when an RPC is outstanding and both batch sizes are reached, a Flush when something is buffered too, a wait when there is one |
| `SenderProgress.BatchSizes` | src/libdeltafs/parallel_compactor.cc:517-540 | an RPC is for what was buffered: one pair at least, at most the larger batch size, and no fewer than the smaller unless it is for a flush |
| `SenderProgress.SendStarts` | src/libdeltafs/parallel_compactor.cc:517-540 | a Send that finds no RPC outstanding starts one exactly when the smaller batch size is reached |
| `SenderProgress.WorkShrinks` | src/libdeltafs/parallel_compactor.cc:453-548 | serving, completing and waking up behind it each leave a sender less to do |
| `Compactors.Compactor.FetchDir` | src/libdeltafs/parallel_compactor.cc:742-765 | the index of a directory, made with its zeroth server and filled when first asked for, the same afterwards |
| `Compactors.Compactor.SelectServer` | external/pdlfs-common/src/gigaplus.cc:557-599 | the rank that the full index of the directory names for the name's hash |
| `Compactors.OwnerMeans` | external/pdlfs-common/src/gigaplus.cc:595-597 | the owner is the p-th rank from the zeroth server on, in a circle, exactly when partition p owns the hash |
| `Compactors.Compactor.MapReduce` | src/libdeltafs/parallel_compactor.cc:767-801 | the calls of a rank: each pair to the sender of its owner, then a flush of every sender, then a wait for every sender |
| `Delivery.SendsAreOwned` | src/libdeltafs/parallel_compactor.cc:767-781 | what these calls send to a destination is exactly what it owns of the pairs, in order |
| `Delivery.RankStepKeeps` | src/libdeltafs/parallel_compactor.cc:453-548 | whatever a rank's thread or its workers do next, every sender has been sent what the calls so far say, and has returned from those that are over |
| `Delivery.RankDelivers` | src/libdeltafs/parallel_compactor.cc:767-801 | over every interleaving, a rank that has come to the barrier has had applied, at each destination, exactly the pairs it owns, each once and in order |
| `SenderProgress.RankHasNoFalseAlarm` | src/libdeltafs/parallel_compactor.cc:767-801 | a rank none of whose RPCs fails does not abort |
| `SenderProgress.RankWorkShrinks` | src/libdeltafs/parallel_compactor.cc:767-801 | each of its steps, but waking up for nothing, brings it nearer to the barrier |
| `SenderProgress.RankCanStep` | src/libdeltafs/parallel_compactor.cc:767-801 | until it is there it can take such a step |
| `SenderProgress.NewRankArrives` | src/libdeltafs/parallel_compactor.cc:767-801 | so for any pairs whose lengths fit there is a run that comes to the barrier |
| `Compactors.PutAllHolds` | src/libdeltafs/parallel_compactor.cc:902-923 | with one pair to a key the database holds exactly the pairs of its log |
| `Delivery.OwnersGetTheirs` | src/libdeltafs/parallel_compactor.cc:737-801 | with disjoint source keys, once every rank has come to the barrier, a rank's database holds exactly the pairs whose keys it owns, whatever the interleavings and the order of arrival |
| `Namespaces.StepKeeps` | src/libdeltafs/fs.cc:415-523 | every step of every create keeps locks, inode numbers and names in order, and what a create with its report has committed |
| `Namespaces.ReportIsRight` | src/libdeltafs/fs.cc:547-564 | over every interleaving a create that has ended reports success exactly when it has met neither a failure nor a name that was taken |
| `Namespaces.SuccessMeansAll` | src/libdeltafs/fs.cc:415-523 | over every interleaving a create that reports success has committed all its names, or as many as it has numbers, the i-th with its i-th number |
| `Namespaces.NumbersGivenBack` | src/libdeltafs/fs.h:144-149 | a create that failed gives back exactly the numbers it did not use, if nobody has taken numbers since; otherwise, and after success, none |
| `Namespaces.OnePutter` | src/libdeltafs/fs.cc:507-517 | two creates about to put one name would hold the same way: they do not exist |
| `Namespaces.FinishKeepsNumbers` | src/libdeltafs/fs.h:144-149 | taking numbers back takes none that is in use |
| `Namespaces.NamesOnce` | src/libdeltafs/fs.cc:547-564 | over every interleaving each name of a directory is committed at most once |
| `Namespaces.NumbersDisjoint` | src/libdeltafs/fs.cc:110-204 | over every interleaving with failures and reuse the numbers of creates and names are disjoint and at most inoq_, and a create's m names have its first m numbers |
| `InodeNumbers.StepAccounts` | src/libdeltafs/fs.h:144-149 | no step loses a number but the end of a create, and that only the unused ones of a create that succeeded, of one behind which others have taken numbers, or of a batch refused before it began |
| `InodeNumbers.NumbersAccounted` | src/libdeltafs/fs.cc:110-204 | over every interleaving every number up to inoq_ is a file's, a running create's, or one of those lost so |
| `Namespaces.SomeoneMoves` | src/libdeltafs/fs.cc:429-435 | who waits for a way waits for a thread that can move, or that waits for a later way |
| `Namespaces.NeverStuck` | src/libdeltafs/fs.cc:429-435 | as long as a create runs some create can take its next step |
| `DirTables.CallKeeps` | src/libdeltafs/fs.cc:583-603 | acquiring and releasing keep the table holding exactly the live blocks, whatever the cache evicts |
| `DirTables.AcquireGives` | src/libdeltafs/fs.cc:635-690 | the block returned is the directory's own, new only if there was none; the caller holds it |
| `DirTables.OneBlockPerDirectory` | src/libdeltafs/fs.cc:635-690 | over any calls a directory has at most one live control block |
| `DirTables.FewBlocks` | src/libdeltafs/fs.cc:583-690 | over any calls the blocks alive are those that callers hold, and beside them no more than the capacity of the cache |
| `OfsRecords.RecordRoundTrip` | external/pdlfs-common/src/ofs_impl.h:247-258 | an encoded record replays as its operations say and starts with its time |
| `OfsRecords.RedoUndoLoop` | external/pdlfs-common/src/ofs_impl.cc:124-152 | the replay loop, for any bytes: the effect or a corruption |
| `OfsRecords.ExecuteAllLeaves` | external/pdlfs-common/src/ofs_impl.cc:72-121 | replay accepts exactly operations of known kinds with their names; an object is garbage then exactly when the last operation that names it announces or deletes it, and a file is what the last operation that names it links it to |
| `OfsRecords.SnapshotRestores` | external/pdlfs-common/src/ofs_impl.cc:205-241 | replaying a snapshot restores the file map and the garbage set |
| `OfsStorage.Access` | external/pdlfs-common/src/ofs_impl.cc:43-66 | the time of the first record of a log, from its bytes; a drop that the reader reports is a corruption |
| `OfsStorage.RecoverFileSet` | external/pdlfs-common/src/ofs_impl.cc:154-203 | from the bytes of both logs: picks the one with the later first record, replays it all or reports a corruption, and names the other as next |
| `OfsStorage.RecoverSame` | external/pdlfs-common/src/ofs_impl.cc:154-203 | recovery sees no more of the bytes than the records that reading gives |
| `OfsStorage.CutReads` | external/pdlfs-common/src/ofs_impl.cc:243-287 | a log cut at any byte, in its snapshot too, reads as its records before the cut and reports nothing |
| `OfsStorage.EventIsStep` | external/pdlfs-common/src/ofs_impl.cc:243-287 | on bytes a crash at a byte is the crash on records that keeps the whole ones, and every other step is the same step |
| `OfsStorage.ByteRecoveryIsRight` | external/pdlfs-common/src/ofs_impl.cc:154-203 | after any run with crashes at any byte the next mount is not corrupt and finds, from the bytes, the files and garbage that the surviving operations have made since the beginning, each as the last operation that names it leaves it |
| `OfsStorage.CutLosesSuffix` | external/pdlfs-common/src/ofs_impl.cc:243-287 | a crash at a byte loses exactly the operations whose records do not lie wholly before it |
| `OfsRecovery.LogRestores` | external/pdlfs-common/src/ofs_impl.h:72-156 | a logged operation extends what the log restores |
| `OfsRecovery.StepKeeps` | external/pdlfs-common/src/ofs_impl.cc:348-379 | mounting, the snapshot write, logging, unmounting and crashing keep the newest log restoring all that survived |
| `OfsRecovery.CrashLosesSuffix` | external/pdlfs-common/src/ofs_impl.cc:243-287 | a crash that keeps some records of the log being written loses only the operations behind them; one that keeps none falls back to the other log |
| `OfsRecovery.RecoveryIsRight` | external/pdlfs-common/src/ofs_impl.cc:154-203 | after any run with crashes the next mount is not corrupt and finds the files and garbage that the surviving operations have made since the beginning, each file and object as the last operation that names it leaves it |
| `OfsRecovery.HalfDeleted` | external/pdlfs-common/src/ofs_impl.cc:395-405 | a deletion of the set that stops between its two logs leaves the older file map when log 1 was the newer |
| `OfsRecovery.DeletedFileReturns` | external/pdlfs-common/src/ofs_impl.cc:395-405 | a run after which the file set is empty, as deletion demands, and a file is there again when only log 1 is deleted |
| `OfsRecovery.FileSet.Link` | external/pdlfs-common/src/ofs_impl.h:85-103 | logs, then updates the map; the log restores the map |
| `OfsRecovery.FileSet.PutFile` | external/pdlfs-common/src/ofs_impl.cc:419-450 | announces the object, and links it if the store made it |
| `OfsRecovery.FileSet.DeleteFile` | external/pdlfs-common/src/ofs_impl.cc:452-481 | unlinks the file if it is there, and notes the object's deletion if the store managed it |
| `OfsRecovery.Rename` | external/pdlfs-common/src/ofs_impl.cc:556-577 | within a set or into another: moves the object to the new name unless the old is missing or the new is taken, the link logged before the unlink |
| `OfsRecovery.CopyFile` | external/pdlfs-common/src/ofs_impl.cc:579-616 | within a set or into another: announces the copy's object and links it if the store made the copy |
| `OfsRecovery.FileSet.CollectGarbage` | external/pdlfs-common/src/ofs_impl.cc:262-286 | the collection of a mount logs the deletion of exactly the objects that the store has deleted, and leaves the files |
| `OfsRecovery.DeletionsLeave` | external/pdlfs-common/src/ofs_impl.cc:268-279 | after it an object is garbage exactly when it was and has not been deleted |

## Left out

- MapReduce: the method gives the calls of a rank when none fails; module `Delivery` has their interleaving with the workers, and the abort at the first error. The barrier itself and the flush of the database behind it are not modelled.
- OwnersGetTheirs: a rank without faults has always a step that brings it nearer to the barrier (`RankCanStep`, `RankWorkShrinks`); that the threads are scheduled to take it is not modelled.
- RandomSequence: `Random`, the other generator of the header, is not part of this model.
- Generate: weights are reals. The counters of `huffman_buffer` are 64-bit integers, which wrap for limits above 60; the tree is full for any weights, so only the lengths of codes could change; rounding of the default `double` is not modelled.
- GolombEncode: the largest 64-bit number is left out for order 0, as m = n + 1 wraps to 0 there and the source then appends 2^64 - 1 bits; the trie would need it only for 2^64 - 1 keys.
- LocateRec: for keys that are not in the array only the bound on the rank is stated.
- Finish: Snappy compression and the block trailer of `Finalize` are not modelled.
- Seek: the comparator is the bytewise one; internal keys are not part of this model.
- MergingIterator: keys are integers standing for their place in the comparator's order; values and the status of children are not modelled.
- LookupIsRight: a search alone ends (`LookupEnds`); beside a writer that never rests one search need not.
- LRUCache.constructor: `SetCapacity` and the destructor are not modelled; capacity is fixed over a run, and the destructor does what Prune does without the table.
- HashTable.Insert: the linked `HashMap` on top of the table, which adds one circular list, is not modelled apart from it.
- AllDelivered: wake-ups may come at any time; fairness of the thread pool is not stated.
- NamesOnce: database calls are atomic, collision checks are on, and bulk insertion (`Bukin`), which takes the same locks, is not modelled.
- RecoveryIsRight: appends to a log reach the store in order, a log that is closed stays as it is, and failing appends and syncs are not modelled; neither are read-only mounts.
- Rename: a crash between the link in one set and the unlink in another leaves both, one in each set's log; nothing is stated about two sets together.
- FileSet.PutFile: that distinct files have distinct objects is not claimed: the source can announce an object that is still linked as possible garbage.
- LogFormat.TornLog: I/O errors, `clean_eof` and resynchronisation at an initial offset are not modelled; nor is the writer's constructor that leaves its offset unset.
- DirIndex.Update: an index without a representation and the functions marked for tests are not modelled; parsing images whose radix is 31 or more shifts out of range in the source. Images of more than 8192 bytes of bitmap are left out, as the source asserts that bytes of a bitmap have smaller indices.
- Crc32c tables: the table entries are defined by their meaning; the source's literals are not compared with it. The CRC instruction is modelled as byte steps.
- Hashing: xxhash, murmur and spooky are arbitrary functions here.
- `bit_vector::append` of another bit vector grows by the whole source and is not modelled, nor are failing allocations.
- Client caches and batch inserts (`fscli.cc`), RPC wrappers, environments, loggers, histograms and the database itself are not modelled.
