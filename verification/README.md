# Containers, hashing, checked arithmetic and debugger state of the repository

This project models the algorithmic core of the repository and proves what it is for.
Each module follows one source file; code that changes state in place is a class or a
method over an array, proved against functions on values about which the promises are
then proved.

- **`js::detail::HashTable`** (`HashCore`, `HashInvariant`, `HashSearch`, `HashRebuild`,
  `HashTable`, `HashEnum`, `HashRuns`). Open addressing with double hashing, tombstones
  and collision bits. The invariant: the keyHash of every slot before an entry on its
  probe path is odd, that is, the slot is a tombstone or carries the collision bit.
  `Loose` is the invariant while an `Enum` that has rekeyed is open, `Valid` adds the load
  bound that leaves a free slot. The table refines a finite map (`Contents`), through
  failed allocations, rebuilding in place and mutating enumeration, over whole runs;
  every resize and every failure happens exactly when the code says.
- **`mozilla::SplayTree`** (`SplayModel`, `SplaySet`, `SplayCost`, `SplayWork`,
  `SplayWorst`, `SplayTree`). The tree as a value with a path (zipper) to the node at
  hand; the operations refine a sorted set for every strict comparator; an amortized bound
  on splay steps with the integer potential, the sum of floor(log2(subtree size)), which
  carries over to comparisons and descents but not to the neighbour walk of `remove`; and
  the heap of nodes with left, right and parent pointers, whose in-place rotations are
  proved against the value.
- **`SHA1Sum`** (`Sha1Spec`, `Sha1Compress`, `Sha1Sum`). `Sha1Spec` is FIPS 180-4, sections
  2.2.2, 4.1.1, 4.2.1, 5.1.1, 5.3.1 and 6.1.2, with its functions pinned bit by bit, its
  constants as square roots and its byte order by digits. The unrolled compression with a
  16-word circular schedule equals it, and update and finish over any chunks give its
  digest.
- **`JSHashTable`** (`JSHashChains`, `JSHashWalk`, `JSHashTable`). A chained table whose
  lookups move entries to the front, that grows, shrinks and is enumerated with removal.
  Its loops have no bound of their own; they stop because `nentries` is exact.
- **The JSD profiler's call hook** (`ProfilerModel`, `ProfilerOwn`, `Profiler`). The trace
  of calls and returns defines what every script is billed, its active time, depth and
  extremes; the records the hook updates say exactly what the trace says, and what is
  billed is conserved. `ProfilerOwn` defines the documented own time and proves when it is
  what the hook bills.
- **The JSD reentrant lock** (`JsdLock`). One step per access to a shared word; safety over
  every interleaving of any number of threads, refinement of an atomic lock, and for each
  call exactly the effect it is for between its start and its return.
- **`BloomFilter`**. Keys are fields of the hash. Counters are stuck at 255 or exact, so
  there is no false negative, as long as only present hashes are removed.
- **`CheckedInt`** (`CheckedBits`, `CheckedInt`). Every validity check is exact for every
  width and signedness, and so is every expression.

`Arith` holds 32-bit numbers, powers of two, residues and the fact that an odd stride
covers a table of 2^k slots; `Bits` the bits of natural numbers under shifts, masks and
the bitwise operators; `Wrappers` holds `Option`. The answers of the allocator (`memory`),
readings of the clock and user functions (hash, comparators, the enumerator) are
parameters. `dafny verify dfyconfig.toml` checks the whole project.

The code and its documentation differ in four places, and the model follows the code:

- `findFreeEntry` says it assumes that no entry has been removed
  (`js/public/HashTable.h:1092-1097`), but `putNewInfallible` calls it on tables with
  tombstones (`js/public/HashTable.h:1412-1418`) and handles one being returned. The
  contract of `HashRebuild.FindFreeEntry` covers that.
- The comment that the first call always overwrites `minExecutionTime`
  (`js/jsd/jsd_step.cpp:165-171`) fails when the script recurses: inner returns raise
  `callCount` first, and the minimum stays 0. `Profiler.JSDContext.MinimumIsLeast` gives
  the exact condition and `Profiler.RecursionPinsMinimum` an instance.
- Own time is documented as time in a function excluding time in other called code
  (`js/jsd/idl/jsdIDebuggerService.idl:923-937`). A script that is active already and is
  called through another one leaves the timer with the other one
  (`js/jsd/jsd_step.cpp:151-154`). `Profiler.MutualCallMisbills` is an instance;
  `ProfilerOwn.DirectExactly` and `ProfilerOwn.OwnTimesExactly` give the exact condition.
- The comment on the class promises that search, insert and remove are amortized O(log n)
  (`mfbt/SplayTree.h:43-47`). `remove` walks to a neighbour of the root that is not splayed
  (`mfbt/SplayTree.h:114-123`). `SplayWork.AmortizedWork` proves the promise for all work
  but those walks, which searching and inserting do not make, and
  `SplayWorst.NoLogarithmicBound` that no multiple of the bound covers them.

## Model

| member | source | states |
|---|---|---|
| HashCore.PrepareHash | js/public/HashTable.h:910-918 | A prepared hash is never one of the two reserved codes and its collision bit is clear, also when the scrambled hash is 0 or 1 and the subtraction wraps. |
| HashCore.PreparedHash | js/public/HashTable.h:910-918 | Otherwise it is the hash times the golden ratio, modulo 2^32, without its lowest bit; both reserved codes become 2^32 - 2. |
| HashCore.GoldenRatio | mfbt/HashFunctions.h:59 | The multiplier is 2^32 over the golden ratio, rounded down. |
| HashCore.HashBits | js/public/HashTable.h:991-1010 | The first slot is the top log2 bits of the hash, and the stride the bits just below them with the lowest set. |
| HashCore.ApplyIsSubtraction | js/public/HashTable.h:1012-1015 | The 32-bit wrap-around of h1 - h2 is invisible under the size mask. |
| HashCore.ProbeCovers | js/public/HashTable.h:1002-1015 | The double-hash probe reaches every one of the 2^k slots within 2^k steps, for every hash. |
| HashCore.ProbeInjective | js/public/HashTable.h:1002-1015 | It visits no slot twice within 2^k steps. |
| Arith.OddStrideCovers | js/public/HashTable.h:1002-1010 | A stride whose low bit is set generates all residues modulo a power of two. |
| HashInvariant.MarksKeepInv | js/public/HashTable.h:656-658 | Setting collision bits on live entries keeps the whole table invariant and the map. |
| HashInvariant.SetLiveKeepsInv | js/public/HashTable.h:664-670 | Storing an absent key in a non-live slot at the end of a marked path keeps the invariant, provided a reused tombstone keeps its collision bit; the map gains exactly that key. |
| HashInvariant.RemoveKeepsInv | js/public/HashTable.h:1199-1213 | Emptying a slot, to a tombstone exactly if its collision bit was set, keeps every other entry reachable and removes exactly its key. |
| HashInvariant.LoadLeavesRoom | js/public/HashTable.h:1017-1020 | If live entries and tombstones are fewer than the slots there is a free slot; if live entries are, there is a non-live one. |
| HashSearch.SearchStep | js/public/HashTable.h:1066-1077 | One turn of the probe loop keeps what the search knows: the slots passed do not hold the key, are marked when asked, and the first tombstone is remembered. |
| HashSearch.SearchMisses | js/public/HashTable.h:1080-1083 | Meeting a free slot proves the key absent, and the slot returned is a non-live one at the end of a marked path. |
| HashSearch.SearchHits | js/public/HashTable.h:1085-1088 | A slot whose hash and key match is the slot of that key. |
| HashSearch.Lookup | js/public/HashTable.h:1038-1090 | The private lookup ends, returns the key's own slot if it is mapped and otherwise a slot that can take it, and changes nothing but collision bits, and those only on request. |
| HashRebuild.FindFreeEntry | js/public/HashTable.h:1098-1132 | Ends on the first non-live slot of the path whenever there is a non-live slot at all, having marked the live entries before it. |
| HashRebuild.CopyStep | js/public/HashTable.h:1158-1165 | Copying one live entry keeps: the new table holds exactly the mappings copied so far and no tombstones. |
| HashRebuild.CopyLive | js/public/HashTable.h:1158-1165 | The new table holds the same map as the old one, without tombstones. |
| HashRebuild.PlacingKeeps | js/public/HashTable.h:1262-1275 | Swapping a pending entry into an unplaced slot of its path keeps the map and the placed entries placed, and strictly shrinks the set of pending entries. |
| HashRebuild.FindUnplaced | js/public/HashTable.h:1262-1275 | The inner loop of the in-place rehash ends, on a slot of the path without a placed entry, every slot before it being marked. |
| HashRebuild.RehashTableInPlace | js/public/HashTable.h:1245-1281 | The in-place rehash terminates (by the pending set, then the index), keeps the map, leaves no tombstone and re-establishes the probe-path invariant without a second table; every live entry ends with its collision bit set. |
| HashTable.InitLeavesRoom | js/public/HashTable.h:945-971 | The capacity (length * 171) >> 7, rounded up, keeps length entries within three quarters of it. |
| HashTable.HashTable.RoundUpLog2 | js/public/HashTable.h:958-967 | The rounding loop finds the least power of two of at least 4 that is not below the wanted capacity. |
| HashTable.HashTable.Init | js/public/HashTable.h:945-977 | Succeeds exactly for a length up to 2^23 with memory. Then the table is valid and empty, length entries fit below the load bound, and of half the capacity that formula would not be met, unless it is 4; on failure nothing changed. |
| HashTable.HashTable.Count | js/public/HashTable.h:1325-1328 | count() is the size of the map. |
| HashTable.HashTable.ChangeTableSize | js/public/HashTable.h:1136-1170 | Succeeds exactly for a capacity up to 2^24 with memory. Then it keeps the map and drops all tombstones under a new generation; a failure changes nothing. |
| HashTable.HashTable.LoadBounds | js/public/HashTable.h:1017-1031 | In quarters of the capacity: overloaded from three quarters of live entries and tombstones on, underloaded up to one quarter of live entries, unless the capacity is 4. |
| HashTable.HashTable.CheckOverloaded | js/public/HashTable.h:1172-1188 | Rebuilds exactly when the load test says so and the new size is allowed and granted: the same size when a quarter of the slots are tombstones, the double otherwise; afterwards the load bound holds under a new generation. |
| HashTable.HashTable.RehashTableInPlace | js/public/HashTable.h:1245-1281 | From any state of an open Enum, restores the load bound with the same map, table and generation. |
| HashTable.HashTable.CheckOverRemoved | js/public/HashTable.h:1191-1197 | Restores the load bound without fail, keeping the map: by a new table when one can be had, then with a new generation, and else in place. |
| HashTable.HashTable.CheckUnderloaded | js/public/HashTable.h:1215-1221 | Halves the table exactly if it is underloaded and there is memory, keeping the map and the load bound, with a new generation. |
| HashTable.HashTable.CompactIfUnderloaded | js/public/HashTable.h:1226-1238 | Exactly if the table is underloaded and there is memory, shrinks it to the largest capacity that is not underloaded, with at most half the slots used; the map is kept and the generation is new. |
| HashTable.HashTable.Lookup | js/public/HashTable.h:1353-1358 | lookup(l) yields a live entry exactly when l is mapped, holding its value, and writes nothing. |
| HashTable.HashTable.LookupForAdd | js/public/HashTable.h:1366-1374 | The same, and a miss yields an AddPtr at which add may store l. |
| HashTable.HashTable.Add | js/public/HashTable.h:1377-1404 | add stores the key through the AddPtr. It rebuilds exactly when the slot is not a tombstone and the table is overloaded, fails exactly when that rebuild is refused or has no memory, and then changes nothing; the generation changes exactly with the table. |
| HashTable.HashTable.PutNewInfallible | js/public/HashTable.h:1407-1423 | Adds an absent key without resizing, reusing a tombstone with its collision bit. |
| HashTable.HashTable.PutNew | js/public/HashTable.h:1426-1433 | Adds an absent key, after a rebuild exactly if the table is overloaded; fails exactly if that rebuild does, and then changes nothing. |
| HashTable.HashTable.RelookupOrAdd | js/public/HashTable.h:1436-1444 | Finds l again after any mutations in between, or adds it; fails only for an absent key in an overloaded table that cannot be rebuilt. |
| HashTable.ClearSlot | js/public/HashTable.h:1199-1213 | Emptying one slot removes exactly its key from the map and adds a tombstone exactly if its collision bit was set. |
| HashTable.HashTable.RemoveEntry | js/public/HashTable.h:1199-1213 | The private remove takes exactly that entry's key out of the map, keeps the counters exact and the load bound if it held. |
| HashTable.HashTable.Remove | js/public/HashTable.h:1446-1453 | remove(p) takes exactly p's key out of the map and halves the table exactly if this leaves it underloaded and there is memory, with a new generation. |
| HashTable.HashTable.Clear | js/public/HashTable.h:1284-1296 | Empties the map and all slots. |
| HashTable.HashTable.Finish | js/public/HashTable.h:1298-1311 | Gives up the table; init may be called again. |
| HashEnum.Enum.PopFront | js/public/HashTable.h:758-763 | Goes to the next live entry or the end, skipping none, whatever has been removed or rekeyed, and records the key passed. |
| HashEnum.Enum.RemoveFront | js/public/HashTable.h:794-798 | Takes the front's key out of the map at once and postpones any shrink. |
| HashEnum.Enum.RekeyFront | js/public/HashTable.h:803-810 | Moves the front's value to a key not otherwise present, without a free slot being guaranteed, and records the key it had. |
| HashEnum.Enum.Close | js/public/HashTable.h:817-825 | After any mix of removals and renames the map is the opening one with exactly those applied in order, and the load bound holds again, even when no new table can be had. The generation changes if anything was rekeyed or the table replaced, and only then; after removals no table stays underloaded for which there is memory. |
| HashEnum.Enum.SawEveryKey | js/public/HashTable.h:731-825 | An exhausted enumeration, with any rekeying and removing on the way, has had each key of the opening map at its front: passed, removed or rekeyed. |
| HashEnum.Enum.SawEverything | js/public/HashTable.h:731-763 | If it has not rekeyed it has visited each key of the opening map exactly once, and no other. |
| HashRuns.Put | js/public/HashTable.h:226-234 | HashMap::put overwrites a present key without fail or resize and adds an absent one; it fails only in an overloaded table that cannot be rebuilt. |
| HashRuns.RemoveKey | js/public/HashTable.h:252-255 | HashMap::remove takes the key out if it is there, and then halves the table exactly if it is left underloaded and there is memory. |
| HashRuns.Run | js/public/HashTable.h:1353-1453 | Every script of lookups, puts, adds, removals and clears, with the allocator granting or refusing in each operation, answers as a finite map does and leaves the table valid; an operation fails only when live entries and tombstones fill three quarters of the slots and there is either no memory or no larger size and less than a quarter of tombstones. |
| HashRuns.InitAndFill | js/public/HashTable.h:885-977 | init(length) succeeds exactly up to 2^23 with memory; after it, adding up to length distinct keys never fails and never resizes, even when no more memory can be had: the generation stays. |
| SplayModel.SplayInOrder | mfbt/SplayTree.h:194-217 | Splaying any node keeps the in-order sequence and the set of nodes. |
| SplayModel.DoubleStepIsRotations | mfbt/SplayTree.h:206-215 | A zig-zig step is the parent's rotation and then the node's, a zig-zag step the node's twice, in all four cases. |
| SplaySet.LookupFinds | mfbt/SplayTree.h:170-187 | Under every strict comparator the search ends on an equal element exactly when there is one, and otherwise at the gap where the value belongs. |
| SplaySet.InsertRefines | mfbt/SplayTree.h:78-97 | Inserting an absent value puts it at one place of the sorted sequence and changes nothing else. |
| SplaySet.DropRootInOrder | mfbt/SplayTree.h:109-149 | Swapping the in-order neighbour in for the root removes just the root's value. |
| SplaySet.RemoveRefines | mfbt/SplayTree.h:99-153 | Removing a present value deletes the one element equal to it from the sorted sequence. |
| SplayCost.DoubleStepPays | mfbt/SplayTree.h:206-215 | A zig-zig or zig-zag step is paid by three times the rank gained, with ranks floor(log2 size). |
| SplayCost.SplayPays | mfbt/SplayTree.h:189-217 | Splaying costs at most 3 * (rank of the root - rank of the node) + 1. |
| SplayCost.GrowPays | mfbt/SplayTree.h:89-94 | Hanging a new leaf raises the potential by at most the rank of the new tree. |
| SplayCost.DropRootPays | mfbt/SplayTree.h:109-149 | The swap in remove never raises the potential. |
| SplayCost.OpPays | mfbt/SplayTree.h:189-217 | Each operation takes at most 4 * floor(log2 n) + 1 splay steps amortized. |
| SplayCost.RunPays | mfbt/SplayTree.h:189-217 | A run from any tree takes at most its potential plus that many splay steps per operation. |
| SplayCost.AmortizedBound | mfbt/SplayTree.h:189-217 | From an empty tree that never exceeds n nodes, m operations take at most m * (4 * floor(log2 n) + 1) zig, zig-zig and zig-zag steps. |
| SplayWork.DepthBySteps | mfbt/SplayTree.h:170-217 | Splaying a node takes at least half as many steps as the node is deep. |
| SplayWork.MinDescent | mfbt/SplayTree.h:155-163 | removeMin's own descent is the search its remove makes again. |
| SplayWork.SearchBySteps | mfbt/SplayTree.h:67-187 | The comparisons of an operation, and removeMin's descent, are at most four per splay step and two more. |
| SplayWork.AmortizedSearch | mfbt/SplayTree.h:44-46 | Searching is amortized O(log n) in every operation: m operations make at most m * (16 * floor(log2 n) + 6) comparisons and descents. |
| SplayWork.AmortizedWork | mfbt/SplayTree.h:44-46 | The whole work of a run is at most m * (20 * floor(log2 n) + 7) and the links remove follows to its neighbours. |
| SplayWork.OnlyRemovalsWalk | mfbt/SplayTree.h:44-46 | A run of searches and insertions follows no such link, so for it the promised amortized bound holds in full. |
| SplayWorst.ChainFolds | mfbt/SplayTree.h:194-217 | Splaying the end of a chain of 2k nodes folds it into a comb of k pairs. |
| SplayWorst.RemoveTwo | mfbt/SplayTree.h:109-149 | Removing the two greatest values above a comb of j pairs follows j - 1 links each time and leaves the comb of j - 1 pairs. |
| SplayWorst.QuadraticWalks | mfbt/SplayTree.h:114-123 | 4k + 1 legal operations from an empty tree, never on more than 2k + 1 nodes, follow k * (k - 1) links to neighbours. |
| SplayWorst.NoLogarithmicBound | mfbt/SplayTree.h:44-46 | For every constant c some run of m operations on at most n nodes takes more work than c * m * (floor(log2 n) + 1): the promise fails for remove. |
| SplayTree.SplayTree.Rotate | mfbt/SplayTree.h:219-252 | On the heap, one rotation turns the tree into the rotated one with every left, right and parent pointer in agreement, whatever is above. |
| SplayTree.SplayTree.DoubleRotate | mfbt/SplayTree.h:206-215 | The two rotations of a double step give the stated shape in all four cases. |
| SplayTree.SplayTree.Splay | mfbt/SplayTree.h:194-217 | Ends with the node as root of the splayed tree, after exactly the modelled number of steps. |
| SplayTree.SplayTree.Lookup | mfbt/SplayTree.h:170-187 | The pointer walk ends on the node the specification's search ends on, after one comparison per node on the way. |
| SplayTree.SplayTree.Contains | mfbt/SplayTree.h:67-76 | True exactly if an element compares equal; the sorted sequence and the nodes are kept. |
| SplayTree.SplayTree.Insert | mfbt/SplayTree.h:78-97 | The detached node becomes the root; its value enters the sorted sequence at its place. |
| SplayTree.SplayTree.TakeRoot | mfbt/SplayTree.h:109-152 | The pointer surgery of remove yields a coherent tree without the old root, in the empty, one-sided and two-sided cases, following the modelled number of links. |
| SplayTree.SplayTree.Remove | mfbt/SplayTree.h:99-153 | Returns the node equal to v; the tree keeps all others, sorted and coherent. |
| SplayTree.SplayTree.RemoveMin | mfbt/SplayTree.h:155-163 | Returns the least element and keeps the rest. |
| SplayTree.SplayTree.Run | mfbt/SplayTree.h:44-163 | Every legal run on the heap keeps the tree coherent and sorted; the splay steps stay within the amortized bound, the nodes compared and passed within four times those steps and two an operation, and the links followed to neighbours are exactly those of the model. |
| Sha1Spec.RotlBit | mfbt/SHA1.cpp:14-19 | The rotation of the specification moves bit i to i + n modulo 32. |
| Sha1Compress.ShaRotlIsRotl | mfbt/SHA1.cpp:14-19 | SHA_ROTL, two shifts and an or, is that rotation for every word and distance. |
| Sha1Spec.ChBit | mfbt/SHA1.cpp:24 | Bit by bit, Ch takes the second word where the first has a 1 and the third elsewhere. |
| Sha1Spec.ParityBit | mfbt/SHA1.cpp:25 | Bit by bit, Parity is the sum of the three modulo 2. |
| Sha1Spec.MajBit | mfbt/SHA1.cpp:26 | Bit by bit, Maj is what at least two of the three have. |
| Sha1Spec.Xor4Bit | mfbt/SHA1.cpp:29 | Bit by bit, the four words of the schedule are added modulo 2. |
| Sha1Spec.KIsSquareRoot | mfbt/SHA1.cpp:212-215 | The constants are 2^30 times the square roots of 2, 3, 5 and 10, rounded down. |
| Sha1Spec.InitialBytes | mfbt/SHA1.cpp:34-39 | The initial value is the bytes 01 23 .. ef, fe .. 10 and f0 .. c3, the least significant of each word first. |
| Sha1Spec.WordIsDigits | mfbt/SHA1.cpp:226 | A word of a block is the number whose base-256 digits are its four bytes in order. |
| Sha1Spec.BytesAreDigits | mfbt/SHA1.cpp:143-144 | The bytes stored for a length are its base-256 digits modulo 2^64, the most significant first. |
| Sha1Spec.StateBytesHold | mfbt/SHA1.cpp:147-153 | The digest holds the five words of the chaining value in order, each the most significant byte first. |
| Sha1Compress.MacrosMatch | mfbt/SHA1.cpp:24-27 | SHA_F1 to SHA_F4 are Ch, Parity, Maj and Parity of FIPS 180-4 section 4.1.1, on all words. |
| Sha1Compress.MixArgsAreOffsets | mfbt/SHA1.cpp:251-320 | The word numbers in the 64 SHA_MIX lines are t-3, t-8 and t-14 modulo 16. |
| Sha1Compress.ShaMixIs | mfbt/SHA1.cpp:29 | SHA_MIX rotates the sum of its four words by one place, as the standard's schedule does. |
| Sha1Compress.WindowStep | mfbt/SHA1.cpp:29-29 | Overwriting one word of the 16-word circular schedule keeps the last 16 words of the 80-word schedule in it. |
| Sha1Compress.NextWord | mfbt/SHA1.cpp:226-251 | LOAD or SHA_MIX puts word t of the standard's schedule into its slot and keeps H[0..4]. |
| Sha1Compress.RndIsRound | mfbt/SHA1.cpp:217-224 | One SHA_RND line with its permuted registers is one round of section 6.1.2. |
| Sha1Compress.FiveRounds | mfbt/SHA1.cpp:234-320 | Five lines bring the register renaming back to where it began and are five rounds. |
| Sha1Compress.ShaCompress | mfbt/SHA1.cpp:204-327 | For every chaining value and block the unrolled compression equals the standard's. |
| Sha1Sum.SHA1Sum.constructor | mfbt/SHA1.cpp:31-40 | A new object has absorbed nothing. |
| Sha1Sum.SHA1Sum.Update | mfbt/SHA1.cpp:81-118 | H is the fold over the complete 64-byte blocks of all bytes so far, the buffer is exactly the rest, and size counts them modulo 2^64; update appends its bytes to that message. |
| Sha1Sum.PaddingMatches | mfbt/SHA1.cpp:137-139 | The count (((55 + 64) - lenB) & 63) + 1 is the least padding that leaves room for the length. |
| Sha1Sum.LengthField | mfbt/SHA1.cpp:141-144 | The two words stored are the low 64 bits of the message length in bits, also when size has wrapped. |
| Sha1Sum.SHA1Sum.Finish | mfbt/SHA1.cpp:124-155 | The digest is SHA-1 of everything given to update, padded by section 5.1.1 of FIPS 180-4. |
| Sha1Sum.HashChunks | mfbt/SHA1.cpp:81-155 | However a message is split into update calls, the digest is that of the whole. |
| JSHashChains.Search | js/jsd/jshash.cpp:147-159 | The chain walk stops at the first entry with the hash and key, or at the null link that ends the chain. |
| JSHashChains.FrontedKeeps | js/jsd/jshash.cpp:150-154 | Moving an entry to the front of its chain keeps every entry in its bucket, once. |
| JSHashChains.Front | js/jsd/jshash.cpp:150-154 | The three pointer writes of move-to-front relink exactly that chain. |
| JSHashChains.NothingLeft | js/jsd/jshash.cpp:191-191 | When every old chain is empty no entry is left to move, so an exact count stops the loop within the vector. |
| JSHashChains.MoveEntry | js/jsd/jshash.cpp:197-205 | Taking one entry off its old chain and appending it to its new bucket's keeps both vectors linked and every entry in one of them. |
| JSHashChains.MoveAll | js/jsd/jshash.cpp:191-207 | The rehash loops, bounded only by the count of entries, move every entry to the bucket of its multiplicative hash. |
| JSHashTable.NewHashTable | js/jsd/jshash.cpp:64-102 | A new table exists exactly if both allocations are granted. It is empty, within its load and has the least power of two of at least 16 and n buckets; above 2^29 the size in bytes wraps around and the vector is empty. |
| JSHashTable.JSHashTable.RawLookup | js/jsd/jshash.cpp:136-161 | Finds the entry of a present key, which ends up first on its chain, and otherwise the null link ending the chain; the map and the order of the other entries are kept. |
| JSHashTable.JSHashTable.Resize | js/jsd/jshash.cpp:163-213 | Succeeds exactly up to 2^29 buckets with memory. It keeps the map, the entries and their number at any new size with room for them; a failure changes nothing. |
| JSHashTable.LoadLaw | js/jsd/jshash.cpp:22-29 | Overloaded is seven eighths of the buckets and underloaded a quarter of them, or none of the smallest 16. |
| JSHashTable.JSHashTable.GrowIfOverloaded | js/jsd/jshash.cpp:221-231 | Doubles an overloaded table and finds the end of the key's chain again in it; fails exactly if an overloaded table cannot double. |
| JSHashTable.JSHashTable.RawAdd | js/jsd/jshash.cpp:215-244 | Adds exactly the one mapping of an absent key at any link of its chain; null exactly if there is no memory for the entry or the table is overloaded and cannot double. It doubles exactly an overloaded table that can; after an addition it is within its load. |
| JSHashTable.JSHashTable.Add | js/jsd/jshash.cpp:246-266 | Adds or overwrites one mapping, except that a value valueCompare accepts as equal is left alone; null exactly for an absent key without memory for its entry or in an overloaded table that cannot double. The bound of seven eighths is kept. |
| JSHashTable.JSHashTable.RawRemove | js/jsd/jshash.cpp:268-284 | Removes exactly the one mapping and the one entry, wherever on its chain the link is, and halves the table exactly if it is left underloaded and there is memory, keeping the bound of seven eighths. |
| JSHashTable.JSHashTable.Remove | js/jsd/jshash.cpp:286-300 | True exactly when the key was present; the map loses just that key, and the table is halved exactly if it is left underloaded and there is memory. |
| JSHashTable.JSHashTable.Lookup | js/jsd/jshash.cpp:302-314 | The value of the key if it is present. |
| JSHashWalk.WalkStep | js/jsd/jshash.cpp:331-345 | The entry a walk stands before has not been visited; visiting it, removed or kept, advances the walk by one. |
| JSHashWalk.FlaggedStep | js/jsd/jshash.cpp:334-342 | A visit adds its key to the keys to remove exactly if the enumerator says so. |
| JSHashTable.JSHashTable.VisitEntry | js/jsd/jshash.cpp:331-345 | One turn of the inner loop keeps: the map is the opening one without the keys flagged so far. |
| JSHashTable.JSHashTable.WalkRoom | js/jsd/jshash.cpp:329-329 | While fewer entries have been visited than there were, a bucket is left to walk: the unbounded loop never runs past the vector. |
| JSHashTable.ReallyShrinks | js/jsd/jshash.cpp:352-361 | The new size after removals holds the entries and is smaller, as the assertion claims. |
| JSHashTable.JSHashTable.ShrinkToFit | js/jsd/jshash.cpp:348-363 | Exactly if entries were removed, the table is underloaded and there is memory, shrinks it to the least power of two, at least 16, that holds its entries; the map is kept. |
| JSHashTable.ShrinkOverloads | js/jsd/jshash.cpp:352-361 | 16 entries left of 128 buckets make the table shrink to 16 buckets, where the bound is 14. |
| JSHashTable.JSHashTable.EnumerateEntries | js/jsd/jshash.cpp:321-365 | Visits each entry at most once, all of them unless stopped, removes exactly the flagged ones, keeps the rest reachable through the shrink, and leaves no more entries than buckets; after a shrink the bound of about 90 percent holds exactly if the entries are few enough for the least size. |
| ProfilerModel.FirstCall | js/jsd/jsd_step.cpp:114-147 | The first call of an inactive script starts its timer under the current script as caller. |
| ProfilerModel.StopCaller | js/jsd/jsd_step.cpp:123-136 | The current script's timer is stopped with exactly the time billed to it so far. |
| ProfilerModel.LastReturn | js/jsd/jsd_step.cpp:155-208 | A script's last return settles its total time and the time billed to it exactly and makes its recorded caller current. |
| ProfilerModel.RecursiveReturn | js/jsd/jsd_step.cpp:209-212 | A recursive return only undoes one level of depth and counts a call. |
| ProfilerModel.LargestBounds | js/jsd/jsd_step.cpp:174-175 | The recorded maximum is 0 or a sample, and no sample exceeds it. |
| ProfilerModel.LargestAttained | js/jsd/jsd_step.cpp:174-203 | As no duration is negative, the recorded maxima of a script that has returned are samples. |
| ProfilerModel.SmallestBounds | js/jsd/jsd_step.cpp:169-173 | The least duration is a sample that no other is below. |
| ProfilerModel.DeepestBounds | js/jsd/jsd_step.cpp:151-153 | The greatest recursion depth bounds the depth at every time and was reached. |
| ProfilerModel.TotalsAreSums | js/jsd/jsd_step.cpp:160-193 | Total and billed time are the sums over the single activations and of what the last one has taken so far. |
| ProfilerModel.BilledTimesAddUp | js/jsd/jsd_step.cpp:114-213 | In every well-nested trace, recursive or not, the times billed add up to the durations of the outermost calls. |
| ProfilerOwn.DirectExactly | js/jsd/jsd_step.cpp:151-154 | The script billed is the running one all along if and only if no active script is called through another one. |
| ProfilerOwn.TimesExactly | js/jsd/jsd_step.cpp:123-139 | Every script is billed its documented own time all along if and only if, whenever time passed, the script billed was the running one. |
| ProfilerOwn.OwnTimesExactly | js/jsd/idl/jsdIDebuggerService.idl:933-937 | Without a call of an active script through another one every script is billed the time spent in it excluding other called code; on a clock that ticks between events, only then. |
| ProfilerOwn.OwnDurationsExact | js/jsd/idl/jsdIDebuggerService.idl:923-932 | The own times of single activations are right then too. |
| Profiler.JSDContext.MinimumIsLeast | js/jsd/jsd_step.cpp:165-171 | The record's two minima are the least duration and the least time billed if and only if the script's first return was not a recursive one or that least is zero. |
| Profiler.RecursionPinsMinimum | js/jsd/jsd_step.cpp:165-171 | Through the hook, a script calling itself once takes 3 units, all its own, and its record shows minima of 0. |
| Profiler.MutualCallMisbills | js/jsd/jsd_step.cpp:151-154 | Through the hook, a calling b calling a: a's record shows 2 units of own time for 12, b's 12 for 2. |
| Profiler.JSDContext.OwnTimesAsDocumented | js/jsd/idl/jsdIDebuggerService.idl:923-937 | While no active script is called through another one, a record holds the documented own times, in total, running part included, and at the extremes. |
| Profiler.JSDContext.OwnTimesRightExactly | js/jsd/idl/jsdIDebuggerService.idl:933-937 | On a clock that ticks between events the records have held the documented own times all along if and only if no call before the last event was one of an active script through another one. |
| Profiler.JSDContext.NewProfileData | js/jsd/jsd.h:157-171 | A zeroed record accounts for a script the trace has not mentioned. |
| Profiler.JSDContext.CallHook | js/jsd/jsd_step.cpp:106-213 | After every call or return each script's record says what the trace says: calls, depth, extremes, total time and time billed, caller and timer; a stray return changes nothing. |
| Profiler.JSDContext.CallerLinksAreActiveStack | js/jsd/jsd_step.cpp:119-139 | From callingFunctionPData the caller links run through the active scripts, each once, and end with null. |
| Profiler.JSDContext.BilledTimesConserved | js/jsd/jsd_step.cpp:114-213 | Settled, stopped and running billed times of all records add up to the durations of the outermost calls, the one in progress included; with none in progress they are the totalOwnExecutionTime fields. |
| JsdLock.StepKeepsOther | js/jsd/jsd_lock.cpp:103-123 | A step of one thread never makes another the owner, nor stops it from being, so the unsynchronised read of owner is reliable. |
| JsdLock.StepKeeps | js/jsd/jsd_lock.cpp:103-143 | Every atomic step of any thread keeps the protocol invariant. |
| JsdLock.Safety | js/jsd/jsd_lock.cpp:103-155 | In every interleaving at most one thread is inside, the owner holds the PRLock, count is its nesting depth, all assertions but the one against unlocking a lock one does not own hold, and PR_Unlock is called by the holder. |
| JsdLock.CallTakesEffectOnce | js/jsd/jsd_lock.cpp:103-143 | In every interleaving, between a thread's call and its return: jsd_Lock locks exactly once and returns with the caller inside, one deeper; jsd_Unlock unlocks exactly once if the caller was inside and else does nothing; jsd_IsLocked does nothing. |
| JsdLock.CallAnswers | js/jsd/jsd_lock.cpp:145-155 | In every interleaving a call of jsd_IsLocked returns whether its caller is inside. |
| JsdLock.CallsFinish | js/jsd/jsd_lock.cpp:103-155 | Each step of its own brings a call nearer to its return, and only waiting for the PRLock held by a thread can keep it from a step. |
| JsdLock.OwnStepsBounded | js/jsd/jsd_lock.cpp:103-155 | A call takes at most six steps of its own, the assertions counted. |
| JsdLock.IsLockedAnswers | js/jsd/jsd_lock.cpp:145-155 | jsd_IsLocked answers whether the calling thread is inside. |
| JsdLock.UnlockNeedsOwner | js/jsd/jsd_lock.cpp:125-143 | Unlock by a thread that is not inside changes nothing; by the one inside it goes on to undo one call. |
| JsdLock.NoDeadlock | js/jsd/jsd_lock.cpp:116-116 | A thread waits only while another is inside or can itself take a step. |
| JsdLock.StepRefines | js/jsd/jsd_lock.cpp:103-143 | Every step is a step of an atomic reentrant lock or invisible to it. |
| JsdLock.RunRefines | js/jsd/jsd_lock.cpp:103-143 | Every interleaving has the effect of atomic lock and unlock operations made one at a time. |
| BloomFilter.KeyBits | mfbt/BloomFilter.h:148-153 | Bit i of the first key is bit i of the hash and bit i of the second bit 16 + i, for as many bits as a key has. |
| BloomFilter.SameKeys | mfbt/BloomFilter.h:148-153 | Two hashes share a key exactly when they agree on all the bits of it. |
| BloomFilter.HitsWithout | mfbt/BloomFilter.h:152-158 | The hits on a slot are the sum over the present hashes, twice for a hash whose keys coincide, whatever the order. |
| BloomFilter.BloomFilter.Clear | mfbt/BloomFilter.h:165-170 | Forgets every hash and unsticks every counter, from any state. |
| BloomFilter.BloomFilter.Add | mfbt/BloomFilter.h:172-183 | Each counter rises by its hits, sticking at 255, and stays stuck or exact. |
| BloomFilter.RemoveExactly | mfbt/BloomFilter.h:193-206 | Lowering the counters of a hash keeps every counter stuck or exact if and only if the hash is present or each of its counters is stuck or about to wrap around to stuck. |
| BloomFilter.BloomFilter.Remove | mfbt/BloomFilter.h:193-206 | Any removal lowers the hash's counters as stated; for a present hash none runs below zero, and otherwise the filter stays right exactly on the condition above. |
| BloomFilter.ForgetsAfterAbsentRemoval | mfbt/BloomFilter.h:193-222 | After the removal of an absent hash that shares a key, a present hash is denied. |
| BloomFilter.BloomFilter.MightContain | mfbt/BloomFilter.h:216-222 | Never false for a present hash; true exactly if both slots are stuck or hit by some present hash. |
| CheckedBits.PatternOf | mfbt/CheckedInt.h:242-254 | Conversion to the unsigned type and back is exact for a value of the type. |
| CheckedBits.XorSign | mfbt/CheckedInt.h:355-368 | The sign bit of an exclusive or is set exactly if the operands' differ, for every width. |
| CheckedBits.AndSign | mfbt/CheckedInt.h:355-368 | The sign bit of a conjunction is set exactly if both operands' are. |
| CheckedInt.Extremes | mfbt/CheckedInt.h:210-237 | The computed MinValue and MaxValue bound exactly the range of the type. |
| CheckedInt.Ranges | mfbt/CheckedInt.h:210-237 | MinValue and MaxValue in numbers, for each of the eight types. |
| CheckedInt.IsInRangeIsExact | mfbt/CheckedInt.h:265-351 | Each specialization of IsInRange is true exactly for the values the target type can hold. |
| CheckedInt.IsAddValidIsExact | mfbt/CheckedInt.h:353-369 | The sign-bit test for sums is true exactly when the exact sum is representable, for every width and signedness. |
| CheckedInt.IsSubValidIsExact | mfbt/CheckedInt.h:371-386 | The sign-bit test for differences is true exactly when the exact difference is representable. |
| CheckedInt.IsMulValidIsExact | mfbt/CheckedInt.h:388-442 | Both multiplication tests, by a type twice as big and by divisions, are true exactly when the exact product is representable. |
| CheckedInt.CDivTruncates | mfbt/CheckedInt.h:777-780 | Division is C's: the remainder is smaller than the divisor and is 0 or has the sign of the dividend, for all signs. |
| CheckedInt.DividesIntoIsExact | mfbt/CheckedInt.h:405-426 | The four sign cases of the 64-bit test are exact under truncating division. |
| CheckedInt.IsDivValidIsExact | mfbt/CheckedInt.h:444-451 | True exactly when the divisor is not zero and the truncated quotient is representable. |
| CheckedInt.IsModValidIsExact | mfbt/CheckedInt.h:453-489 | True exactly for a non-negative dividend and positive divisor, and then the remainder is exact and in range. |
| CheckedInt.NegateIsExact | mfbt/CheckedInt.h:491-516 | Negation is valid exactly when the negated value is representable. |
| CheckedInt.FromIntIsExact | mfbt/CheckedInt.h:621-630 | Construction from a plain integer of any type is valid exactly when the value fits, and keeps it. |
| CheckedInt.IsValidIsExact | mfbt/CheckedInt.h:771-787 | A binary operator is valid exactly when there is an exact result in range. |
| CheckedInt.ComputeIsExact | mfbt/CheckedInt.h:777-780 | The machine operation that is carried out, reduced to the type's bits, loses nothing once the check has passed, and never divides by zero. |
| CheckedInt.OperateIsExact | mfbt/CheckedInt.h:771-787 | A binary operator yields a valid result exactly when both operands are valid and the exact result fits, and then that result. |
| CheckedInt.EvalIsExact | mfbt/CheckedInt.h:526-546 | For every expression over the operators, negation, plain integers and conversions between types, the result is valid exactly when no intermediate value went out of range, and is then the exact value. |
| CheckedInt.EqualIsExact | mfbt/CheckedInt.h:719-722 | Comparison with a plain integer of another type compares the integers. |
| CheckedInt.CheckedVariable.Assign | mfbt/CheckedInt.h:825-832 | A compound assignment is valid exactly when both operands are and the exact result fits. |
| CheckedInt.CheckedVariable.Step | mfbt/CheckedInt.h:724-753 | Increment and decrement give the exact neighbour or turn invalid, and the postfix forms return the old value. |

## Left out

- HashTable: raw memory (placement new, destructors, moves), allocator identity, the debug statistics, `ReentrancyGuard`, move construction and `sizeOf` reports.
- HashTable: a `Lookup` type that differs from the key type, and policies that call back into the table; matching is equality of keys with a pure hash function.
- HashTable: that an allocation fails is the parameter `memory`; which one does, and reporting it, is not modelled.
- HashCore: shifts and masks are written as division and remainder by powers of two.
- HashEnum.Enum.RekeyFront: rekeying to a key that is already present is not modelled, as the source asks for a key that is not.
- HashEnum: how often an entry that was rekeyed is met is not stated; it may come by again under its new key, or not.
- SplayTree.SplayTree.Insert: takes a node with null pointers whose value is absent; in debug builds the assertion that says so also splays, which is not modelled. The unused `freeList` is left out.
- SplayTree.SplayTree.Remove: says nothing about the pointers of the node returned, which stay stale as in the source.
- SplayCost.AmortizedBound: bounds splay steps alone; SplayWork and SplayWorst treat the rest of the work. The assertions of debug builds are not counted.
- Sha1Compress.ShaCompress: the 80 macro lines are taken in four groups of twenty, five at a time with the word numbers in a table; `volatile` and the byte order of the machine (words are numbers, bytes are given explicitly) are not modelled.
- Sha1Sum.SHA1Sum.Update: a call takes fewer than 2^32 bytes, as its 32-bit length does. For messages of 2^61 bytes and more the standard defines no digest; the digest proved uses the low 64 bits of the length, as the code does.
- JSHashTable.JSHashTable.Resize: models 32-bit sizes, where a vector of 2^30 buckets is refused; with 64-bit sizes the refusal never happens.
- JSHashTable.NewHashTable: takes n up to 2^31, because above it the number of buckets is a shift by 32 places, which C leaves undefined.
- JSHashTable.JSHashTable.RawAdd: takes an absent key under its own hash and a link of that hash's chain, as its callers ensure; with a present key the call would chain a second entry for it.
- JSHashTable.JSHashTable.EnumerateEntries: the enumerator is a pure function of key, value and count; one that changes values or calls back into the table is not modelled. Meters, dumping and destruction are left out.
- Profiler.JSDContext.CallHook: models the accounting for a script whose profile data is available; the user's hook, the constructor hook, script lookup, clearing of profile data and turning profiling on or off per script are left out. Times are integers in the clock's unit, without the scaling to milliseconds in floating point, and counters do not wrap at 2^32. Clock readings are positive and do not decrease.
- JsdLock.Safety: memory is sequentially consistent, thread attachment is left out, count does not overflow, and the release build's behaviour of unlocking a lock one does not own is modelled, where a debug build asserts.
- BloomFilter: the overloads on objects only compute the hash and are left out.
- CheckedInt.CheckedVariable.Step: prefix and postfix forms are one method whose result is the old value.
- CheckedInt: `char`, `long` and the other supported types are covered through their size and signedness.
- XPCOM and JSAPI glue of the debugger, platform headers, and smaller containers (LinkedList.h, EnumSet.h, RangedPtr.h, Scoped.h, RefPtr.h, WeakPtr.h, jsd_text.cpp) are left out: they forward to engine code or would only add easy members.
