# HM4 in Dafny

HM4 is a log-structured key/value store. Writes go to a memtable in memory; a full memtable is saved to an
immutable disk table by a background thread while a second memtable takes over; reads combine the memtables and
the tables, and the newest pair of a key wins. This project models the algorithms that carry the system and proves
what they promise:

- the three ordered memtables: the AVL tree with parent links (`avl*.dfy`), the skip list (`skiplist.dfy`) and the
  unrolled skip list (`unrolled.dfy`, over the blocks of `blocks.dfy`; both skip lists share the lanes of
  `lanes.dfy`), all three against one map (`pairs.dfy`), and whole runs of them (`runs.dfy`);
- the key comparisons that make them fast: common prefixes skipped on the way down the tree (`lcp.dfy`) and the
  eight byte key prefix (`hpair.dfy`);
- the unsorted memtable with its radix quicksort and removal of duplicates (`radixsort.dfy`);
- the concurrent flush as an interleaving of two threads, and the newest-wins read (`flush.dfy`), and what becomes of
  the requests submitted to it (`flushhistory.dfy`);
- Morton codes and the search for the next code inside a query box (`bits.dfy`, `words.dfy`, `morton.dfy`,
  `bigmin.dfy`, `ladder.dfy`);
- tiered slab memory and the I/O buffer on it (`memory.dfy`, `iobuffer.dfy`);
- the sketches: cuckoo filter, Misra-Gries, heavy hitters and t-digest (`cuckoo.dfy`, `misragries.dfy`,
  `heavyhitter.dfy`, `tdigest.dfy`);
- geohash cells and neighbours (`geohash.dfy`).

Code that changes objects in place is modelled by classes and methods with the same fields and the same order of
writes; ghost fields hold the tree, the lanes or the history that the pointers stand for. `dafny verify
dfyconfig.toml` checks the whole project.

What the environment decides is a parameter: the clock and the answers of the allocator (`Env`), the height of a
new skip list node, the hash functions and slot choices of the cuckoo filter, the interleaving of the two threads
and the order of disk tables with equal newest times. Bytes are 0 to 255 and keys compare as unsigned byte strings;
integers are unbounded except where the width matters: the saturating 64-bit counters of Misra-Gries, the signed
64-bit scores of the heavy hitters, the 64-bit words of the Morton ladders, the 32-bit shift in loadBits, the
truncated creation time of a cloned pair, and plain char read as signed.

## Model

| member | source | states |
|---|---|---|
| `Pairs.InsertRule` | hm4/ilist.h:161-174 | the rule every memtable follows: each answer has its exact condition on the request, the stored pair and the allocator; an accepted request is in the map with its key, value, expiry and stamp, a tombstone as an empty pair or, in place, as a mark on the old value; nothing else changes |
| `Pairs.TombstoneRule` | hm4/pair.h:467-473 | what an accepted request leaves counts as a tombstone exactly when it is one, or stores nothing, or uses the mark as expiry |
| `Pairs.EraseRule` | hm4/avllist.cc:245-262 | the answer says whether the key was there; afterwards it is not, and no other key is touched |
| `Pairs.LowerBoundStored` | hm4/ilist.h:376-378 | in a sorted sequence a key is stored at its lower bound or nowhere, and the map has the pair found there |
| `LcpCompare.WordsFindFirstByte` | include/cmplcp.h:30-41 | comparing two equally long strings as little-endian words: the exclusive or is zero exactly for equal strings, and its trailing zeros divided by eight give the length of the common prefix |
| `LcpCompare.CmpLong` | include/cmplcp.h:42-68 | the word loop and the byte loop behind it return the sign of the first differing byte, read unsigned, and its position |
| `LcpCompare.CmpMain` | include/cmplcp.h:131-180 | the unrolled comparison gives the same answer for every size up to 32, and by the long loop beyond |
| `LcpCompare.CmpLCP` | include/cmplcp.h:188-205 | the three-way comparison of two keys and the length of their common prefix, for every pair of non-empty keys |
| `LcpCompare.PairLCPCompare.Compare` | hm4/avllist.cc:108-134 | when the two remembered lengths are what the key shares with its neighbours on the path, comparing only behind the smaller one gives the sign of the full comparison, and the new lengths are right for the node just passed |
| `AvlList.AVLList.RotateL` | hm4/avllist.cc:619-639 | the pointer writes of a left rotation turn the focus of the tree into the rotated one: parent links, root and all other nodes consistent, same pairs in the same order |
| `AvlList.AVLList.RotateR` | hm4/avllist.cc:642-662 | the mirror image |
| `AvlList.AVLList.FixParentAndChildren` | hm4/avllist.cc:800-827 | the parent, or the root, and both children of a node point to it again; no other link changes |
| `AvlList.AVLList.RebalanceAfterInsert` | hm4/avllist.cc:830-896 | from a tree that is balanced but for a subtree grown by one, the upward loop ends in a valid tree with the same pairs, every stored balance the difference of the heights |
| `AvlList.AVLList.RebalanceAfterErase` | hm4/avllist.cc:899-987 | the same for a subtree that has shrunk by one, all the way up if needed |
| `AvlBalance.LiftedGood` | hm4/avllist.cc:841-889 | which rotation the code picks for a node of balance two: the result is balanced in each of the cases, and its height is one less, or the same when the heavy child was even |
| `AvlBalance.GrownUp` | hm4/avllist.cc:834-860 | one step of the insertion loop: a grown child makes its parent even and the loop ends, or lean and grown in turn, or it is lifted |
| `AvlBalance.ShrunkUp` | hm4/avllist.cc:905-930 | one step of the erasure loop: a shrunk child makes its parent lean and the loop ends, or even and shrunk in turn |
| `AvlList.AVLList.Locate` | hm4/avllist.cc:546-572 | the search visits the node with the key if there is one and otherwise ends where it would hang; the comparison shortcut for an empty suffix is never taken for a stored key that differs |
| `AvlList.AVLList.GetPair` | hm4/avllist.cc:546-572 | the stored pair of the key, or none, as in the map |
| `AvlList.AVLList.InsertF` | hm4/avllist.cc:397-495 | from every valid tree insertion gives a valid tree, and status and map are those of the specification; without memory nothing changes; count and bytes stay exact |
| `AvlList.AVLList.InsertExisting` | hm4/avllist.cc:460-491 | for a stored key: skipped when older, updated in its own memory, replaced by a node that takes over all links, or refused for want of memory, each with the map of the specification |
| `AvlList.AVLList.CopyLinks` | hm4/avllist.cc:776-797 | a fresh node stands in every link where the old one stood |
| `AvlList.AVLList.Erase` | hm4/avllist.cc:245-366 | from every valid tree erasure (leaf, one child, two children by swapping with an adjacent or distant successor) gives a valid tree whose map is the old one without the key |
| `AvlSwap.SwapNormalExact` | hm4/avllist.cc:744-759 | swapLinksNormal_ exchanges the places of two unrelated nodes exactly when they are not siblings given right one first |
| `AvlSwap.SwapRelativeIs` | hm4/avllist.cc:701-741 | swapLinksRelative_ exchanges the places of a node and its child |
| `AvlList.AVLList.SwapLinks` | hm4/avllist.cc:762-773 | the two nodes have changed places in a consistent set of links |
| `AvlErase.SuccessorApart` | hm4/avllist.cc:264-282 | a node and its successor are never siblings given in the wrong order, so the swap is exact |
| `AvlErase.CutAfterSwap` | hm4/avllist.cc:284-330 | after the swap the node to erase has at most one child, and without it the order of all other pairs is as before |
| `AvlIterator.Find` | hm4/avllist.cc:500-541 | the iterator stands at the lower bound of the key, or at the end when every key is below |
| `AvlIterator.SuccessorNode` | hm4/avllist.cc:195-214 | the next node in key order, or none after the last |
| `AvlIterator.PredecessorNode` | hm4/avllist.cc:160-180 | the previous node in key order, or none before the first |
| `AvlIterator.ReadFrom` | hm4/avllist.cc:1072-1079 | repeated ++ from any position yields exactly the rest of the contents, in order |
| `AvlIterator.HeightOf` | hm4/avllist.cc:218-233 | following the heavier side counts the true height h, and a valid tree of height h has at least Fib(h+2)-1 pairs |
| `AvlIterator.AvlSize` | hm4/avllist.cc:1009-1038 | every balanced tree of height h has at least Fib(h+2)-1 nodes |
| `AvlTeardown.DeallocateTree` | hm4/avllist.cc:583-612 | the threading loop ends on every tree and frees each node once, in key order, without following a link of a freed node |
| `AvlTeardown.NodeSeqExact` | hm4/avllist.cc:583-612 | the nodes of the tree in key order: each of them, and none twice |
| `AvlTeardown.Clear` | hm4/avllist.h:133-139 | after clear the list is empty and valid, and exactly the nodes of the tree have been freed, in key order |
| `Runs.RunAvl` | hm4/avllist.cc:245-495 | after any run of insertions and erasures the tree is valid and its map is the one the specification computes |
| `Runs.RunSkip` | hm4/skiplist.cc:194-339 | the same for a skip list, whatever heights the run draws, if the prefix comparison is right about every two keys of the run |
| `Runs.RunUnrolled` | hm4/unrolledskiplist.cc:246-413 | the same for an unrolled skip list of any capacity from two, also when node allocations fail: the map is that of the operations carried out, and only insertions for which no node could be allocated were not |
| `Runs.KnownNext` | hm4/hpair.h:18-26 | whatever part of such a run has been carried out, the comparison is right about all stored keys and the next one |
| `HPair.CompareIsSign` | include/mystring.h:17-36 | compare is the order of the keys exactly when the first bytes agree on being below 128 |
| `HPair.PackCompare` | include/stringhash.h:29-47 | the eight byte prefixes as numbers compare as the zero-padded bytes do, at the first place where they differ |
| `HPair.CmpIsSignExactly` | hm4/hpair.h:18-26 | for all keys: the prefix comparison agrees with the order of the full keys exactly when keys with one prefix can be told apart (short ones are the same key, long ones do not part right behind the prefix with bytes on both sides of 128); a smaller prefix always means a smaller key |
| `HPair.PlainTellable` | hm4/hpair.h:18-26 | so it always agrees for keys without NUL and without bytes above 127 |
| `HPair.PrefixNeedsNoNul` | include/stringhash.h:50-56 | the keys a and a NUL are reported equal |
| `HPair.SuffixNeedsAscii` | include/mystring.h:25-26 | behind eight shared bytes the byte 200 is reported below the byte 100 |
| `SkipLanes.FollowInserted` | hm4/skiplist.cc:268-271 | what a new node changes in the lanes: in the lanes it reaches, the last table before it leads to it and it leads to what that table led to; every other link stays |
| `SkipLanes.Lanes.Attach` | hm4/skiplist.cc:262-285 | exchanging the pointers of the located tables links a node of any height into each of its lanes and no other; every lane still joins exactly the nodes that reach it, in order, so each is a sublist of the lane below |
| `SkipLanes.Lanes.Detach` | hm4/skiplist.cc:303-332 | the unlinking loop takes the node out of every lane that has it and stops at the first that does not |
| `SkipList.SkipList.Walk` | hm4/skiplist.cc:398-421 | one lane of the search stops at the last node before the key, whether or not the prefix test spares the full comparison |
| `SkipList.SkipList.Locate` | hm4/skiplist.cc:383-425 | the node with the key, if any, and for every lane the last table before it |
| `SkipList.SkipList.Find` | hm4/skiplist.cc:429-465 | the lower bound of the key, or with exact match the key alone |
| `SkipList.SkipList.GetPair` | hm4/skiplist.cc:473-478 | the stored pair of the key, or none |
| `SkipList.SkipList.InsertF` | hm4/skiplist.cc:194-290 | for every height: lanes linked, lane 0 strictly sorted, counters exact, and status and map those of the specification; like every operation of the skip lists, for any stored keys about which and the given one the prefix comparison is right |
| `SkipList.SkipList.Erase` | hm4/skiplist.cc:293-339 | the same with the map of the specification of erasure |
| `Blocks.BinarySearch` | include/binarysearch.h.cc:60-112 | for every minimum distance the halving loop with its linear tail finds the lower bound, and reports the key exactly when it is there |
| `Blocks.BlockInsert` | hm4/pairvector.h:283-338 | insertF of one block: found or placed at its lower bound, with the counter changes of the list |
| `Blocks.BlockErase` | hm4/pairvector.h:341-357 | erase___ of one block |
| `Blocks.BlockInsertedWhole` | hm4/pairvector.h:283-338 | inserting into the block where a key belongs is inserting into the concatenation of all blocks |
| `Blocks.BlockErasedWhole` | hm4/pairvector.h:341-357 | erasing from it is erasing from the concatenation |
| `Blocks.HomeHalves` | hm4/unrolledskiplist.cc:342-350 | after a block is cut in two, the last key of the front part tells in which part the key belongs |
| `Blocks.BlockAround` | hm4/unrolledskiplist.cc:456-505 | the first block whose last key is not below the key, or the last block of all, is where the key belongs |
| `UnrolledSkipList.UnrolledSkipList.Locate` | hm4/unrolledskiplist.cc:456-505 | the node for the key (including the last node, taken without a comparison at the bottom lane, and none when the way down has passed it) and for every lane the last table before that node |
| `UnrolledSkipList.UnrolledSkipList.Find` | hm4/unrolledskiplist.cc:510-555 | an iterator to the lower bound of the key in the whole contents; the place found is always inside the node |
| `UnrolledSkipList.UnrolledSkipList.GetPair` | hm4/unrolledskiplist.cc:563-567 | the stored pair of the key, or none |
| `UnrolledSkipList.UnrolledSkipList.Split` | hm4/unrolledskiplist.cc:314-337 | the full node: a new node linked in front takes the merged data and is cut in two; contents, order and lanes stay, both halves are non-empty and have room |
| `UnrolledSkipList.UnrolledSkipList.InsertF` | hm4/unrolledskiplist.cc:246-357 | for every height: blocks non-empty and within capacity, concatenation strictly sorted, lanes linked, counters exact, and status and map those of the specification; when a node cannot be allocated the call may also fail, with the map unchanged |
| `UnrolledSkipList.UnrolledSkipList.Erase` | hm4/unrolledskiplist.cc:360-413 | the same for erasure; a node that loses its last pair leaves all lanes |
| `UnrolledSkipList.UnrolledSkipList.ReadAll` | hm4/unrolledskiplist.cc:575-591 | repeated ++ from the beginning yields the contents |
| `Morton.MortonMonotone` | common/mortoncurve.h:161-217 | for any number of dimensions and bits: coordinate-wise order implies the order of the codes |
| `Morton.LoadBitsAt` | common/mortoncurve.cc:19-36 | loadBits overwrites exactly the bits of one coordinate at and below a position |
| `BigMin.SplitPoints` | common/mortoncurve.cc:63-80 | splitting a box at the first bit where its corners differ: every point of it lies in one of the two boxes that the overwritten corners give |
| `BigMin.ComputeBigMin` | common/mortoncurve.cc:38-91 | for any dimensions and width, any box and any current code: the loop runs into the undefined shift exactly when the current code and both corners agree down to a top bit of a 32-bit coordinate in which the corners differ; otherwise it returns the least code above the current one in the box, or zero when there is none; it never takes the branch called not possible |
| `BigMin.ShiftReachedAt` | common/mortoncurve.cc:32 | the shift is reached at the first bit for the box of all points in two dimensions of 32 bits, from code zero |
| `Ladder.RoundTrip2D32` | common/mortoncurve.h:161-181 | fromMorton2D32 undoes toMorton2D32 |
| `Ladder.FromMorton2D32` | common/mortoncurve.h:172-181 | and toMorton2D32 undoes it on every code |
| `Ladder.Ladder2D32` | common/mortoncurve.h:15-25 | the mask ladder puts bit i at 2i and nothing else |
| `Ladder.Code2D32` | common/mortoncurve.h:161-170 | the code of two 32-bit numbers has those numbers as its coordinates |
| `Ladder.Monotone2D32` | common/mortoncurve.h:161-170 | ordered coordinates make a box for the search and ordered codes |
| `Ladder.RoundTrip8D8` | common/mortoncurve.h:183-217 | fromMorton8D8 undoes toMorton8D8 |
| `Ladder.FromMorton8D8` | common/mortoncurve.h:201-217 | and toMorton8D8 undoes it on every code |
| `Ladder.Ladder8D8` | common/mortoncurve.h:39-49 | the ladder with its irregular masks puts bit i at 8i and nothing else |
| `Ladder.Code8D8` | common/mortoncurve.h:183-199 | the code of eight bytes has those bytes as its coordinates |
| `Ladder.Monotone8D8` | common/mortoncurve.h:183-199 | ordered coordinates make a box for the search and ordered codes |
| `FlushProtocol.InvStep` | hm4/concurrentflushlist.h:79-110 | every step of the main thread and of the saver keeps the invariant that ties the two memtables, the saver, the disk tables and the loader together |
| `FlushProtocol.SavedListUntouched` | hm4/concurrentflushlist.h:89-107 | in every reachable state no step changes the memtable being saved, and the finished table is what it held when the flush began |
| `FlushProtocol.NothingLost` | hm4/concurrentflushlist.h:79-110 | at every moment of every interleaving the last accepted write of a key is in list1, list2 or a finished table, and whenever a reader can run in list1, list2 or a loaded table |
| `FlushProtocol.CloneMeetsEmptyList` | hm4/flushlistbase.h:76-97 | the pair that triggered a flush always meets an empty memtable: it is stored as it is, and the truncated time of the clone is never compared |
| `FlushProtocol.ClosedIsDurable` | hm4/concurrentflushlist.h:48-54 | after the destructor every accepted write is on disk |
| `FlushProtocol.ReadDisksNewest` | hm4/disk/disklist.cc:600-614 | skipping a table whose newest pair is older than the best so far never changes what is found |
| `FlushProtocol.GetPair` | hm4/multi/collectionlist.h:61-77 | the loop over list1, list2 and the loaded tables computes the newest-wins read |
| `FlushProtocol.ReadNewest` | hm4/ilist.h:380-396 | a read finds a copy of the key that no other copy beats in time, whatever the order of the tables |
| `FlushProtocol.ReadsLastWrite` | hm4/ilist.h:380-396 | over every run whose creation times never decrease, a read has the time of the last accepted write, is that write while a memtable holds the key, and always is it when the times of a key increase |
| `FlushProtocol.ReadsLastExactly` | hm4/listloader/baselistloader.h:101-128 | over every run whose creation times never decrease, the read is the last accepted write exactly when a memtable holds the key or the loader lists that write before every other of the same time |
| `FlushProtocol.TieLosesWrite` | hm4/listloader/baselistloader.h:112-118 | a run in which two writes of one key with one creation time are flushed and the earlier one is read |
| `FlushHistory.StoryTrue` | hm4/flushlistbase.h:76-97 | over every run the last accepted write of each key holds the value, the expiry and the stamp of the last accepted request, as it was submitted; a request that has to wait for a flush still waits or has been answered, and none waits between two calls |
| `FlushHistory.ReadsRequest` | hm4/ilist.h:380-396 | so on ordered runs a read has the stamp of the last accepted request, and is what was asked for under the conditions of ReadsLastWrite; it is nothing for a key that was never written or was erased since |
| `FlushHistory.FlushEffect` | hm4/concurrentflushlist.h:79-110 | a flush, however the saver interleaves with it: the lists change places, list2 is what list1 was, list1 is empty, the version moves by one, and readers see the table that the old list2 was saved to |
| `FlushHistory.FlushStores` | hm4/flushlistbase.h:76-97 | the same for an insertion that flushes first: when the call is over its pair, as submitted, is alone in list1 and is the last accepted write, or there was no memory for it and nothing was stored |
| `FlushHistory.EmptyStores` | hm4/concurrentflushlist.h:79-85 | with an empty list1 the pair is stored without a flush |
| `FlushHistory.ReadsFlushed` | hm4/flushlistbase.h:76-97 | on ordered runs a read after such a call returns the pair that triggered the flush, as submitted |
| `FlushHistory.EraseChoice` | hm4/multi/duallist.h:162-183 | a key is erased at once exactly while list2 is empty, and then no copy of it is left anywhere and no other key is touched; otherwise by a mark or a tombstone, one of which is always possible |
| `FlushHistory.CallEnds` | hm4/concurrentflushlist.h:79-110 | from every state inside a flush some steps of the two threads end the call: nothing blocks for good |
| `FlushHistory.SaverEnds` | hm4/concurrentflushlist.h:48-54 | and after closing the saver can finish |
| `RadixSort.DigitDecides` | include/threewayquicksort.h:285-287 | for keys with a shared prefix the characters at a digit order them exactly when the bytes lie on one side of 128 (and below it where one key ends or both go on alike) |
| `RadixSort.AsciiAllTell` | include/threewayquicksort.h:285-287 | ASCII keys meet that condition, whatever they share |
| `RadixSort.MedianIsMiddle` | include/threewayquicksort.h:133-176 | median picks a character with two of the three not above and two not below it |
| `RadixSort.UnsortedList.Super3Sort` | include/threewayquicksort.h:69-83 | three exchanges sort three pairs |
| `RadixSort.UnsortedList.InsertionSort` | include/threewayquicksort.h:88-92 | a sorted permutation of the range, for any keys with the shared prefix |
| `RadixSort.UnsortedList.ShellSort` | include/threewayquicksort.h:97-110 | a sorted permutation, by whatever gaps lead to one |
| `RadixSort.UnsortedList.Partition` | include/threewayquicksort.h:204-225 | smaller, equal and larger characters in three adjacent parts, the same pairs, the middle part not empty |
| `RadixSort.UnsortedList.Sort` | include/threewayquicksort.h:179-282 | with recursion on the two smaller parts, each at most half of the range, the tail loop on the largest and the depth cut-off: terminates and yields a permutation of the range for any keys, nothing outside touched, and a key-sorted one when every two keys meet the condition of DigitDecides wherever they share a prefix |
| `RadixSort.UnsortedList.SpecialUnique` | hm4/unsortedlist.h:21-35 | of any vector, every key keeps a pair with the greatest creation time of that key, and of a key-sorted one exactly one pair per key remains |
| `RadixSort.UnsortedList.PrepareFlush` | hm4/unsortedlist.h:68-115 | the whole: for any keys each keeps a pair that is as new as every other of it, and when every two keys meet the condition of DigitDecides the result is strictly sorted, one pair for each key |
| `RadixSort.UnsortedList.InsertF` | hm4/unsortedlist.h:233-255 | appends the new pair and asks for sorting |
| `RadixSort.WrongSide` | include/threewayquicksort.h:204-225 | seven keys that the first partition separates in the wrong order |
| `Cuckoo.InvolutionIffPowerOfTwo` | include/cuckoofilter.h:26-32 | every bucket is the partner of its partner, for every fingerprint hash, exactly for the sizes that are powers of two |
| `Cuckoo.CuckooFilter.Lookup` | include/cuckoofilter.h:175-191 | whether the fingerprint is in one of its two buckets |
| `Cuckoo.CuckooFilter.Kick` | include/cuckoofilter.h:131-139 | an eviction keeps every fingerprint present, or in hand on the way to its other bucket |
| `Cuckoo.CuckooFilter.Rollback` | include/cuckoofilter.h:145-149 | undoing the log backwards restores every slot to its first logged value |
| `Cuckoo.CuckooFilter.Insert` | include/cuckoofilter.h:112-151 | for any size: it fails exactly when neither bucket has space or the fingerprint and each of the evictions leads to a full bucket, and then leaves the table as it was; on success there is one more copy of the fingerprint, or the same number where it is met before an empty slot, and as many of every other; for a power of two no key that was found is lost and the inserted one is found |
| `Cuckoo.CuckooFilter.InsertAll` | include/cuckoofilter.h:112-151 | after any run of insertions no fingerprint has more new copies than insertions that succeeded for it, none has fewer, and for a power of two whatever was reported inserted is found |
| `Cuckoo.CuckooFilter.FillEmpty` | include/cuckoofilter.h:112-191 | what a filter finds that was filled from empty has the fingerprint of a key whose insertion succeeded |
| `Cuckoo.LostKey` | include/cuckoofilter.h:112-151 | with three buckets: three reported insertions, after which the first key is not found |
| `Memory.FindTier` | mymemorymanager/tieredmemorymanager.h:307-315 | the first tier that is large enough, if any |
| `Memory.TierSizes` | mymemorymanager/tieredmemorymanager.h:20-32 | the first tier has 16 KB, each next one four times as much, the last 64 KB more than that |
| `Memory.SlabAllocator.constructor` | myallocator/slaballocator.h:98-112 | a free list through all blocks, each once |
| `Memory.SlabAllocator.XAllocate` | myallocator/slaballocator.h:43-52 | takes the first block of the free list, or none |
| `Memory.SlabAllocator.XDeallocate` | myallocator/slaballocator.h:54-60 | puts the block in front; the link overwrites its first bytes |
| `Memory.SlabAllocator.GetFreeBlocks` | myallocator/slaballocator.h:62-69 | the length of the free list |
| `Memory.TieredMemoryManager.Allocate` | mymemorymanager/tieredmemorymanager.h:154-186 | succeeds exactly when the context has room or some large enough tier has a free block; with room the block stays; otherwise the block comes from the smallest tier that is large enough and has one, the free lists change only by it and by the block given back, and the bytes move along; a failure changes nothing; always, each block is on its free list once or held by exactly one context whose capacity names its tier |
| `Memory.TieredMemoryManager.Deallocate` | mymemorymanager/tieredmemorymanager.h:188-196 | the block is in front of the free list of its tier, the context empty, all others keep their bytes |
| `Memory.TieredMemoryManager.SwapContexts` | mymemorymanager/tieredmemorymanager.h:115-121 | two contexts exchange their blocks, the accounting stays |
| `IoBuffer.IOBuffer.Resize` | net/ambuffer.h:66-74 | grows or shrinks the window, keeps what stays in it, fails only for want of a block |
| `IoBuffer.IOBuffer.Push` | net/ambuffer.h:87-108 | appends the bytes to the queue, or changes nothing; says exactly when |
| `IoBuffer.IOBuffer.Pop` | net/iobuffer.h:170-188 | removes bytes from the front exactly when that many wait; the last byte gives the block back to its free list, and before that the block stays |
| `IoBuffer.IOBuffer.ProvideBuffer` | net/iobuffer.h:117-126 | room behind the waiting bytes, which stay in front |
| `IoBuffer.IOBuffer.ProvideBufferAtLeast` | net/iobuffer.h:129-151 | at least the room asked for, and all that the block has |
| `IoBuffer.IOBuffer.FinalizeBuffer` | net/iobuffer.h:157-166 | cuts the queue behind the bytes that were filled |
| `IoBuffer.IOBuffer.Receive` | net/iobuffer.h:129-166 | provide, fill and finalize together append exactly the bytes received |
| `IoBuffer.IOBuffer.Swap` | net/iobuffer.h:41-46 | two buffers exchange their queues |
| `GeoHash.AdjacentMoves` | common/geohash.cc:124-153 | reading a hash as row and column, adjacent adds or subtracts one on exactly one of them, around the grid, at every length |
| `GeoHash.AdjacentInverse` | common/geohash.cc:124-153 | north undoes south and east undoes west |
| `GeoHash.AdjacentCalc` | common/geohash.cc:124-153 | the recursion that rewrites the buffer computes that neighbour and leaves the rest of the buffer |
| `GeoHash.CellInjective` | common/geohash.cc:72-112 | row, column and length determine the hash |
| `GeoHash.CellPlace` | common/geohash.cc:72-112 | the box of a hash is the cell of its row and column in the grid of degrees |
| `GeoHash.NeighboursTouch` | common/geohash.cc:124-153 | in each of the four directions a neighbour shares an edge with the cell, or the cell ends at a pole or at the date line and the neighbour begins at the opposite end of the map |
| `GeoHash.Encode` | common/geohash.cc:18-70 | the point belongs to the cell of the hash, on a border to the northern and eastern one, and the cell contains it exactly when the point lies in the world |
| `GeoHash.OwnerUnique` | common/geohash.cc:18-112 | of all hashes of one length only one has a cell to which the point belongs, so encode gives back the hash for every point of its cell |
| `GeoHash.Decode` | common/geohash.cc:72-112 | the box of a valid hash, an error for any other string |
| `MisraGries.Add` | include/misragries.h:155-184 | one arrival: its counter goes up (up to the maximum), or the last free slot takes it, or every counter goes down |
| `MisraGries.StepKeeps` | include/misragries.h:155-184 | an arrival keeps the accounts: counters plus (k+1) times the rounds of charging make the length of the stream, and no count is missed by more than the rounds |
| `MisraGries.AddAll` | include/misragries.h:155-184 | after any stream of n items into k counters each score is at most the true count and misses at most n/(k+1) of it, and live counters name different items |
| `HeavyHitter.Add` | include/heavyhitter.h:160-201 | one arrival: a better score for a held item, a free slot, the weakest slot if it is beaten, or nothing |
| `HeavyHitter.StepKeeps` | include/heavyhitter.h:160-201 | an arrival keeps what Top says, for both directions of comparison |
| `HeavyHitter.AddAll` | include/heavyhitter.h:160-201 | after any stream each held score is the best ever submitted for its item, held items differ, and an item is not held only when every slot is taken and none of its scores beats any of them |
| `TDigest.CompressedKeeps` | common/tdigest.cc:87-118 | compression keeps the order, the bounds, the weight and the weighted sum |
| `TDigest.CompressedGroups` | common/tdigest.cc:87-118 | compression cuts the centroids into consecutive groups and pools each by adding the weights and weighting the means; inside a group each next centroid passes the test against those pooled before it, and a group ends exactly where the next one fails |
| `TDigest.ShrinksIffSomeClose` | common/tdigest.cc:87-118 | it frees a slot exactly when two neighbours pass the test as they are |
| `TDigest.CompressCentroids` | common/tdigest.cc:87-118 | the loop that writes over its own input computes that compression, with those groups |
| `TDigest.RawTDigest.CompressAggressive` | common/tdigest.cc:128-138 | frees a slot exactly when no neighbours are within delta, or two pass the weighted test |
| `TDigest.RawTDigest.Add` | common/tdigest.cc:254-288 | the value is taken exactly when there is room or compression makes some; centroids stay sorted, weight and weighted sum are those of all accepted values, and the extremes are the least and the greatest of all submitted ones |
| `TDigest.RawTDigest.Merge` | common/tdigest.cc:305-313 | adding the centroids of another digest in order keeps all that: what is accepted is a subsequence of them, and all of them while there are slots for all |
| `TDigest.RawTDigest.Compress` | common/tdigest.cc:328-331 | compressing on demand keeps that and pools the groups of the weighted test |
| `TDigest.RawTDigest.Mean` | common/tdigest.cc:439-452 | exactly the weighted mean of the accepted values |
| `TDigest.RawTDigest.Percentile` | common/tdigest.cc:346-370 | for a share between zero and one the mean of the centroid with which the weights added up reach that share of the whole weight, and not before; at zero and one the least and the greatest submitted value |
| `TDigest.PercentileMonotone` | common/tdigest.cc:346-370 | a larger share never gives a smaller value, and all values lie between the extremes |
| `TDigest.AggressiveMayDrop` | common/tdigest.cc:128-138 | a full digest on which the aggressive mode makes no room |

## Findings

Where the code does not do what one would expect of it, the model keeps the code and states the exact condition.

- swapLinksNormal_ (hm4/avllist.cc:744-759) leaves broken links for two siblings given right one first;
  `AvlSwap.SwapNormalExact` says that this is the only case, and `AvlErase.SuccessorApart` that erasure never
  produces it.
- Two writes of a key with the same creation time, each flushed, can be read in the wrong order, because the loader
  leaves the order of tables with equal newest times open (hm4/listloader/baselistloader.h:112-118):
  `FlushProtocol.TieLosesWrite` is such a run, `FlushProtocol.ReadsLastExactly` the exact condition for reading the
  last write.
- compressAggressive (common/tdigest.cc:128-138) can leave a full digest full although the comment at line 285 calls
  that unreachable: `TDigest.AggressiveMayDrop` and the exact condition in `TDigest.RawTDigest.Add`.
- The eight byte prefix (hm4/hpair.h:18-26) takes keys that differ only in trailing NULs for one key, and compare
  (include/mystring.h:25-26) reads the first byte behind the prefix as a signed char: `HPair.PrefixNeedsNoNul`,
  `HPair.SuffixNeedsAscii` and the exact condition `HPair.CmpIsSignExactly`. The skip lists are therefore stated for
  any keys that meet this condition with the key of the call, in particular (`HPair.PlainTellable`) for keys without
  NUL and without bytes above 127; the AVL memtable is stated for all keys.
- charAt of the radix quicksort (include/threewayquicksort.h:285-287) reads bytes as signed too and cannot tell 255
  from the end of a key: `RadixSort.WrongSide` shows seven keys that the first partition separates in the
  wrong order, `RadixSort.DigitDecides` the exact condition for one digit. The sort keeps the pairs of any keys, and
  orders keys of which every two meet that condition wherever they share a prefix, ASCII keys in particular.
- The partner bucket of the cuckoo filter (include/cuckoofilter.h:26-32) is mutual only for sizes that are powers of
  two: `Cuckoo.InvolutionIffPowerOfTwo`, and `Cuckoo.LostKey` for what happens with three buckets.
- loadBits (common/mortoncurve.cc:32) shifts a 32-bit one by 32 at the top bit of 32-bit coordinates, which is
  undefined: `BigMin.ShiftReachedAt` is an input that gets there, and `BigMin.ComputeBigMin` the exact condition,
  together with the right answer on all other inputs.

## Left out

- RadixSort.UnsortedList.Sort: the order in which keys end up that do not meet the condition of DigitDecides; it
  depends on the pivots and on which ranges are small.
- UnrolledSkipList.UnrolledSkipList.InsertF: when the node allocation fails, the contract also allows the call to
  fail where the map alone would have had room, as the code does when a full node holds the key.
- The restructuring that UnrolledSkipList.UnrolledSkipList.InsertF leaves behind when a node could be allocated and
  the pair could not is covered only as far as contents, order and links go.
- The packed balance bits in the parent pointer of the AVL node, prefetch hints and the unrolled copy of the first
  lane in the erase loops: parent and balance are separate fields, the loops are written as loops.
- The factories Expires and IFactory, and Clone outside of the flush path: they differ from Normal only in how the
  fields of the pair are filled.
- Allocators as such, except for the slabs: an allocation is an answer of the environment; overflow of size_t.
- PairVector::destruct resets a resetting allocator (hm4/pairvector.h:83-92), so an unrolled skip list over one would
  lose its pairs when a node is removed; the model has an allocator that does not reset.
- UnsortedList: the counters of the list, which prepareFlush does not adjust, and the memory of the pairs that
  special_unique drops.
- The disk format, the btree and hash index, binlog and replay, iteration over several lists at once; a disk table is
  the map it was built from with its greatest creation time. A table file that is still being written is not seen by
  the loader of the model.
- The prepareFlush call inside the saver thread, which sorts an unsorted memtable while readers may look at it.
- AMBuffer alone, and IOBuffer::swap with a bare AMBuffer, which leaves head_ where it was (net/iobuffer.h:37-39).
- The link in a free block shares memory with the first bytes of the block; in the model it is a field of its own and
  the bytes become arbitrary when the block is freed.
- CuckooFilter: remove, load and store; the byte order of stored fingerprints.
- Three and four dimensional and sixteen byte Morton ladders: their masks follow the same scheme as the two modelled,
  while the box search is proved for any number of dimensions.
- The trimmed mean of the t-digest, and rounding in t-digest and geohash, which are modelled over real numbers.
- Geohash distances and the choice of nearby cells, which rest on trigonometry.
- HyperLogLog, MinHash, vectors, reservoir sampling: probabilistic or floating point.
- The network server, its protocol, the command interpreter, selectors, logging and configuration.
- Link list, vector list, unrolled link list and plain containers: easier versions of what is modelled.
