# CMU 15-213 labs, modelled in Dafny

This project models the core code of four labs:

- **Malloc lab** (`mm.c`): an allocator with segregated free lists.
  - Eight buckets of "large" blocks (`dakuai`): a header and footer word, doubly linked through their payload. Each bucket is a circular list.
  - A ninth circular list of 16-byte "small" blocks (`xiaokuai`). A small block has no size field: bit 2 of its two link words marks it small.
  - The operations are best-fit search capped by `findThres`, splitting on allocation, boundary-tag coalescing on free, growth by `mem_sbrk`, realloc, calloc and the checks of `mm_checkheap`.
- **Cache lab**:
  - `csim.c`: a cache simulator. It reads a hexadecimal trace address, splits it into tag and set index, and updates one set of an E-way cache under LRU, counting hits, misses and evictions.
  - `trans.c`: the matrix transposes, blocked for 32×32, 64×64 and 63×65 and naive otherwise, and the `is_transpose` check.
- **Proxy lab** (`proxy.c`): the URL parser and the object cache. The cache is an LRU list with timestamps, bounded by `MAX_CACHE_SIZE`.
- **Data lab** (`bits.c`): the bit puzzles on 32-bit `int` and `unsigned`, including the three floating-point ones.

One module models each source file. The allocator is split over several modules, one per layer:

| module | what it covers |
|---|---|
| `MallocWords` | word encoding |
| `MallocLayout` | block tiling |
| `MallocLists` | circular lists |
| `MallocFreeList` | list insertion and removal |
| `MallocWindow`, `MallocSteps`, `MallocMerge` | rewriting a run of blocks, splitting and merging |
| `MallocFit`, `MallocSearch` | the best-fit scan |
| `Malloc` | the `Heap` class, whose methods are the functions of `mm.c` |

How the allocator heap is modelled:

- The heap is an `array<nat>` of 8-byte words. A block is the index of its header word, and its payload starts one word later. `NULL` is -1.
- Ghost fields carry the block sequence and the nine lists.
- `Inv` states three things:
  - the blocks tile the heap from the first block to the epilogue;
  - every free block is on exactly the list its size selects, and that list is a circular doubly linked ring through the link words;
  - the prev-allocated bits, the footers and the small markers agree with the blocks' states.
- Every public operation preserves `Inv` and states the block it returns or frees. `free`, `coalesce`, the placement step and the growth step also give the new block sequence; `malloc`, `realloc` and `calloc` do not. `AllocKept` states that every other allocated block stays in place with its size.

## Model

| member | source | states |
|---|---|---|
| Bits.BitOrIsOr | 1datalab/bits.c:1-3 | bitOr, built from ~ and &, is x \| y |
| Bits.SpecialBitsValue | 1datalab/bits.c:5-7 | specialBits is 0xFFCA3FFF, the complement of 0xD7 shifted left by 14 |
| Bits.IsZeroOk | 1datalab/bits.c:9-11 | isZero(x) is 1 exactly when x is 0, and 0 exactly when it is not |
| Bits.AnyEvenBitOk | 1datalab/bits.c:14-19 | anyEvenBit(x) is 1 iff some even-numbered bit of x is set |
| Bits.RotateLeftOk | 1datalab/bits.c:21-31 | rotateLeft(x, n) is (x << n) \| (x >> (32 - n)) for every n in 0..31 |
| Bits.BitReverseReverses | 1datalab/bits.c:33-47 | bit i of bitReverse(x) is bit 31 - i of x |
| Bits.BitReverseTwice | 1datalab/bits.c:33-47 | bitReverse is its own inverse |
| Bits.DivPwr2NonNeg | 1datalab/bits.c:56-62 | for x >= 0, divpwr2(x, n) is x >> n |
| Bits.DivPwr2Ok | 1datalab/bits.c:56-62 | divpwr2(x, n) is x / 2^n rounded toward zero: x >> n for x >= 0, -((-x) >> n) for x < 0 |
| Bits.Negate | 1datalab/bits.c:64-66 | negate(x) is -x in 32-bit two's complement |
| Bits.IsPower2Ok | 1datalab/bits.c:68-73 | isPower2(x) is 1 iff x is positive with a single bit set |
| Bits.IsLessOk | 1datalab/bits.c:75-81 | isLess(x, y) is 1 iff x < y as signed 32-bit integers, for all x and y, overflow included |
| Bits.LeastBitPosOk | 1datalab/bits.c:83-86 | leastBitPos(x) is 0 for 0; otherwise a single bit that is set in x with no set bit of x below it |
| Bits.FloatAbsOk | 1datalab/bits.c:88-95 | float_abs returns a NaN argument unchanged and otherwise clears the sign bit, keeping exponent and fraction |
| Bits.FloatI2F | 1datalab/bits.c:97-132 | float_i2f maps 0 to 0 and INT_MIN to 0xCF000000; otherwise the sign bit is x's sign and the exponent field is in 127..158 |
| Bits.HighestBit | 1datalab/bits.c:108-112 | the search loop stops at the highest set bit zgw of the magnitude, with che = 1 << zgw |
| Bits.FloatTimes64 | 1datalab/bits.c:134-158 | float_times64 keeps NaN and infinity; it saturates to a signed infinity when the exponent would reach 255; it adds 6 to a normal exponent and keeps sign and fraction; it shifts a small denormal's fraction left by 6; it renormalises a large denormal to exponent e in 1..6 with the same sign and a significand that, times 2^(e-1), equals the old fraction times 64 |
| CacheSim.ToDec | 4cachelab/csim.c:43-48 | toDec is -1 exactly for characters that are not hexadecimal digits, and below 16 otherwise |
| CacheSim.ToDecInvertsDigits | 4cachelab/csim.c:43-48 | toDec reads back every digit value, written in lower or upper case |
| CacheSim.HexRoundTrip | 4cachelab/csim.c:60-64 | reading back any unsigned long written in hexadecimal gives the value again |
| CacheSim.GetAddr | 4cachelab/csim.c:50-66 | getAddr cuts the string at its first comma (writing a NUL there) and returns the hexadecimal value, modulo 2^64, of the part before it |
| CacheSim.GetSetIdx | 4cachelab/csim.c:73-77 | the set index is below S = 2^s |
| CacheSim.FieldsOfAddress | 4cachelab/csim.c:68-77 | an address built from tag, set index and offset gives back that tag and that set index |
| CacheSim.AddressSplit | 4cachelab/csim.c:68-77 | every address is its tag, set index and block offset put back together |
| CacheSim.FirstHitOk | 4cachelab/csim.c:86-98 | the hit search finds the first valid line with the tag, or -1 iff there is none |
| CacheSim.LastInvalidOk | 4cachelab/csim.c:86-89 | emptyPos is the last invalid line of the set, or -1 iff every line is valid |
| CacheSim.LeastRecentOk | 4cachelab/csim.c:99-102 | argLeastRecent is the first valid line of least timeUsed below the bound, or -1 iff there is none |
| CacheSim.LookupHit | 4cachelab/csim.c:92-97 | on a hit only the hit line's timeUsed changes, to the new counter |
| CacheSim.LookupFill | 4cachelab/csim.c:108-114 | on a miss with an invalid line, the last invalid line receives the tag, and nothing is evicted |
| CacheSim.LookupEvict | 4cachelab/csim.c:115-124 | on a miss in a full set, the first least recently used line is replaced |
| CacheSim.LookupPreserves | 4cachelab/csim.c:79-126 | an update keeps tags unique within a set and every timeUsed at most the counter, and never invalidates a line; the lost update happens only in a set of no ways |
| CacheSim.GoodStep | 4cachelab/csim.c:79-126 | updating one set keeps the invariant of every set of the cache |
| CacheSim.Cache.constructor | 4cachelab/csim.c:31-41 | init: counters zero, every line invalid |
| CacheSim.Cache.Update | 4cachelab/csim.c:79-126 | update increments the counter, rewrites only the addressed set as the lookup decides, and counts one hit, or one miss and possibly one eviction |
| CacheSim.Cache.Scan | 4cachelab/csim.c:86-104 | the scan loop reports a hit iff the set holds the tag, and otherwise the last empty line and the least recently used line |
| Transpose.IsTranspose | 4cachelab/trans.c:346-358 | is_transpose returns true iff B is the transpose of A |
| Transpose.Trans | 4cachelab/trans.c:281-295 | trans writes the transpose of A into B |
| Transpose.TransTmp | 4cachelab/trans.c:304-321 | trans_tmp writes the transpose of A into B, touching only the first four doubles of tmp |
| Transpose.BlockTranspose32 | 4cachelab/trans.c:40-65 | the 8×8 block (I, J) of B receives the transpose; a diagonal block is staged through block (CI, CJ) of B, which then holds a copy of A's block; all else is unchanged |
| Transpose.BlockTranspose64 | 4cachelab/trans.c:68-133 | the 8×8 block (I, J) of B receives the transpose; the halves of the named cache blocks, or the first 256 doubles of tmp, are the only other things written |
| Transpose.Calls32Ok | 4cachelab/trans.c:159-179 | each of the sixteen calls covers a distinct block, and a diagonal block's cache block is one that a later call transposes |
| Transpose.Calls64Ok | 4cachelab/trans.c:180-249 | each of the sixty-four calls covers a distinct block, and each call's cache blocks are transposed by a later call |
| Transpose.Submit32 | 4cachelab/trans.c:159-179 | the sixteen calls together leave the transpose of a 32×32 A in B |
| Transpose.Submit64 | 4cachelab/trans.c:180-249 | the sixty-four calls together leave the transpose of a 64×64 A in B |
| Transpose.Tile | 4cachelab/trans.c:141-147 | one blockN × blockM tile of B receives the transpose, the rest is unchanged |
| Transpose.BlockTranspose6365 | 4cachelab/trans.c:135-150 | the tiled transpose leaves the transpose of A in B for any positive block sizes |
| Transpose.TransposeSubmit | 4cachelab/trans.c:152-262 | transpose_submit leaves the transpose of A in B for every size |
| Proxy.DecimalRoundTrip | 7proxylab/proxy.c:253 | the port value read back from its decimal digits is the port |
| Proxy.HostEndUnique | 7proxylab/proxy.c:214-220 | the host scan stops at the first ':' or '/', or at the end |
| Proxy.DigitRunUnique | 7proxylab/proxy.c:245-248 | the port scan stops at the first non-digit |
| Proxy.ParseNameable | 7proxylab/proxy.c:193-224 | a URL parses only when longer than seven characters, starting "http://", with a non-empty host |
| Proxy.ParseDefaultPort | 7proxylab/proxy.c:226-240 | "http://" + host + path parses to that host, that path and port 80 |
| Proxy.ParseWithPort | 7proxylab/proxy.c:241-260 | "http://" + host + ":" + port + path parses back to that host, port and path |
| Proxy.ParseURL | 7proxylab/proxy.c:185-262 | parseURL returns -1 and leaves hostName and path alone on a malformed URL; otherwise it returns the port and copies host and path out; the URL buffer changes only at index 7, and only on a wrong scheme |
| Proxy.CheckScheme | 7proxylab/proxy.c:199-208 | the scheme test is true iff the first seven characters are "http://"; on a mismatch the NUL written at index 7 stays |
| Proxy.OldestIndex | 7proxylab/proxy.c:110-120 | the victim has the least timestamp, and is the first entry with it |
| Proxy.OldestUnique | 7proxylab/proxy.c:110-120 | only one entry meets the victim's description |
| Proxy.SumRemoveAt | 7proxylab/proxy.c:124-135 | unlinking an entry lowers the total size by its size |
| Proxy.EvictFits | 7proxylab/proxy.c:164-166 | the eviction loop brings the total size within the limit |
| Proxy.EvictOldestFirst | 7proxylab/proxy.c:164-166 | every evicted entry is no newer than any entry kept |
| Proxy.ObjectCache.ReadCache | 7proxylab/proxy.c:46-74 | readCache finds the first entry with the same host, path and port, or reports that none has them |
| Proxy.ObjectCache.UpdateCache | 7proxylab/proxy.c:77-95 | a hit's timestamp becomes the current one, which is then the newest; a NULL call changes nothing |
| Proxy.ObjectCache.FindVictim | 7proxylab/proxy.c:110-120 | the search loop returns the oldest entry |
| Proxy.ObjectCache.DeleteLRU | 7proxylab/proxy.c:97-137 | deleteLRU unlinks the oldest entry and subtracts its size; it does nothing on an empty list |
| Proxy.ObjectCache.EvictFor | 7proxylab/proxy.c:164-166 | after the loop the cache leaves room for readLen bytes, having dropped the oldest entries first |
| Proxy.ObjectCache.AddToCache | 7proxylab/proxy.c:139-183 | addToCache ignores a NULL or oversized response; otherwise it evicts oldest-first and puts the new entry, newest, at the head |
| MallocWords.BlockSize | 6malloclab/mm.c:182-186 | getSize is a multiple of 16: 16 for a small block, the header's size field for a large one |
| MallocWords.TianHFFields | 6malloclab/mm.c:233-238 | tianHF writes the size rounded down to 16 and the allocated bit, keeps the prev-allocated bit, and clears the small bit |
| MallocWords.SetPrevWordFields | 6malloclab/mm.c:254-259 | setPrevMalloced sets the prev-allocated bit as asked and leaves the other fields alone |
| MallocWords.SetSmallWordFields | 6malloclab/mm.c:141-146 | setSmallBlock sets the small bit of a word and keeps its other flags and its link |
| MallocWords.IncFields | 6malloclab/mm.c:287-293 | setMalloced's +1 on a free small block's words sets the allocated bit and changes nothing else |
| MallocWords.DecFields | 6malloclab/mm.c:295-301 | setFree's -1 on an allocated small block's words clears the allocated bit and changes nothing else |
| MallocWords.LinkWord | 6malloclab/mm.c:273-285 | setNext and setPrev store the new target and keep the word's low flag bits |
| MallocWords.GetFreeListIndex | 6malloclab/mm.c:124-134 | the bucket index is one of the eight buckets |
| MallocWords.BucketRange | 6malloclab/mm.c:124-134 | size sz falls in bucket i iff it lies between that bucket's lower bound and the next one's |
| MallocWords.BucketMonotone | 6malloclab/mm.c:124-134 | larger sizes never fall in lower buckets |
| MallocWords.GetRoundSizeLeast | 6malloclab/mm.c:187-191 | getRoundSize gives the least multiple of 16 at or above its argument |
| MallocWords.AlignLeast | 6malloclab/mm.c:332-334 | align gives the least multiple of 16 at or above its argument |
| MallocWords.RoundSizeIsAlign | 6malloclab/mm.c:187-191 | getRoundSize and align agree everywhere |
| MallocWords.MallocSizeWraps | 6malloclab/mm.c:675 | as written, a request of 2^64 - 8 bytes rounds to a 0-byte block |
| MallocWords.MallocSize | 6malloclab/mm.c:675 | the block size for a request is the least multiple of 16 holding the request and its header |
| MallocWords.MallocSizeShape | 6malloclab/mm.c:675 | a block size is 16 (a small block) or a multiple of 16 of 32 or more, and it covers the request plus header |
| MallocWords.MallocSizeAgrees | 6malloclab/mm.c:675 | the computation as written agrees with the intended one whenever it cannot wrap |
| MallocWords.MallocSizeWrapRange | 6malloclab/mm.c:675 | for a request above 2^64 - 24 bytes, the intended block is at least 2^64 bytes while the size as written wraps to at most 16 bytes |
| MallocWords.Aligned | 6malloclab/mm.c:863-866 | aligned holds iff the address is a multiple of 16 |
| MallocWords.CallocOverflowTest | 6malloclab/mm.c:833-837 | for nmemb > 0 the test asize / nmemb != size holds iff nmemb × size overflows 64 bits |
| MallocWords.CallocZeroDivides | 6malloclab/mm.c:835 | as written, the overflow test divides by zero when nmemb is 0 |
| MallocWords.CallocOverflows | 6malloclab/mm.c:833-837 | the corrected test is true iff the product overflows, and agrees with the written one whenever nmemb > 0 |
| MallocLists.RingRemove | 6malloclab/mm.c:522-526 | relinking a removed member's neighbours leaves a ring of the remaining members |
| MallocLists.RingPrepend | 6malloclab/mm.c:543-547 | linking a block between the head and the tail makes a ring with it as the new head |
| MallocFreeList.DeletePreserves | 6malloclab/mm.c:511-527 | deletion from a list keeps the heap invariant, the block becoming free and unlisted |
| MallocFreeList.AddPreserves | 6malloclab/mm.c:530-549 | insertion of a free unlisted block at the head of its list keeps the heap invariant |
| MallocFit.ScanEndBound | 6malloclab/mm.c:463-481 | the best-fit scan stops after its findThres + 1-th fit, or at the end of the ring |
| MallocFit.NothingFits | 6malloclab/mm.c:483 | when the scan found no fit, no block of the bucket fits |
| MallocFit.BestFitUnique | 6malloclab/mm.c:466-478 | the scan's choice, the first smallest fit among the blocks scanned, is unique |
| MallocSearch.PickBest | 6malloclab/mm.c:466-478 | the scan's choice is a best fit among the blocks scanned |
| MallocSearch.FindFitFits | 6malloclab/mm.c:443-509 | whatever findFit returns is a listed block at least as large as the request; it comes from the small list iff the request is 16 bytes and that list is non-empty |
| MallocSearch.FindFitBest | 6malloclab/mm.c:455-483 | a fit in the request's own bucket is the capped best fit there |
| MallocSearch.FindFitAbove | 6malloclab/mm.c:484-507 | a block taken from a higher bucket is large enough |
| MallocSearch.NoFitNoBlock | 6malloclab/mm.c:443-509 | when findFit gives NULL, no listed block is large enough |
| MallocMerge.HeapNextIsAfter | 6malloclab/mm.c:203-210 | getHeapNext is the next block's header or the epilogue, and isFree of it holds iff the next block is free |
| MallocMerge.HeapPrevSound | 6malloclab/mm.c:212-227 | getHeapPrev gives NULL or the free block just before; it always finds a free large block there |
| MallocMerge.SpanIsRunSize | 6malloclab/mm.c:556-653 | a run of adjacent blocks spans the sum of their sizes |
| MallocMerge.MergeBlocks | 6malloclab/mm.c:556-653 | rewriting a run of blocks as one free block of their total size keeps the heap invariant |
| MallocMerge.GrowHeap | 6malloclab/mm.c:698-707 | the old epilogue becomes a free block over the new words, with a new epilogue after it, keeping the heap invariant |
| MallocMerge.InitHeap | 6malloclab/mm.c:341-366 | mm_init's words form a heap of one free 4096-byte block |
| MallocSteps.RewriteBlock | 6malloclab/mm.c:732-739 | marking one block allocated or free, with the next header's prev bit, keeps the heap invariant |
| MallocSteps.SplitBlock | 6malloclab/mm.c:732-750 | splitting a free block into an allocated one of sz bytes and a free remainder keeps the heap invariant |
| Malloc.ListedPassChecks | 6malloclab/mm.c:875-925 | every block on a list of a consistent heap passes mm_checkheap's checks for that list |
| Malloc.PayloadChecks | 6malloclab/mm.c:855-866 | every payload of a consistent heap is in the heap and 16-byte aligned |
| Malloc.PayloadAligned | 6malloclab/mm.c:863-866 | every payload starts on an even word |
| Malloc.FreedNeighbours | 6malloclab/mm.c:787-801 | after free's writes to one block, its neighbours' free and large states and the size of every run read as before |
| Malloc.Heap.InvPassesChecks | 6malloclab/mm.c:871-929 | the heap invariant implies that every listed block passes mm_checkheap's checks |
| Malloc.Heap.constructor | 6malloclab/mm.c:115-118 | before mm_init, no heap and every list empty |
| Malloc.Heap.Sbrk | 6malloclab/mm.c:344 | mem_sbrk returns the old break and raises it, or returns NULL and leaves it |
| Malloc.Heap.MmInit | 6malloclab/mm.c:341-366 | mm_init succeeds iff memory holds the prologue and a 4096-byte chunk; the heap is then one free block alone on the last bucket, with the break just past the epilogue |
| Malloc.Heap.InitChunk | 6malloclab/mm.c:355-364 | after the chunk is obtained, the heap invariant holds with one free block |
| Malloc.Heap.InitBlock | 6malloclab/mm.c:355-362 | the first block's header, footer, epilogue and self-links are written |
| Malloc.Heap.ClearLowerHeads | 6malloclab/mm.c:364 | the loop empties the seven lower buckets and leaves the last |
| Malloc.Heap.TianHF | 6malloclab/mm.c:233-238 | writes the one word HF describes |
| Malloc.Heap.TianHFR | 6malloclab/mm.c:248-252 | writes header and footer as HFR describes |
| Malloc.Heap.SetPrevMalloced | 6malloclab/mm.c:254-259 | writes the prev-allocated bit as PrevBit describes |
| Malloc.Heap.SetSmallBlock | 6malloclab/mm.c:141-146 | sets the small bit of both link words |
| Malloc.Heap.SetBigBlock | 6malloclab/mm.c:148-154 | clears the small bit of header and footer |
| Malloc.Heap.SetMalloced | 6malloclab/mm.c:287-293 | sets a small block's allocated bit in both words |
| Malloc.Heap.SetFree | 6malloclab/mm.c:295-301 | clears a small block's allocated bit in both words |
| Malloc.Heap.SetNext | 6malloclab/mm.c:273-278 | rewrites only the next link, keeping its flags |
| Malloc.Heap.SetPrev | 6malloclab/mm.c:280-285 | rewrites only the prev link, keeping its flags |
| Malloc.Heap.OnlyOneFree | 6malloclab/mm.c:261-265 | true iff the bucket holds exactly one block |
| Malloc.Heap.XOnlyOneFree | 6malloclab/mm.c:267-271 | true iff the small list holds exactly one block |
| Malloc.Heap.XDeleteFromFreeList | 6malloclab/mm.c:303-314 | removes the block from the small list and moves the head on when it was the head; the invariant holds with the block unlisted |
| Malloc.Heap.XAddToFreeList | 6malloclab/mm.c:316-329 | puts the block at the head of the small list, keeping the invariant |
| Malloc.Heap.DeleteFromFreeList | 6malloclab/mm.c:511-527 | removes the block from the list of its kind and size, keeping the invariant |
| Malloc.Heap.DeleteBigFromFreeList | 6malloclab/mm.c:518-526 | removes a large block from its bucket: it empties a singleton bucket, or moves the head on and relinks the neighbours |
| Malloc.Heap.UnlinkBig | 6malloclab/mm.c:523-525 | the two link writes join the block's neighbours |
| Malloc.Heap.AddToFreeList | 6malloclab/mm.c:530-549 | puts the block at the head of the list of its kind and size, keeping the invariant |
| Malloc.Heap.AddBigToFreeList | 6malloclab/mm.c:537-548 | puts a large block at the head of its bucket |
| Malloc.FirstHeapFit | 6malloclab/mm.c:443-509 | on the heap mm_init leaves, findFit finds nothing exactly when the request exceeds the 4096-byte first chunk |
| Malloc.Heap.FindFit | 6malloclab/mm.c:443-509 | findFit returns status 1 iff the request is 16 bytes and the small list is non-empty; the block is the one the capped best-fit search specifies |
| Malloc.Heap.ScanBucket | 6malloclab/mm.c:460-482 | the scan loop counts fits up to the cap and returns the capped best fit, or NULL if none |
| Malloc.Heap.FindAbove | 6malloclab/mm.c:484-507 | the search in the first non-empty higher bucket, or NULL |
| Malloc.Heap.Coalesce | 6malloclab/mm.c:556-653 | coalesce merges the block with its free neighbours found by getHeapPrev and getHeapNext, and lists the result; the invariant holds again |
| Malloc.Heap.CoalesceAlone | 6malloclab/mm.c:568-582 | with no free neighbour, the block is listed as it is |
| Malloc.Heap.CoalesceNext | 6malloclab/mm.c:583-605 | with a free next block, the two become one listed free block of their total size |
| Malloc.Heap.CoalescePrev | 6malloclab/mm.c:606-624 | with a free previous block, the two become one listed free block of their total size |
| Malloc.Heap.CoalesceBoth | 6malloclab/mm.c:625-651 | with both neighbours free, the three become one listed free block of their total size |
| Malloc.Heap.MergeFree | 6malloclab/mm.c:583-651 | the merged run becomes a single free large block of the new size, listed in its bucket |
| Malloc.Heap.Malloc | 6malloclab/mm.c:661-777 | malloc(0) is NULL; otherwise it returns a payload of a newly allocated block of the rounded size, holding the request, 16-byte aligned, the block findFit specifies whenever there is one; other allocated blocks stay put; on an initialised heap a positive request gets NULL exactly when findFit finds nothing and mem_sbrk cannot give max(4096, block size) more bytes, and then nothing changes; on the first call, which runs mm_init, a positive request gets NULL exactly when mm_init fails or the block exceeds 4096 bytes and memory cannot grow by it |
| Malloc.Heap.Allocate | 6malloclab/mm.c:675-776 | the part of malloc after mm_init: the findFit block when there is one, else a block from the grown heap; NULL exactly when there is no fit and memory cannot grow by max(4096, block size) |
| Malloc.Heap.TakeFit | 6malloclab/mm.c:679-776 | the found or grown block becomes allocated with the requested size; NULL exactly when findFit finds nothing and memory cannot grow by max(4096, sz), and then nothing changes |
| Malloc.Heap.SmallFit | 6malloclab/mm.c:683-697 | a 16-byte request takes the head of the small list, marked allocated, with the next block's prev bit set |
| Malloc.Heap.SmallUnlist | 6malloclab/mm.c:689-690 | the head leaves the small list |
| Malloc.Heap.SmallMark | 6malloclab/mm.c:693-694 | the head becomes an allocated small block |
| Malloc.Heap.GrowPlace | 6malloclab/mm.c:698-776 | NULL exactly when memory cannot grow by max(4096, sz) bytes; otherwise the break rises by that much and sz bytes are allocated at the start of the grown block: the new chunk's old epilogue when bucket 7 was empty, and otherwise the new chunk or the block just before it that coalesce merged it into |
| Malloc.Heap.Grow | 6malloclab/mm.c:698-722 | NULL, with nothing changed, exactly when mem_sbrk fails; otherwise the break rises by max(4096, sz) bytes and the result is a listed free block at least that large: the new chunk alone at the old epilogue when bucket 7 was empty, and otherwise either the new chunk or the last old block with the chunk merged into it |
| Malloc.Heap.Extend | 6malloclab/mm.c:699-707 | mem_sbrk raises the break by the requested size, and the heap gains one free block of that size at the old epilogue; NULL with nothing changed exactly when memory cannot grow that far |
| Malloc.Heap.Place | 6malloclab/mm.c:724-776 | the fit is unlisted and allocated at the requested size; a remainder becomes a listed free block after it |
| Malloc.Heap.TakeWhole | 6malloclab/mm.c:732-736 | an exact fit is allocated whole |
| Malloc.Heap.TakeSplit | 6malloclab/mm.c:732-776 | a larger fit is split, its remainder listed |
| Malloc.Heap.SplitOff | 6malloclab/mm.c:733-749 | the split writes an allocated block of sz bytes and a free remainder, small iff 16 bytes |
| Malloc.Heap.SplitWrite | 6malloclab/mm.c:734-749 | the words the split writes |
| Malloc.Heap.Free | 6malloclab/mm.c:781-804 | free(NULL) does nothing; otherwise the block is freed and merged with its free neighbours into one listed block of their total size; no other allocated block moves |
| Malloc.Heap.FreeBlock | 6malloclab/mm.c:787-800 | the block becomes free, and its successor's prev bit is cleared |
| Malloc.Heap.FreeWords | 6malloclab/mm.c:787-800 | the words freeing a large or a small block writes |
| Malloc.Heap.Realloc | 6malloclab/mm.c:809-825 | realloc(NULL, n) is malloc(n), with malloc's exact NULL conditions on the first call and on an initialised heap; realloc(p, 0) frees p; otherwise a new block of the rounded size gets min(size, old payload) bytes and p is freed, or NULL is returned, exactly when malloc fails, and p stays |
| Malloc.Heap.ReallocMove | 6malloclab/mm.c:815-824 | the malloc, copy and free of a resize; NULL exactly when findFit finds nothing and memory cannot grow by max(4096, block size), and then the old block stays |
| Malloc.Heap.Calloc | 6malloclab/mm.c:831-848 | calloc returns NULL on overflow and, changing nothing, when nmemb × size is 0; otherwise it returns malloc(nmemb × size), NULL under exactly malloc's conditions, with all of its nmemb × size bytes zeroed |

## Left out

- I/O is left out everywhere: `printf` and the debug printers of `mm.c`, the trace file and `printSummary` of `csim.c`, and the sockets, `Rio` calls and threads of `proxy.c`.
- csim.c `main` is left out: argument parsing, the trace loop and `initP2`'s table. The model takes `s`, `E` and `b` as parameters; `Pow2` stands for the table.
- CacheSim.Cache.constructor: `init`'s `malloc` failure is not modelled; the line array is always allocated.
- CacheSim.GetSetIdx: requires s + b <= 30. The mask is built with `1 << (s+b)` on a C `int`, and larger shifts are undefined in C.
- trans.c `registerFunctions` and the cache-miss cost are left out. The model proves what each function writes, not how many misses it causes. Matrix elements are a type parameter, not `double`.
- Transpose.TransposeSubmit: requires `tmp` to hold 256 elements. This is the scratch buffer the lab's driver passes.
- proxy.c `thread`, `main`, the read-write lock and the semaphore are left out. The cache list is a sequence with the head first, so the `prev`/`next` pointers and `free` are not modelled.
- Proxy.ObjectCache.ReadCache: the write of the object to the client connection is not modelled.
- Proxy.ObjectCache.AddToCache: the `malloc` of the entry and the `strcpy` into its fixed-size fields are not modelled.
- Proxy.ParseURL: requires `hostName` and `path` to be at least as long as the URL buffer. The source relies on `MAXBUF`-sized buffers.
- Proxy.ParseURL: the port is the unbounded value of its digits. `atoi` is undefined for values beyond `int`.
- Bits.FloatI2F: states the special cases, the sign and the exponent range, not the exact round-to-nearest-even value of the result.
- Bits: C's signed `int` is a 32-bit bit-vector. `>>` on it is the arithmetic shift written out. Undefined behaviours of C (signed overflow, over-wide shifts) are taken as two's-complement wrap-around.
- Memory is an array of 8-byte words with word indices for pointers. A byte address is 8 × index. Payload bytes are not modelled:
  - Malloc.Heap.Realloc: returns in `copied` how many bytes `memcpy` copies, instead of copying them.
  - Malloc.Heap.Calloc: returns in `zeroed` how many bytes `memset` clears, instead of clearing them.
- Malloc.Heap.Sbrk: `mem_sbrk` (memlib.c is not part of this model) is a break over an array of fixed capacity; running out of capacity is its failure.
- Malloc.Heap.MmInit: requires that nothing was obtained from `mem_sbrk` before. When the first `mem_sbrk` succeeds and the second fails, `heapBeg` stays set, so the heap is neither fresh nor valid. Later calls from that state are not modelled.
- Malloc.Heap.Free: requires an initialised heap even for `free(NULL)`, which the source accepts at any time.
- Malloc.Heap.Malloc: uses the corrected block size (see Findings). A request of more than 2^64 - 24 bytes asks for a block of at least 2^64 bytes, where the source's `size_t` sum wraps to a block of 0 or 16 bytes (`MallocWords.MallocSizeWrapRange`). Such a request fails unless the heap's capacity reaches 2^64 bytes.
- Malloc.Heap.Calloc: uses the corrected overflow test (see Findings), so `calloc(0, size)` returns NULL without dividing.
- MallocMerge.HeapPrevSound: does not promise that `getHeapPrev` finds a free small block before p. The invariant allows a free small block's second word to read allocated, and then coalesce leaves the two free blocks apart. For the same reason the model states no "no two adjacent free blocks" property.
- Malloc.Heap.Free: states which neighbours are merged: the previous one iff `getHeapPrev` finds it, always a free large previous one, and the next one iff it is free. It does not state that a free small previous block is merged.
- Malloc.Heap.FindFit: the higher-bucket search is the same capped scan with every block fitting; `MallocSearch.FindFitAbove` states only that its choice is large enough.
- `mm_checkheap`'s loops are left out; only its per-block checks are modelled (`Malloc.ListedPassChecks`).
  - As written, the small-list loop (mm.c:874-896) has no exit but `return false`.
  - The bucket loop (mm.c:901-926) never advances `freeDK`.
  - So on a consistent heap with a listed block the function never returns.
- The constant `findThres` is 9 as in the code, although the file's header comment says 8.
- Integer widths: heap words are unbounded naturals. `size_t` wrap-around is modelled only where it matters: the malloc size computation and the calloc product.

## Findings

| source | as written | input that shows it | evidently intended | confidence | as-written member | corrected member |
|---|---|---|---|---|---|---|
| 6malloclab/mm.c:675 | `getRoundSize(size+8)` in 64-bit `size_t` | size = 2^64 - 8: size + 8 wraps to 0, so the block size is 0 | a request too large to hold fails, or at least gets a block that holds it | not executed | MallocWords.MallocSizeWraps | MallocWords.MallocSize |
| 6malloclab/mm.c:835 | `if (asize/nmemb != size)` | nmemb = 0, any size: division by zero | calloc(0, size) needs no overflow test; it returns what malloc(0) returns, NULL | not executed | MallocWords.CallocZeroDivides | MallocWords.CallocOverflows |
