# A verified model of the runtime of the bare-metal monitor

This project models, in Dafny, the bundled runtime of the monitor for its 32-bit ARM build
(4-byte `size_t` and `long`, the speed variants of the string functions), and proves that it
does what its comments, tests and the standards it follows promise.

| files | model |
|---|---|
| `Common` | bytes, optional results, powers of two |
| `Words`, `Critical`, `TwoWay`, `MemMem` | Two-Way string search and `memmem`: critical factorization, the two search loops with memory and shift table, `memchr` by words |
| `Chunks`, `Headers`, `BinLists`, `Binning`, `Arena`, `BestFit`, `Steps`, `Freeing`, `Resizing`, `Malloc`, `MallocClient` | the allocator: chunks with boundary tags, 128 bins threaded through the free chunks, the block bit vector, the last remainder, the top chunk and `sbrk`; `malloc`, `free`, `realloc`, `memalign`, `malloc_trim`; any program over them |
| `Holes`, `Reassembly` | IP reassembly with the hole list kept inside the buffer that is being filled (RFC 815) |
| `Tftp`, `TftpTransfer`, `TftpWrap` | the TFTP client, whole transfers against a lock-step server (RFC 1350) over a bad network, and the wrap-around of block numbers |
| `HeapSort`, `QuickSort` | the heap sort loop with its counters, the shell sort of `qsort` on bytes, `bsearch` |
| `Division`, `Printf`, `Numbers`, `NumberFields` | 64 by 32 bit division, decimal conversion, the whole of `number`, and its inverses `strtoul` and `strtol` |
| `Checksum` | the Internet checksum (RFC 1071) and the headers finished with it (section 3.1 of RFC 791) |
| `StringWords` | `strlen`, `strchr`, `strncmp`, `strncpy`, `memcpy` by words |
| `Permutations`, `MatrixMultiply` | `permute`; the plain, unrolled, transposed, interchanged and blocked matrix multiplications over exact arithmetic |

How the allocator is modelled. Memory is one map from addresses to words; the array `av_` lies in it at
a fixed address below the heap, so a bin header is a pseudo chunk exactly as in the source. The ghost
state (`Arena.Ghost`) holds the tiling of the arena, the lists, the addresses whose word is about to be
written, and the number of bytes of each block that must not change. `Arena.Mid` is the invariant between
any two statements, `Arena.Heap` the one between calls. Every macro and every branch of the entry points
is a method of `Malloc.Allocator` whose statements are those of the source, in their order.

What the code does differently from its comments, found while proving:

* `request2size` compares as signed numbers, so a request from 2^31 - 11 up to 2^31 - 1 is rounded to
  the smallest chunk; `Binning.Request2SizeFits` gives the exact condition.
* `critical_factorization` says that it chooses the longer suffix; it takes the one that starts later, which
  is the shorter one, and that is what makes the split critical.
* A TFTP client that gets an OACK after the first DATA drops the next block and then acknowledges it
  (`TftpTransfer.LateOackLosesBlock`). Transfers stay safe under such OACKs exactly if the server sends none at
  all or the file has at most two blocks (`TftpTransfer.LateOackExact`).
* A repeated TFTP block numbered 0 moves the storage offset by one wrap too many; blocks are in place again
  exactly if the repetitions times the block size are a multiple of 65536 (`TftpWrap.StoredInPlace`).
* In reassembly, index 0 means both "none" and the hole at offset zero. So a packet that fills the first gap
  above the lowest fragment that has arrived makes the program forget the fragments below, as long as fragment 0
  is outstanding. The datagram is reassembled exactly in the orders in which this does not happen
  (`Reassembly.Reassembler.Deliver`); with three fragments it happens in the order 1, 2, 0
  (`Reassembly.Reassembler.FirstBlockLost`), but not in 1, 0, 2 or 2, 1, 0.
* `strtoul` and `strtol` do not skip blanks, nor the prefix when base 16 is given, so such fields read back as 0
  (`Numbers.UnsignedRoundTrip` and `Numbers.StrtolRoundTrip` have the exact condition).
* `malloc_trim` computes in unsigned arithmetic: a pad near 2^32 gives back more than the top chunk holds, and
  `sbrk` clears memory before it refuses. `Malloc.Allocator.TrimTop` says exactly when the blocks survive
  (`Malloc.Allocator.TrimKeeps`), `Malloc.TrimDestroys` is a program that loses its block.
* `critical_factorization` is said to take 2 * NEEDLE_LEN comparisons; it may take more
  (`Critical.MoreThanTwice`), but fewer than 4 * NEEDLE_LEN (`Critical.FactorizationBound`).
* `ping_receive` leaves the last byte of a message of odd length out of the checksum, so the reply is right only if
  that byte is 0 (`Checksum.Net.EchoReply`).

## Model

| member | source | states |
|---|---|---|
| `Critical.ScanStep` | lib/mylibc/string/str-two-way.h:114-142 | one step of the maximal-suffix loop keeps the scan invariant: the candidate suffix dominates what has been compared, with its period |
| `Critical.MaximalSuffix` | lib/mylibc/string/str-two-way.h:110-177 | the loop returns the start and least period of the maximal suffix, for the byte order and for its reverse |
| `Critical.LaterMaxSuffixIsCritical` | lib/mylibc/string/str-two-way.h:179-184 | the later of the two maximal suffixes starts at a critical position: a local repetition there is a period of the whole needle |
| `Critical.CriticalPeriods` | lib/mylibc/string/str-two-way.h:179-184 | a repetition at the split repeats over the whole needle, so the local period equals the global one |
| `Critical.CriticalFactorization` | lib/mylibc/string/str-two-way.h:90-185 | for every non-empty needle the split is critical, its left half is shorter than the global period, and *period is the least period of the right half; at most 4 * needle_len - 4 comparisons |
| `Critical.FactorizationBound` | lib/mylibc/string/str-two-way.h:84-88 | the two scans compare at most 4 * needle_len - 4 pairs of bytes |
| `Critical.MoreThanTwice` | lib/mylibc/string/str-two-way.h:84-88 | a needle of 7 bytes that takes 15 comparisons, more than the 2 * needle_len of the comment |
| `TwoWay.RightMismatch` | lib/mylibc/string/str-two-way.h:222-245 | after a mismatch in the right half no occurrence starts before the position reached |
| `TwoWay.PeriodicShift` | lib/mylibc/string/str-two-way.h:229-239 | after a mismatch in the left half of a periodic needle, no occurrence starts within the next period |
| `TwoWay.DistinctShift` | lib/mylibc/string/str-two-way.h:252-270 | for a needle with distinct halves a left-half mismatch rules out all starts below max(left, right) + 1 |
| `TwoWay.TableShift` | lib/mylibc/string/str-two-way.h:327-342 | the bad-byte table never shifts past an occurrence |
| `TwoWay.MemoryShift` | lib/mylibc/string/str-two-way.h:330-341 | a table shift shorter than the period may be lengthened to needle_len - period once bytes are remembered |
| `TwoWay.ShortLeft` | lib/mylibc/string/str-two-way.h:195-196 | the left half is shorter than the period, so no byte is compared twice from the left |
| `TwoWay.FarShift` | lib/mylibc/string/str-two-way.h:306-313 | a byte that occurs in a periodic needle has a table entry below the period, any other byte one of needle_len |
| `TwoWay.PeriodicStep` | lib/mylibc/string/str-two-way.h:220-246 | one round of the periodic search keeps: no occurrence behind j, and the remembered bytes match |
| `TwoWay.DistinctStep` | lib/mylibc/string/str-two-way.h:254-274 | one round of the search for a needle with distinct halves passes no occurrence |
| `TwoWay.ShortPeriodic` | lib/mylibc/string/str-two-way.h:213-247 | the periodic loop with memory finds the leftmost occurrence, or none if there is none; at most 2 * haystack_len - needle_len comparisons |
| `TwoWay.ShortDistinct` | lib/mylibc/string/str-two-way.h:248-275 | the loop for distinct halves finds the leftmost occurrence, or none if there is none; at most 2 * haystack_len - needle_len comparisons |
| `TwoWay.TwoWayShortNeedle` | lib/mylibc/string/str-two-way.h:197-277 | for every haystack and non-empty needle: the leftmost occurrence, None exactly if there is none; the search makes at most 2 * haystack_len - needle_len comparisons, as its comment promises |
| `TwoWay.ShiftTable` | lib/mylibc/string/str-two-way.h:306-313 | entry c of the table is the distance from the last c in the needle to its end, needle_len if c does not occur |
| `TwoWay.LongPeriodic` | lib/mylibc/string/str-two-way.h:317-369 | the periodic loop with shift table and memory finds the leftmost occurrence; at most 2 * haystack_len - needle_len comparisons |
| `TwoWay.LongDistinct` | lib/mylibc/string/str-two-way.h:370-407 | the table-driven loop for distinct halves finds the leftmost occurrence; at most 2 * haystack_len - needle_len comparisons |
| `TwoWay.TwoWayLongNeedle` | lib/mylibc/string/str-two-way.h:291-409 | for every haystack and needle: the leftmost occurrence, None exactly if there is none; the search makes at most 2 * haystack_len - needle_len comparisons |
| `MemMem.DetectNullExact` | lib/mylibc/string/memchr.c:18-20 | DETECTNULL is non-zero exactly when one of the four bytes of the word is zero |
| `MemMem.DetectCharBytes` | lib/mylibc/string/memchr.c:33-35 | DETECTCHAR is non-zero exactly when one of the four bytes is the one sought |
| `MemMem.MemChr` | lib/mylibc/string/memchr.c:46-101 | for every address and content: the first place of the byte, None exactly if it does not occur |
| `MemMem.SkipToFirstByte` | lib/mylibc/string/memmem.c:55-62 | starting at the first byte that equals the needle's first byte loses no occurrence |
| `MemMem.MemMem` | lib/mylibc/string/memmem.c:18-66 | memmem returns the leftmost occurrence of every needle in every haystack, None exactly if there is none, 0 for the empty needle |
| `Chunks.CutCovers` | lib/mylibc/stdlib/malloc.c:2733-2741 | splitting a chunk keeps the tiling: chunks cover the arena from its base to the break, disjoint, aligned and linked to their neighbours |
| `Chunks.CutTopCovers` | lib/mylibc/stdlib/malloc.c:2389-2392 | splitting the top chunk keeps the tiling |
| `Chunks.AbsorbCovers` | lib/mylibc/stdlib/malloc.c:2483-2506 | joining two neighbours keeps the tiling |
| `Chunks.AbsorbTopCovers` | lib/mylibc/stdlib/malloc.c:2460-2473 | joining a chunk with top keeps the tiling |
| `Chunks.ChunkOf` | lib/mylibc/stdlib/malloc.c:1651-1690 | every address of the arena lies in exactly one chunk |
| `Chunks.AllFreed` | lib/mylibc/stdlib/malloc.c:1241-1250 | when no chunk is in use the whole arena is the top chunk: nothing stays fragmented |
| `Headers.WriteHead` | lib/mylibc/stdlib/malloc.c:1395 | writing a size word makes it right without disturbing any other size word or footer |
| `Headers.WriteFoot` | lib/mylibc/stdlib/malloc.c:1399 | writing a footer disturbs no other footer and no size word |
| `BinLists.RingsUnlink` | lib/mylibc/stdlib/malloc.c:1825-1831 | unlink takes exactly that chunk off its circular list; all 127 lists stay well linked both ways, each chunk on one list once |
| `BinLists.RingsInsert` | lib/mylibc/stdlib/malloc.c:1801-1803 | the four writes of frontlink put the chunk between its two neighbours; all other lists are as before |
| `Binning.Request2SizeFits` | lib/mylibc/stdlib/malloc.c:1295-1298 | the padded size is a multiple of 8, at least MINSIZE, and holds the request if and only if request + 11 < 2^31 |
| `Binning.Request2SizeWraps` | lib/mylibc/stdlib/malloc.c:1295-1298 | a concrete request, 2^31 - 1, that is padded to the smallest chunk |
| `Binning.BinIndexMonotone` | lib/mylibc/stdlib/malloc.c:1547-1554 | larger chunks are never in lower bins |
| `Binning.BinIndexRange` | lib/mylibc/stdlib/malloc.c:1547-1566 | every chunk size has a bin from 2 to 126; sizes below 512 have a bin of their own |
| `Binning.BinBounds` | lib/mylibc/stdlib/malloc.c:1414-1430 | bin b holds exactly the sizes from its start to that of the next bin: 64 bins of size 8, 32 of 64, 16 of 512, 8 of 4096, 4 of 32768, 2 of 262144 and one of what is left, up to the slop between the groups |
| `Binning.WithBitSets` | lib/mylibc/stdlib/malloc.c:1591-1593 | marking or clearing a block changes that bit of the vector only |
| `Binning.NoHighBit` | lib/mylibc/stdlib/malloc.c:2282 | if the vector is below 1 << k no block from k on is marked |
| `Binning.SomeHighBit` | lib/mylibc/stdlib/malloc.c:2287-2297 | if it is not, the search for a marked block ends at one |
| `Arena.MidUnlink` | lib/mylibc/stdlib/malloc.c:1825-1831 | unlink, done at any point of a call, keeps all invariants of the arena: tiling, tags, lists, order, bit vector and protected data |
| `Arena.MidInsert` | lib/mylibc/stdlib/malloc.c:1793-1820 | so does linking a chunk at its place in the size order |
| `Arena.MidHead` | lib/mylibc/stdlib/malloc.c:1395 | so does writing a size word |
| `Arena.MidFoot` | lib/mylibc/stdlib/malloc.c:1399 | so does writing a footer |
| `Arena.MidMark` | lib/mylibc/stdlib/malloc.c:1592 | marking a block keeps the invariants and sets its bit |
| `Arena.MidClear` | lib/mylibc/stdlib/malloc.c:2341-2352 | clearing the bit of a block is sound if its four bins are empty |
| `Arena.MidSplitFree` | lib/mylibc/stdlib/malloc.c:2252-2261 | cutting a free chunk leaves one used chunk and one free one, with only their tags still to be written |
| `Arena.MidUser` | lib/mylibc/stdlib/malloc.c:1241-1250 | a store by the owner of a block disturbs neither tags, lists nor other blocks |
| `Arena.ReadHead` | lib/mylibc/stdlib/malloc.c:1387 | chunksize and prev_inuse read what the tiling says of the chunk and of its lower neighbour |
| `Arena.ReadFoot` | lib/mylibc/stdlib/malloc.c:1331-1332 | prev_size leads to the free chunk below |
| `BestFit.FirstIsSmallest` | lib/mylibc/stdlib/malloc.c:2306-2339 | the last chunk that fits in the first bin that has one is a smallest chunk that fits |
| `BestFit.ScannableAbove` | lib/mylibc/stdlib/malloc.c:2306-2339 | above the bin of the request every chunk is large enough |
| `Steps.UnlinkHeads` | lib/mylibc/stdlib/malloc.c:1825-1831 | unlink touches no size word |
| `Steps.MidRelink` | lib/mylibc/stdlib/malloc.c:1835-1840 | link_last_remainder replaces the old last remainder, if any, by the new one |
| `Steps.SmallVictim` | lib/mylibc/stdlib/malloc.c:2193-2211 | the chunk taken from an exact small bin is a smallest fit, with less than MINSIZE to spare |
| `Steps.Rebinned` | lib/mylibc/stdlib/malloc.c:2263-2274 | putting a too small last remainder into its bin does not spoil the search |
| `Steps.BlockEmpty` | lib/mylibc/stdlib/malloc.c:2287-2297 | the bins of an unmarked block are empty, so skipping it skips nothing |
| `Steps.ScanRun` | lib/mylibc/stdlib/malloc.c:2300-2366 | passing empty bins keeps: nothing below fits, the first chunk above does |
| `Steps.ScanDone` | lib/mylibc/stdlib/malloc.c:2300-2367 | a scan that ends without a chunk means that no linked chunk fits |
| `Steps.GrowTop` | lib/mylibc/stdlib/malloc.c:2022-2026 | space from sbrk that continues the arena extends top |
| `Steps.FirstHeap` | lib/mylibc/stdlib/malloc.c:2034-2057 | the first extension makes an aligned top chunk that ends on a page boundary |
| `Malloc.Allocator.Unlink` | lib/mylibc/stdlib/malloc.c:1825-1831 | the memory after unlink is the arena without the chunk on its list |
| `Malloc.Allocator.Frontlink` | lib/mylibc/stdlib/malloc.c:1793-1820 | the chunk is linked in the bin of its size, at its place in the decreasing order and before those of its size, and the block is marked |
| `Malloc.Allocator.LinkLastRemainder` | lib/mylibc/stdlib/malloc.c:1835-1840 | the chunk becomes the only last remainder |
| `Malloc.Allocator.ExactSmall` | lib/mylibc/stdlib/malloc.c:2189-2215 | a chunk from the two exact small bins is a smallest fit with less than MINSIZE to spare; otherwise there is no exact fit |
| `Malloc.Allocator.ExactLarge` | lib/mylibc/stdlib/malloc.c:2216-2243 | an exact fit of the bin of a large request is a smallest fit; if there is none, the scan may start at the index returned |
| `Malloc.Allocator.FromLastRemainder` | lib/mylibc/stdlib/malloc.c:2245-2275 | the last remainder is handed out, cut if it is large, whenever it is large enough; otherwise it goes to its bin, and no chunk that fits is lost |
| `Malloc.Allocator.Resplit` | lib/mylibc/stdlib/malloc.c:2252-2261 | cutting the last remainder hands out its lower part and keeps the rest as last remainder |
| `Malloc.Allocator.SplitBinned` | lib/mylibc/stdlib/malloc.c:2315-2325 | a binned chunk is cut; the rest becomes the last remainder |
| `Malloc.Allocator.TakeBinned` | lib/mylibc/stdlib/malloc.c:2327-2333 | a binned chunk is handed out whole |
| `Malloc.Allocator.ScanBin` | lib/mylibc/stdlib/malloc.c:2310-2335 | a chunk from a scanned bin is a smallest fit; otherwise the bin is empty |
| `Malloc.Allocator.NextBlock` | lib/mylibc/stdlib/malloc.c:2287-2297 | the next marked block is found, and no bin on the way holds anything |
| `Malloc.Allocator.ClearBlock` | lib/mylibc/stdlib/malloc.c:2341-2352 | the backtracking clears the bit only if the whole block is empty |
| `Malloc.Allocator.ScanBins` | lib/mylibc/stdlib/malloc.c:2277-2367 | the scan returns a smallest fit, or nothing exactly if no linked chunk fits |
| `Malloc.Allocator.Sbrk` | lib/mylibc/stdlib/malloc.c:1496-1516 | memory is given exactly if the limit allows it; memory given back is cleared, even when the call then fails because it would go below the start |
| `Malloc.Allocator.ExtendTop` | lib/mylibc/stdlib/malloc.c:1986-2098 | top gets room for the request, or memory is exhausted; the break rises by no more than the request and the rounding; all chunks and lists stay as they were |
| `Malloc.Allocator.NewTop` | lib/mylibc/stdlib/malloc.c:2027-2057 | the first extension, also when its second sbrk fails |
| `Malloc.Allocator.CarveTop` | lib/mylibc/stdlib/malloc.c:2389-2394 | the lower part of top is handed out |
| `Malloc.Allocator.Alloc` | lib/mylibc/stdlib/malloc.c:2157-2396 | every invariant is kept; the result is a new block of the padded size (less than MINSIZE more): a smallest exact fit, else the last remainder if it is large enough, else a smallest fit, else top; the rest of a cut chunk is the last remainder; the break rises only if nothing linked fits and top is too small, and NULL comes only if memory is exhausted besides |
| `Freeing.ExtraBounds` | lib/mylibc/stdlib/malloc.c:3016-3020 | unless pad leaves the signed range, what is trimmed leaves pad + MINSIZE up to one page more in top, and it is a page or more exactly if top has more than a page above pad + MINSIZE |
| `Freeing.HugePad` | lib/mylibc/stdlib/malloc.c:3016-3020 | a pad of 2^32 - 2^20 computes more than any top chunk below 2^31 - 2^21 holds |
| `Freeing.UnsafeTrim` | lib/mylibc/stdlib/malloc.c:3046-3050 | if the break comes to lie less than a chunk above top, no heap ends there, whatever the other words are |
| `Freeing.ReleasedBreaks` | lib/mylibc/stdlib/malloc.c:3046-3050 | so giving back more than top can spare leaves no heap |
| `Freeing.RefusedKeeps` | lib/mylibc/stdlib/malloc.c:3031-3043 | when sbrk refuses, rewriting the size of top leaves the heap if there is no block and av_ was not cleared |
| `Freeing.RefusedBreaks` | lib/mylibc/stdlib/malloc.c:3031-3043 | otherwise a block or the lists are gone |
| `Freeing.ShrinkTop` | lib/mylibc/stdlib/malloc.c:3031-3053 | clearing and giving back the end of top keeps every invariant |
| `Malloc.Allocator.Trim` | lib/mylibc/stdlib/malloc.c:3004-3057 | the heap and its blocks are kept if and only if TrimKeeps: there is no heap yet, nothing is to be given back, top can spare it, or sbrk refuses and has cleared neither a block nor av_; unless pad leaves the signed range, memory is given back exactly if there is a heap and top has more than a page above pad + MINSIZE, and then top keeps pad + MINSIZE up to one page more |
| `Malloc.Allocator.GiveBack` | lib/mylibc/stdlib/malloc.c:3029-3053 | both ends of malloc_trim: sbrk refuses, or top is cut |
| `Freeing.JoinBelow` | lib/mylibc/stdlib/malloc.c:2483-2493 | joining with the free chunk below keeps every invariant, whether or not it stays the last remainder |
| `Freeing.JoinAbove` | lib/mylibc/stdlib/malloc.c:2495-2506 | so does joining with the free chunk above |
| `Malloc.Allocator.JoinBackward` | lib/mylibc/stdlib/malloc.c:2481-2493 | the chunk is joined with a free lower neighbour; if that is the last remainder, the joined chunk is, and no other way is the last remainder lost |
| `Malloc.Allocator.JoinForward` | lib/mylibc/stdlib/malloc.c:2495-2506 | the chunk is joined with a free upper neighbour; the last remainder's place is inherited |
| `Malloc.Allocator.FreeToBin` | lib/mylibc/stdlib/malloc.c:2479-2513 | the block becomes free, joined with its free neighbours, and is linked once; the last remainder stays, or becomes part of the chunk that takes its place |
| `Malloc.Allocator.FreeToTop` | lib/mylibc/stdlib/malloc.c:2460-2477 | a block below top is joined with it; if top then reaches the trim threshold, the break falls and top keeps at most MINSIZE and a page, otherwise the break stays |
| `Malloc.Allocator.TrimLarge` | lib/mylibc/stdlib/malloc.c:2474-2475 | top is trimmed exactly if it has reached the threshold |
| `Malloc.Allocator.Free` | lib/mylibc/stdlib/malloc.c:2424-2513 | exactly that block is no longer in use; free(0) changes nothing; the break falls exactly if the block borders on top and top reaches the trim threshold, and then top keeps at most MINSIZE and a page |
| `Resizing.CopyStep` | lib/mylibc/stdlib/malloc.c:408-424 | an ascending word copy is right if the destination is below the source or apart from it |
| `Resizing.GrowUp` | lib/mylibc/stdlib/malloc.c:2641-2646 | taking in the chunk above gives the block its bytes and keeps every invariant |
| `Resizing.MoveTop` | lib/mylibc/stdlib/malloc.c:2628-2637 | the boundary between a block and top can be moved |
| `Resizing.MoveTopFree` | lib/mylibc/stdlib/malloc.c:2628-2637 | also when the chunk below the block is free |
| `Malloc.Allocator.MallocCopy` | lib/mylibc/stdlib/malloc.c:408-424 | the words of the source arrive, in line or by memcpy, even when the regions overlap downwards |
| `Malloc.Allocator.MemCpy` | lib/mylibc/string/memcpy.c:44-94 | the word loops of memcpy copy every word, in ascending order |
| `Malloc.Allocator.Split` | lib/mylibc/stdlib/malloc.c:2731-2749 | what is too much is cut off and freed; the block keeps less than MINSIZE more than asked |
| `Malloc.Allocator.ReallocTop` | lib/mylibc/stdlib/malloc.c:2628-2637 | growing into top keeps the address and the contents |
| `Malloc.Allocator.ReallocForward` | lib/mylibc/stdlib/malloc.c:2641-2646 | growing into the free chunk above keeps the address and the contents |
| `Malloc.Allocator.ShiftTop` | lib/mylibc/stdlib/malloc.c:2656-2679 | shifting down and into top moves the contents, overlap included |
| `Malloc.Allocator.ShiftDown` | lib/mylibc/stdlib/malloc.c:2654-2704 | shifting down, also with the chunk above, moves the contents, overlap included |
| `Malloc.Allocator.MoveAway` | lib/mylibc/stdlib/malloc.c:2707-2728 | allocate, copy and free moves the contents; a new chunk just above is taken in instead |
| `Malloc.Allocator.ReallocHere` | lib/mylibc/stdlib/malloc.c:2731-2749 | shrinking keeps the contents up to the new size |
| `Malloc.Allocator.Realloc` | lib/mylibc/stdlib/malloc.c:2556-2750 | on every branch the first min(old, new) bytes are preserved and all other blocks keep their contents; the block stays where it is if it fits there together with the chunk above, else it moves to the chunk below if all three suffice; NULL, only if there is no such place and memory is exhausted, leaves everything as it was |
| `Resizing.RoomRead` | lib/mylibc/stdlib/malloc.c:2622-2652 | what next, inuse and chunksize say of the chunk above is how much the block can grow upwards, with a chunk of the least size left of top |
| `Resizing.AlignedPlaceFits` | lib/mylibc/stdlib/malloc.c:2827-2832 | the aligned place is the first that leaves room for a leading chunk; it lies at most alignment + 8 above the chunk |
| `Malloc.Allocator.CutInUse` | lib/mylibc/stdlib/malloc.c:2843-2864 | a used chunk is cut into two used ones, lead and tail |
| `Malloc.Allocator.DropLeader` | lib/mylibc/stdlib/malloc.c:2816-2852 | the part below the aligned place is freed |
| `Malloc.Allocator.DropTail` | lib/mylibc/stdlib/malloc.c:2854-2864 | the part above the block is freed |
| `Malloc.Allocator.MemAlign` | lib/mylibc/stdlib/malloc.c:2775-2869 | the result is aligned and is the only new block, with less than MINSIZE to spare |
| `Malloc.Allocator.constructor` | lib/mylibc/stdlib/malloc.c:1472-1494 | the initial av_ satisfies the invariants |
| `Malloc.Allocator.Initialize` | lib/mylibc/stdlib/malloc.c:1523-1540 | mem_malloc_init sets the start, the break and the end of the heap and makes the allocator ready |
| `Malloc.Allocator.Malloc` | lib/mylibc/stdlib/malloc.c:2157-2396 | for callers: a fresh, 8-aligned block of at least the requested size, chosen as Alloc says, all old blocks with their contents; 0 before mem_malloc_init; otherwise 0 only if no linked chunk fits, top is too small and memory is exhausted |
| `Malloc.Allocator.FreeBlock` | lib/mylibc/stdlib/malloc.c:2424-2513 | for callers: exactly one block goes, the others keep their contents; free(0) changes nothing; the break falls exactly if the block borders on top and top reaches the trim threshold, and then top keeps at most MINSIZE and a page |
| `Malloc.Allocator.ReallocBlock` | lib/mylibc/stdlib/malloc.c:2556-2750 | for callers: the block is replaced, the first min(old, new) bytes and all other blocks are preserved; it stays in place, or moves to the chunk below, whenever the free space beside it suffices; 0 only if it does not, no linked chunk fits, top is too small and memory is exhausted |
| `Malloc.Allocator.AlignedAlloc` | lib/mylibc/stdlib/malloc.c:2775-2869 | for callers: a fresh aligned block; 0 only if the padded request fits nowhere and memory is exhausted |
| `Malloc.AlignedSize` | lib/mylibc/stdlib/malloc.c:2788-2800 | memalign asks for the padded request and, above an alignment of 8, at most 51 bytes more than the alignment |
| `Malloc.Allocator.TrimTop` | lib/mylibc/stdlib/malloc.c:3004-3057 | for callers, for every pad: all blocks stay as they are if and only if TrimKeeps, otherwise no heap has them any more; for pads up to 2^31 - 4096, 1 is returned exactly if there is a heap and top has more than a page above pad + MINSIZE, and top then keeps pad + MINSIZE up to one page more; before mem_malloc_init nothing happens |
| `Malloc.Allocator.SmallPad` | lib/mylibc/stdlib/malloc.c:3016-3020 | a pad up to 2^31 - 4096 never gives back too much |
| `Malloc.TrimDestroys` | lib/mylibc/stdlib/malloc.c:3004-3057 | a program of one malloc and one malloc_trim that loses its block |
| `Malloc.Allocator.WriteWord` | lib/mylibc/stdlib/malloc.c:1241-1250 | a store into one's own block keeps the allocator valid and every other block as it was |
| `Malloc.Allocator.BlocksApart` | lib/mylibc/stdlib/malloc.c:1651-1762 | in every reachable state blocks are 8-aligned, inside the heap and disjoint |
| `MallocClient.Step` | lib/mylibc/stdlib/malloc.c:2157-2869 | one call or store changes the program's table as the call promises, a request is refused only when memory is exhausted, and every word of every block, also of those not named in the call, holds what was last written there |
| `MallocClient.Run` | lib/mylibc/stdlib/malloc.c:2157-2869 | every program of calls and stores: each call has its outcome, and at the end the blocks in use are those of the table, disjoint, large enough, each word as last written |
| `Holes.FillMissing` | net/net_core.c:556-605 | updating the hole list removes exactly the bytes that have arrived |
| `Holes.FillSeparated` | net/net_core.c:556-605 | the hole list stays sorted, with non-empty holes that do not touch |
| `Holes.StoredRemove` | net/net_core.c:562-578 | removing a hole leaves a correct doubly linked list in the buffer |
| `Holes.StoredMove` | net/net_core.c:584-594 | moving the start of a hole leaves a correct doubly linked list |
| `Holes.StoredSplit` | net/net_core.c:596-605 | splitting a hole leaves a correct doubly linked list |
| `Holes.StoredShorten` | net/net_core.c:580-582 | shortening a hole leaves a correct doubly linked list |
| `Holes.StoredCopy` | net/net_core.c:608 | copying the fragment overwrites no descriptor |
| `Reassembly.Found` | net/net_core.c:535-542 | the hole that the search stops at is the one that holds the fragment |
| `Reassembly.FoundDuplicate` | net/net_core.c:535-548 | a fragment that has arrived before is dropped, or begins where a hole ends |
| `Reassembly.SeenLast` | net/net_core.c:550-582 | a repeated last fragment stretches a hole and cuts it back |
| `Reassembly.FilledOk` | net/net_core.c:550-605 | every property of the hole list survives an update |
| `Reassembly.Reassembler.FindHole` | net/net_core.c:535-542 | the first hole that does not end before the fragment, or none |
| `Reassembly.Reassembler.Update` | net/net_core.c:556-605 | the list in the buffer becomes the list without the bytes of the fragment; nothing but missing bytes is overwritten |
| `Reassembly.Reassembler.Reset` | net/net_core.c:517-526 | a new datagram starts with every byte missing and with the header of its first packet |
| `Reassembly.Reassembler.Merge` | net/net_core.c:550-615 | the buffer holds every byte that is not missing and not given up; the datagram is complete exactly if no other is missing, and then the header is as it was, with the length of the datagram |
| `Reassembly.Reassembler.Defragment` | net/net_core.c:497-615 | NULL as long as a byte is missing; at completion the payload is the original one and *lenp its length plus the header, except for bytes that the hole at 0 has buried; the header is that of the first packet, with the length of the datagram in network order; a fragment that reaches beyond the buffer changes nothing |
| `Reassembly.Reassembler.Deliver` | net/net_core.c:497-615 | for every order and repetition of the fragments: the original payload comes exactly when all have arrived, if and only if no packet buries the lowest fragments; if one does, completion comes without them, and the payload begins with the end of the hole at 0; the header is that of the fragment that came first, with the length of the datagram |
| `Reassembly.FragmentRead` | net/net_core.c:505-513 | a fragment cut out at a multiple of 8, with its length, its offset and the flag for more in network order, is read as that part of the datagram |
| `Reassembly.Fragmented` | net/net_core.c:505-513 | every cut of a datagram at multiples of 8 makes fragments that Deliver takes |
| `Reassembly.Reassembler.FirstBlockLost` | net/net_core.c:556-615 | three fragments in the order 1, 2, 0: the second packet completes the datagram without its first block |
| `Reassembly.ZeroFirst` | net/net_core.c:535-615 | nothing is buried when fragment 0 comes first or second, nor when no fragment follows a lower one |
| `Reassembly.HidesThen` | net/net_core.c:556-594 | the program forgets the hole at 0 only if a packet fills the first gap above the lowest fragment that has arrived |
| `Reassembly.BuriesThen` | net/net_core.c:556-594 | and it does so then |
| `Reassembly.BuryOk` | net/net_core.c:556-594 | what is left of the list is again a well linked list |
| `Tftp.WrittenAt` | net/tftp.c:158 | memcpy of a block changes the bytes of the block only |
| `Tftp.Handler.UpdateBlockNumber` | net/tftp.c:241-256 | a block numbered 0 moves the offset by one wrap |
| `Tftp.Handler.StoreBlock` | net/tftp.c:132-165 | the block goes to its offset and the transfer size grows to cover it |
| `Tftp.Handler.Receive` | net/tftp.c:383-532 | the handler does to the globals and the memory, and sends, what the transition function says |
| `Tftp.Handler.Timeout` | net/tftp.c:558-570 | a timeout repeats the last request until the count is exceeded |
| `Tftp.GivesUp` | net/tftp.c:558-570 | n timeouts in a row send n requests, but no more than the count allows; then the client is silent |
| `Tftp.CountKept` | net/tftp.c:241-256 | the count starts afresh only with a block numbered 0 |
| `TftpTransfer.BlockEnds` | net/tftp.c:530-531 | only the last block is shorter than the block size |
| `TftpTransfer.DataResult` | net/tftp.c:483-532 | a DATA packet is ignored if it repeats the last block, otherwise stored at its place and acknowledged |
| `TftpTransfer.StoredWrite` | net/tftp.c:132-165 | storing a block leaves the blocks stored before in place |
| `TftpTransfer.NextInv` | net/tftp.c:382-570 | every step of client, server and network keeps: only stored blocks are acknowledged |
| `TftpTransfer.BlocksStored` | net/tftp.c:483-532 | when a block has been sent, all blocks before it have been stored |
| `TftpTransfer.Safe` | net/tftp.c:530-531 | in a state that satisfies the invariant, success means that the memory holds the file and the size is right |
| `TftpTransfer.EveryRun` | net/tftp.c:382-570 | for every run with loss, repetition and reordering, without an OACK after the first DATA, whether or not the OACK names the block size: whenever success is reported the memory equals the file |
| `TftpTransfer.Completes` | net/tftp.c:382-570 | for every file and block size, with an OACK that names it, with one that does not, and with none, some run succeeds |
| `TftpTransfer.Transfer` | net/tftp.c:382-570 | the handler driven through any list of enabled steps reports success with a correct copy alone, for all three kinds of server |
| `TftpTransfer.LateOackExact` | net/tftp.c:445-532 | with OACKs at any time every run is safe if and only if the server sends no OACK or the file has at most two blocks |
| `TftpTransfer.TwoNext` | net/tftp.c:445-532 | for at most two blocks every step, late OACKs included, keeps: block 1 is stored before it is acknowledged |
| `TftpTransfer.LateOackLosesBlock` | net/tftp.c:445-508 | an OACK after the first DATA makes the client acknowledge a block it has dropped |
| `TftpTransfer.LateOackIsUnsafe` | net/tftp.c:445-532 | for every file of three or more blocks a run that reports it complete without its second block |
| `TftpWrap.TakesNext` | net/tftp.c:132-165 | the next block in order goes to n * size, shifted by one wrap for every repeated block 0 |
| `TftpWrap.TakesAgain` | net/tftp.c:510-515 | a repeated block is not stored again; only a repeated block 0 moves the offset |
| `TftpWrap.PlayInStep` | net/tftp.c:241-256 | after any in-order run the globals count the wraps and the repeated zero blocks |
| `TftpWrap.StoredInPlace` | net/tftp.c:132-256 | block n + 1 is stored at n * size across any number of wraps if and only if the repeated blocks 0, times the block size, are a multiple of 65536 |
| `TftpWrap.FewZeros` | net/tftp.c:241-256 | fewer than 45 repeated blocks 0 are harmless only if there are none |
| `TftpWrap.AllInPlace` | net/tftp.c:132-256 | without a repeated block 0 all blocks of a transfer of any length are in their places |
| `TftpWrap.SizeInStep` | net/tftp.c:132-165 | and the transfer size is where the last block ends; success is reported exactly if that block is not full |
| `HeapSort.RootIsMax` | app/heapsort.c:252-254 | the root of the heap is a largest element |
| `HeapSort.Sift` | app/heapsort.c:262-281 | sifting restores the heap, permutes the elements, leaves the sorted part alone; ce counts the levels that ir sinks, cf is 1 exactly if it stops above a child, and cd = ce + cf |
| `HeapSort.Pop` | app/heapsort.c:252-259 | a largest element goes behind the heap |
| `HeapSort.Sort` | app/heapsort.c:237-283 | base[1..size] ends up sorted and a permutation; cb = size/2, cc = size - 1, ca = cb + cc, cd = ce + cf, cf < ca, and ce is at most ca - 1 times the depth of the heap |
| `QuickSort.Swapped` | lib/mylibc/stdlib/qsort.c:80-85 | swapping bytes swaps the two elements and splits none |
| `QuickSort.Sink` | lib/mylibc/stdlib/qsort.c:69-86 | an element sinks to its place: the elements are permuted, and with gap 1 the sorted prefix grows |
| `QuickSort.NextGap` | lib/mylibc/stdlib/qsort.c:64-90 | in bytes too the next gap is a whole number of elements |
| `QuickSort.FirstGap` | lib/mylibc/stdlib/qsort.c:58-63 | the first gap is below the number of elements |
| `QuickSort.QSort` | lib/mylibc/stdlib/qsort.c:46-92 | for every count, width and total preorder the elements are sorted and a permutation of the originals |
| `QuickSort.BSearch` | lib/mylibc/stdlib/bsearch.c:10-32 | an element equal to the key is found exactly if there is one |
| `QuickSort.PresentAfterSort` | lib/mylibc/stdlib/bsearch.c:10-32 | sorting does not change which keys can be found |
| `Division.DoubleFits` | lib/mylibc/stdlib/div64.c:37-40 | doubling the shifted divisor never leaves 64 bits |
| `Division.Reduce` | lib/mylibc/stdlib/div64.c:29-35 | dividing the high word first leaves a remainder below base << 32 |
| `Division.Subtract` | lib/mylibc/stdlib/div64.c:42-49 | the shift-and-subtract loop finds the rest of the quotient |
| `Division.Div64` | lib/mylibc/stdlib/div64.c:22-53 | for every 64-bit dividend and non-zero 32-bit base: the exact quotient and remainder |
| `Division.DoDiv` | include/div64.h:32-42 | do_div is exact on both of its branches |
| `Printf.Tenth205` | lib/mylibc/stdio/simple_printf.c:59-61 | (x * 0xcd) >> 11 is the division by 10 on every intermediate value |
| `Printf.Tenth13` | lib/mylibc/stdio/simple_printf.c:71-72 | (x * 0xd) >> 7 is the division by 10 on every value it is used for |
| `Printf.PutDecTrunc` | lib/mylibc/stdio/simple_printf.c:49-86 | the decimal digits, least significant first, without leading zeros |
| `Printf.PutDecFull` | lib/mylibc/stdio/simple_printf.c:87-128 | exactly five digits, with leading zeros |
| `Printf.FiveDigits` | lib/mylibc/stdio/simple_printf.c:130-139 | the digits of n are five digits of n mod 100000 followed by those of n / 100000 |
| `Printf.PutDec` | lib/mylibc/stdio/simple_printf.c:130-139 | the canonical decimal digits of every 64-bit number |
| `Numbers.DecimalDigits` | lib/mylibc/stdio/simple_printf.c:203-223 | put_dec agrees with the generic digit loop |
| `Numbers.Number` | lib/mylibc/stdio/simple_printf.c:166-259 | the field is padding, sign, prefix, zeros, digits and padding, for all flags, sizes and precisions |
| `NumberFields.FieldWidth` | lib/mylibc/stdio/simple_printf.c:169-228 | the field is as wide as the larger of size and sign, prefix and digits or precision |
| `NumberFields.FieldChars` | lib/mylibc/stdio/simple_printf.c:172-259 | every character of the field: blanks before it unless left-justified or zero-padded, blanks behind it if left-justified, the sign -, + or blank as the flags say, the prefix 0, 0x or 0X, zeros, and digit k of the number, n / base^k mod base, in the case the flags say |
| `NumberFields.CountExact` | lib/mylibc/stdio/simple_printf.c:198-223 | a number of d digits lies between base^(d - 1) and base^d |
| `NumberFields.DigitAt` | lib/mylibc/stdio/simple_printf.c:203-223 | place k of the digits worked out is n / base^k mod base |
| `NumberFields.ByteField` | net/tftp.c:578-583 | %02X of a byte is its two hexadecimal digits, as in the default name of the boot file |
| `Numbers.Strtoul` | lib/mylibc/stdlib/strtoul.c:32-85 | the number that the leading digits stand for, modulo 2^32, in base 16 after 0x or 0X and otherwise in base 10 if the base is to be found out; the end is where the digits end; 0 for any other base than 0, 10 and 16 |
| `Numbers.Strtol` | lib/mylibc/stdlib/strtol.c:32-96 | the same with a sign: the signed 32-bit number that is equal to it modulo 2^32 |
| `Numbers.DigitIn` | lib/mylibc/stdlib/strtoul.c:65-79 | a digit is one of 0 to 9, in base 16 also one of a to f or A to F |
| `Numbers.DigitWorth` | lib/mylibc/stdlib/strtoul.c:65-79 | its value is its place in the row of digits |
| `Numbers.NextDigit` | lib/mylibc/stdlib/strtoul.c:65-79 | reducing modulo 2^32 after every digit is reducing once |
| `Numbers.DigitsBack` | lib/mylibc/stdlib/strtoul.c:65-79 | reading the digits of n gives n, whatever follows |
| `Numbers.UnsignedRoundTrip` | lib/mylibc/stdlib/strtoul.c:32-85 | strtoul reads back what number prints for every 32-bit value in base 10 and 16, given the base or finding it, when the field begins with neither a blank nor a sign nor a prefix that base 16 does not skip; otherwise it reads 0 |
| `Numbers.StrtolRoundTrip` | lib/mylibc/stdlib/strtol.c:32-96 | strtol does so too, and takes the sign; the value is read as a signed 32-bit number |
| `Numbers.SignedRoundTrip` | lib/mylibc/stdlib/strtol.c:32-96 | strtol reads back every signed 32-bit value in base 10 and 16 under the same condition |
| `Checksum.TwoFolds` | net/net_core.c:937-938 | two folds bring every 32-bit sum to 16 bits without changing it modulo 0xffff |
| `Checksum.CksumIsOnesSum` | net/net_core.c:929-940 | for up to 65537 words the checksum is the one's complement sum |
| `Checksum.NetCksum` | net/net_core.c:929-940 | the loop computes the checksum of the words |
| `Checksum.Finished` | net/net_core.c:1042 | storing the complement of the checksum in a zero field makes the header pass |
| `Checksum.Net.SetIpHeader` | net/net_core.c:1005-1024 | the fields of the IP header, in network order, with a zero checksum and the next identification |
| `Checksum.Net.SetUdpHeader` | net/net_core.c:1026-1048 | the header passes NetCksumOk; the odd byte is zeroed; lengths, ports, identification and flags stand there in network order, the data are kept |
| `Checksum.Net.SetIcmpHeader` | net/ping.c:19-39 | the IP header and the ICMP message both pass; lengths, identification and sequence number stand there in network order |
| `Checksum.Net.EchoReply` | net/ping.c:92-110 | the IP header and the covered words of the ICMP message pass; the whole message, padded with a zero byte, passes if and only if its length is even or its last byte is 0; addresses are exchanged, the fragment field is cleared, the other fields are kept |
| `StringWords.NullAt` | lib/mylibc/string/strlen.c:40-44 | DETECTNULL on a word of memory tells whether it holds the end of the string |
| `StringWords.Strlen` | lib/mylibc/string/strlen.c:26-55 | the length, for every alignment |
| `StringWords.Strchr` | lib/mylibc/string/strchr.c:29-86 | the first place of the character, the end for 0, None exactly if it does not occur |
| `StringWords.SameWord` | lib/mylibc/string/strncmp.c:53-63 | equal words settle the comparison or let it go on behind them |
| `StringWords.Strncmp` | lib/mylibc/string/strncmp.c:27-80 | the same result as the comparison byte by byte |
| `StringWords.FirstDifference` | lib/mylibc/string/strncmp.c:27-80 | the first bytes that differ within n and before the end decide, as unsigned numbers; if there are none the result is 0 |
| `StringWords.CopiedByteIs` | lib/mylibc/string/strncpy.c:69-78 | byte k of the copy is the source byte if no end has come before, otherwise 0 |
| `StringWords.Strncpy` | lib/mylibc/string/strncpy.c:32-82 | every byte of the destination is the source byte up to its end and then 0; nothing else is written |
| `StringWords.MemCpy` | lib/mylibc/string/memcpy.c:44-94 | for every alignment, length and overlap the effect is that of the ascending copy byte by byte |
| `StringWords.CopiedIntact` | lib/mylibc/string/memcpy.c:44-94 | that copy moves the bytes unchanged if the destination does not begin inside the source, and changes no other |
| `Permutations.Enumerator.Permute` | app/spi_test.c:73-88 | the array is restored, and what is printed is the list that the recursion describes |
| `Permutations.PrintedAre` | app/spi_test.c:73-88 | every line is a permutation of the first characters, with the rest in place |
| `Permutations.AllPrinted` | app/spi_test.c:73-88 | every permutation is printed |
| `Permutations.EachOnce` | app/spi_test.c:73-88 | with distinct characters no line is printed twice, and there are n! of them |
| `MatrixMultiply.Normal` | app/mm.c:360-370 | the plain loops compute the product |
| `MatrixMultiply.Unroll` | app/mm.c:386-460 | so do the loops unrolled by 4, 8 and 16, for every size |
| `MatrixMultiply.Transpose` | app/mm.c:479-496 | so does the product with the transposed matrix |
| `MatrixMultiply.RegLoops` | app/mm.c:499-515 | so do the interchanged loops |
| `MatrixMultiply.Tiling` | app/mm.c:519-541 | so do the tiled loops, for every positive step |
| `MatrixMultiply.Maeno` | app/mm.c:556-596 | so does the method of Maeno, for the sizes and block sizes that are accepted |
| `MatrixMultiply.Warner` | app/mm.c:599-654 | so does the method of Warner, for the sizes and block sizes that are accepted |

## Left out

- The allocator's mmap, WIN32 and DEBUG code, its statistics, `mallopt`, and the fencepost path for a foreign `sbrk`: nobody else calls `sbrk` in the model, and `HAVE_MMAP` is not defined in this build.
- `calloc`, `valloc`, `pvalloc` and `malloc_usable_size`: `calloc` skips clearing fresh memory on an assumption that `mem_malloc_init` does not establish; the others only forward.
- Malloc.Allocator.Malloc: requests so close to 2^31 that padding and page rounding leave the signed range are a precondition (`Malloc.Servable`), and the heap is smaller than 2^31 bytes, above `av_`, and not the last bytes of the address space.
- Malloc.Allocator.TrimTop: where `sbrk` clears memory below the heap that is not the allocator's, the model says only what becomes of the allocator.
- Malloc.Allocator.AlignedAlloc: the alignment is a power of two, as the source demands of its callers; the mask with its negation is modelled as rounding to a multiple of it.
- Malloc.Allocator.MemCpy: copies whole words at aligned addresses, the only way `realloc` uses it, on the allocator's memory of words; the byte loop of `memcpy` is then never entered. `StringWords.MemCpy` is the whole function on bytes.
- Malloc.Allocator.Alloc: which of several smallest fits of the same size is taken is not stated; the allocator's comments call their least-recently-used order approximate.
- TwoWay.TwoWayLongNeedle: `memcmp` and the byte comparisons through `CANON_ELEMENT` are comparisons of sequences of bytes; the variants that fold case, and `strstr`, which searches a NUL-terminated haystack, are not modelled.
- Reassembly.Reassembler.Deliver: fragments do not straddle holes, and nothing arrives after completion; the buffer is large enough for the payload and one descriptor behind it.
- Reassembly.Reassembler.Defragment: the packet is a sequence of bytes whose length covers the length field of its header, and the static buffer is shorter than 0xffff bytes.
- TftpTransfer.EveryRun: block sizes from 8 to 1468, files of at most 65535 blocks, no OACK after the first DATA (`TftpTransfer.LateOackExact` says when one does harm), no ERROR packets; the server may send a block whenever the one before has been acknowledged, which allows more than a server that keeps one current block.
- TFTP put and server branches, option strings, ports, progress marks and the strings of the request packet; a repeated request is assumed to reach one and the same transfer of the server.
- QuickSort.QSort: the products of counts and widths stay within the array, so they do not overflow.
- HeapSort.Sort: the pseudo-random fill and the timing around the loop are not modelled; the loop is proved for every content and every size from 2 on.
- Numbers.Number: the limit `end` of the output buffer and output without a buffer are not modelled; the field is the string that is produced.
- Numbers.Strtol: the products are taken modulo 2^32, as the compiled code does, where the language leaves signed overflow open.
- Printf parsing of formats, `%f`, `%g` and the argument list.
- Ethernet headers, ARP, the sending of packets and the reading of clocks.
- StringWords.Strncmp: both strings are readable for n bytes or up to their end, and memory ends with a whole aligned word.
- MatrixMultiply.Unroll: the three functions unroll4, unroll8 and unroll16 are one method with the factor as a parameter; pnsq, tnsq and robert, which differ from modelled ones in pointers or in a temporary, are left out.
- MatrixMultiply.Normal: numbers are exact; floating-point rounding is not modelled.
- Floating-point code, drivers, interrupts, boot code and assembly.
