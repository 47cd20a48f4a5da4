# Verified models of the riscv-tests support code

riscv-tests is a collection of programs that exercise RISC-V cores: C benchmarks, kernels for
several cores, boot code, and the Python scripts around them. This project models the algorithmic
parts of that code in Dafny and proves that they do what they are for. `dafny verify dfyconfig.toml`
checks all of it.

A C pointer is an array and an index. Element arithmetic of the matrix kernels is exact. Code that
works in place is a method over arrays or objects, specified by a function or a predicate whose
properties are proved beside it; the multi-core protocol is a step system over all schedules.

| file | what it models |
|---|---|
| `Barrier` | the sense-reversing barrier of `util.h`, for any number of cores, calls and schedules |
| `Matrix`, `TransposeKernel`, `CopyKernel`, `Interleaving` | two multiply kernels that fill a shared buffer together and read it after a barrier, in every interleaving |
| `MatView`, `BlockedMatmul`, `CacheBlocking` | the register- and cache-blocked multiply of `mm.c` and `rb.h` |
| `CyclicMatmul`, `RowKernels`, `MirroredMatmul` | kernels that share out the rows of C: cores that walk around the columns, cores with every n-th row or group of rows, and a core that runs all loops backwards |
| `RowInterleaving` | two of these, which add to C in place, in every interleaving of their loads and stores |
| `QuickSort`, `RadixSort` | the two sorting benchmarks |
| `DaisyChain` | the multiplexer that presents several remote-bitbang TAPs as one chain |
| `RcfImage`, `BootStream`, `BootReplay`, `RcfText` | the image converter, its command stream, and the boot ROM that reads such streams |
| `Hanoi`, `Towers` | Towers of Hanoi on linked lists that share one pool of nodes |
| `Crc32` | the checksum that is computed on the target, against the table-driven one of RFC 1952 |
| `GdbValue` | the parser of values that gdb prints |
| `Pmp` | encoding, decoding and page tables of the PMP program |
| `Partition` | how the multi-core copy and vector programs deal out their elements |
| `Numbers`, `Format` | number printing and reading of the C runtime, and its formatted output |
| `Memory` | `memcpy` and `memset`, which work on words where the addresses allow it |
| `Arith` | integer arithmetic that several proofs use |

## Results about the code that a reader may not expect

- The comment at `rbb_daisychain.py:52` says that TDO is read before every scan; the code appends the
  read after the scan. The model follows the code. With TAPs that change TDO only while TCK falls and take
  TDI only while it rises, the multiplexer is still the chain on a board, in which all TAPs shift at the same
  moment (`SynchronousChain`). For other TAPs `SynchronousExactly` gives the exact condition, link by link,
  and `ReadingsDiffer` a chain that breaks it.
- `pmp_ok` computes the ends of a region modulo the word size. `JudgedExactly` says for which regions and
  accesses this differs from section 3.7.1 of the RISC-V Privileged Architecture; the last word of memory
  is one of them (`LastWordMisjudged`).
- A format of `vprintfmt` may end inside an escape sequence: `fmt` is then one beyond the terminating zero,
  but goes back to the percent sign, and the sequence is printed as it stands (`CutOffIsLiteral`).
- The converter writes other command words than the boot ROM compares with, so the ROM traps on every
  stream (`BootRomTrapsOnScript`). With equal command words the ROM, which compares the end address with
  the end of RAM less one word, accepts an image with erased gaps that starts at the base of RAM exactly
  if it leaves the last word free (`WholeRamTraps`).
- The final `memcpy` of the radix sort copies in the wrong direction; it is never reached for an even
  number of passes, and the function sorts exactly the even byte widths (`EvenWidthsOnly`).
- The size field of the free list is never updated by the list operations of the towers benchmark; no
  operation depends on it.
- The flag for padding on the right makes `%d` put minus signs on the left. `ReadsBackExactly` lists when
  `atol` still reads the number back.
- `mt-memcpy.c` leaves its array for too many cores, `vvadd0.c` leaves elements out for large remainders,
  and `vvadd3.c` serves no remainder; `CopyExact`, `RestExact` and `BlocksExact` give the exact conditions.

## Model

| member | source | states |
|---|---|---|
| Barrier.StepKeepsInv | riscv-tests/benchmarks/common/util.h:60-78 | every atomic step of every thread keeps the protocol invariant |
| Barrier.ReachableInv | riscv-tests/benchmarks/common/util.h:60-78 | every schedule from the start leads to a state with the invariant |
| Barrier.Safety | riscv-tests/benchmarks/common/util.h:68-75 | no thread returns from its k-th call before every thread has arrived for the k-th time, and threads are at most one round apart |
| Barrier.ResetErasesNothing | riscv-tests/benchmarks/common/util.h:69-73 | when `count` is cleared it equals the number of cores and all have arrived; while `sense` is written all others spin; otherwise `count` is the number of arrivals of the round |
| Barrier.SomeoneCanMove | riscv-tests/benchmarks/common/util.h:68-75 | unless all calls are done, some thread has a step that is no idle spin |
| Barrier.TurnDecreases | riscv-tests/benchmarks/common/util.h:68-75 | every step that is no idle spin lowers the number of steps left |
| Barrier.Progress | riscv-tests/benchmarks/common/util.h:60-78 | from every reachable state all threads can finish equally many calls |
| Barrier.MovesBounded | riscv-tests/benchmarks/common/util.h:60-78 | no schedule, fair or not, makes more than five moves per call and core |
| TransposeKernel.ReadsTransposed | riscv-tests/mt/ae_matmul.c:38-44 | after the last fill barrier the shared buffer is the transpose of B |
| TransposeKernel.StaysInside | riscv-tests/mt/ae_matmul.c:38-108 | no step reads or writes outside A, B, the buffer or C |
| TransposeKernel.OwnStep | riscv-tests/mt/ae_matmul.c:38-108 | each step of a core keeps what its position in the program says about the buffer, its accumulators and its part of C |
| TransposeKernel.OwnStable | riscv-tests/mt/ae_matmul.c:38-108 | no step of one core disturbs what another core relies on |
| TransposeKernel.OwnFinal | riscv-tests/mt/ae_matmul.c:46-108 | a core that is done has the product in all its rows of C |
| CopyKernel.BufferFull | riscv-tests/mt/dm_matmul.c:17-27 | after the barrier the shared buffer is all of B, whichever core filled it |
| CopyKernel.StaysInside | riscv-tests/mt/dm_matmul.c:17-196 | no step reads or writes outside A, B, the buffer or C |
| CopyKernel.OwnStep | riscv-tests/mt/dm_matmul.c:17-191 | each step of a core keeps what its position in the program says about buffer, tile and C |
| CopyKernel.OwnStable | riscv-tests/mt/dm_matmul.c:17-191 | no step of one core disturbs another core |
| CopyKernel.OwnFinal | riscv-tests/mt/dm_matmul.c:52-191 | a core that is done has added the product to all its rows of C |
| Interleaving.BarrierOrders | riscv-tests/benchmarks/common/util.h:60-78 | a core that has returned from p calls finds the work before the p-th call of every core done |
| Interleaving.TurnKeepsInv | riscv-tests/mt/ae_matmul.c:38-108 | every step of the kernel or of the barrier, of any core, keeps the joint invariant of cores, buffer, C and barrier |
| Interleaving.TransposeReadsRight | riscv-tests/mt/ae_matmul.c:38-44 | in every schedule a core past the fill phase reads the transpose of B everywhere in the buffer |
| Interleaving.CopyReadsRight | riscv-tests/mt/dm_matmul.c:17-51 | in every schedule a core past the barrier reads B everywhere in the buffer |
| Interleaving.TransposeMultiplies | riscv-tests/mt/ae_matmul.c:6-110 | in every schedule, once all cores are done, C = A * B |
| Interleaving.CopyMultiplies | riscv-tests/mt/dm_matmul.c:6-196 | in every schedule, once all cores are done, C = C0 + A * B |
| Interleaving.SomeoneCanMove | riscv-tests/mt/ae_matmul.c:38-108 | unless the kernel is done some core has a turn that changes something |
| Interleaving.TurnGetsCloser | riscv-tests/mt/ae_matmul.c:38-108 | every turn that changes anything, of the kernel or the barrier, lowers the number of turns left |
| Interleaving.AllMovesBounded | riscv-tests/mt/ae_matmul.c:38-108 | no schedule, fair or not, makes more moves than the kernel has steps and five for each barrier call of each core |
| Interleaving.Progress | riscv-tests/mt/ae_matmul.c:38-108 | from every reachable state some continuation completes the kernel |
| MatView.AddRows | riscv-tests/benchmarks/mm/mm.c:37-43 | a multiply is the sum of the multiplies of a split of its rows |
| MatView.AddCols | riscv-tests/benchmarks/mm/mm.c:39-41 | the same for a split of its columns |
| MatView.AddInner | riscv-tests/benchmarks/mm/mm.c:100-114 | the same for a split of the inner dimension |
| MatView.Submatrix | riscv-tests/benchmarks/mm/mm.c:96-138 | which elements of a strided window a submatrix holds, and at which row and column |
| BlockedMatmul.AddedIsElementwise | riscv-tests/benchmarks/mm/mm.c:11-31 | "the product is added inside the window and nothing else changes" says the same as the triple loop, element by element |
| BlockedMatmul.InnerProduct | riscv-tests/benchmarks/mm/mm.c:18-28 | four partial sums and a rest give the whole inner product |
| BlockedMatmul.Naive | riscv-tests/benchmarks/mm/mm.c:11-31 | adds a * b inside the window and changes nothing else |
| BlockedMatmul.RankStep | riscv-tests/benchmarks/mm/rb.h:29-187 | one term of all twenty accumulators advances every inner product of the tile by one |
| BlockedMatmul.SixTerms | riscv-tests/benchmarks/mm/rb.h:29-161 | the unrolled loop body advances the tile by six terms |
| BlockedMatmul.Kloop | riscv-tests/benchmarks/mm/rb.h:3-210 | the register tile adds its 4 x 5 product to C, for every inner length |
| BlockedMatmul.RbTiles | riscv-tests/benchmarks/mm/mm.c:39-40 | the tiles of four rows add their part of the product |
| BlockedMatmul.RbRows | riscv-tests/benchmarks/mm/mm.c:37-42 | four rows: tiles of five columns and the columns left over |
| BlockedMatmul.Rb | riscv-tests/benchmarks/mm/mm.c:33-44 | the multiply with register tiles adds a * b for all sizes and strides |
| BlockedMatmul.Repack | riscv-tests/benchmarks/mm/mm.c:46-72 | copies a strided matrix into another, and nothing outside |
| CacheBlocking.BlkApart | riscv-tests/benchmarks/mm/mm.c:84-94 | packed blocks of different block coordinates do not overlap |
| CacheBlocking.PackBlocks | riscv-tests/benchmarks/mm/mm.c:84-94 | after packing, every block of the buffer is the block of the matrix |
| CacheBlocking.InBlock | riscv-tests/benchmarks/mm/mm.c:96-106 | an element lies in a block of C and in the packed block alike, at the same row and column |
| CacheBlocking.FreshlyPacked | riscv-tests/benchmarks/mm/mm.c:92-94 | right after packing, C read through the packed buffer is C |
| CacheBlocking.PackedAdds | riscv-tests/benchmarks/mm/mm.c:102-106 | a product added to a packed block is added to that block of the matrix and nowhere else |
| CacheBlocking.EdgeAdds | riscv-tests/benchmarks/mm/mm.c:115-138 | a product added to C outside the packed area is added to the matrix as it is |
| CacheBlocking.AddPacked | riscv-tests/benchmarks/mm/mm.c:100-106 | one product of packed blocks adds the product of the blocks of A and B |
| CacheBlocking.AddRest | riscv-tests/benchmarks/mm/mm.c:107-113 | the inner terms that fill no block are added from A and B themselves |
| CacheBlocking.AddBlock | riscv-tests/benchmarks/mm/mm.c:98-114 | a whole block of C grows by its full product |
| CacheBlocking.AddStrip | riscv-tests/benchmarks/mm/mm.c:115-125 | a strip of the right or lower edge grows by its full product |
| CacheBlocking.AddBand | riscv-tests/benchmarks/mm/mm.c:96-125 | a row of blocks with its right edge grows by its full product |
| CacheBlocking.AddBottom | riscv-tests/benchmarks/mm/mm.c:126-138 | the rows below the last block grow by their full product |
| CacheBlocking.AddAll | riscv-tests/benchmarks/mm/mm.c:96-138 | all of C, spread over two buffers, grows by a * b |
| CacheBlocking.UnpackBlocks | riscv-tests/benchmarks/mm/mm.c:140-142 | unpacking puts the spread-out matrix back together |
| CacheBlocking.Cb | riscv-tests/benchmarks/mm/mm.c:74-143 | the cache-blocked multiply adds a * b inside the window and changes nothing else |
| CacheBlocking.Mm | riscv-tests/benchmarks/mm/mm.c:145-152 | the multiply of matrices of any size and stride does |
| CyclicMatmul.Tile | riscv-tests/mt/ck_matmul.c:24-56 | eight accumulators add the product of a 4 x 2 tile |
| CyclicMatmul.Block | riscv-tests/mt/ck_matmul.c:22-57 | a block of sixteen by sixteen grows by its product |
| CyclicMatmul.SeenStep | riscv-tests/mt/ck_matmul.c:20-22 | a step around the matrix adds the columns of one block, also across the turn at the last column |
| CyclicMatmul.Band | riscv-tests/mt/ck_matmul.c:18-58 | the walk from any starting column ends after one turn, with every column of sixteen rows done once |
| CyclicMatmul.Core | riscv-tests/mt/ck_matmul.c:16-59 | a core adds the product to its blocks of rows and to nothing else |
| CyclicMatmul.AllCores | riscv-tests/mt/ck_matmul.c:6-60 | all cores, in any order, together leave C0 + A * B |
| RowKernels.AddTerm | riscv-tests/mt/bs_matmul.c:19-22 | one statement of the innermost loop gives one element of C its next term |
| RowKernels.AddGroup | riscv-tests/mt/bs_matmul.c:14-24 | the loops over k and i give four rows all their terms, one or two at a time, and no other row any |
| RowKernels.StridedCore | riscv-tests/mt/bs_matmul.c:9-25 | a core completes every `ncores`-th row and no other |
| RowKernels.StridedAllCores | riscv-tests/mt/bs_matmul.c:6-26 | all cores, in any order, together leave C0 + A * B |
| RowKernels.QuadCore | riscv-tests/mt/ds_matmul.c:9-31 | a core completes every `ncores`-th group of four rows and no other |
| RowKernels.QuadAllCores | riscv-tests/mt/ds_matmul.c:6-32 | all cores, in any order, together leave C0 + A * B |
| RowInterleaving.RowsApart | riscv-tests/mt/bs_matmul.c:9-13 | in both kernels no row belongs to two cores, groups or places in a group |
| RowInterleaving.TermsAdvance | riscv-tests/mt/ds_matmul.c:14-32 | each statement of the unrolled loops, of one or two values of k, gives one element its next term |
| RowInterleaving.TurnKeepsInv | riscv-tests/mt/bs_matmul.c:9-25 | every load and every store of every core keeps what each core knows of its own rows |
| RowInterleaving.Multiplies | riscv-tests/mt/bs_matmul.c:6-26 | in every schedule of loads and stores, once all cores are done, C = C0 + A * B; and so in `ds_matmul.c` |
| RowInterleaving.NobodyWaits | riscv-tests/mt/bs_matmul.c:9-25 | a core has made as many steps as it had turns, until it is done |
| RowInterleaving.CompleteExactly | riscv-tests/mt/bs_matmul.c:6-26 | the kernel is done exactly when every core has had as many turns as its program has steps |
| MirroredMatmul.TileUp | riscv-tests/mt/bh_matmul.c:24-56 | eight elements of a row get one half of their terms, going up |
| MirroredMatmul.TileDown | riscv-tests/mt/bh_matmul.c:65-92 | eight elements, from right to left, get one half of their terms, going down |
| MirroredMatmul.RowDown | riscv-tests/mt/bh_matmul.c:64-93 | a row done from right to left is what it would be from left to right |
| MirroredMatmul.PassUp | riscv-tests/mt/bh_matmul.c:21-59 | the upper half of C gets one half of its terms, from top to bottom |
| MirroredMatmul.PassDown | riscv-tests/mt/bh_matmul.c:62-95 | the lower half of C gets one half of its terms, from bottom to top |
| MirroredMatmul.Core | riscv-tests/mt/bh_matmul.c:14-97 | core 0 completes the upper half, core 1 or the only core the lower one, other cores nothing |
| MirroredMatmul.AllCores | riscv-tests/mt/bh_matmul.c:6-97 | any number of cores, the first two in either order, leave C0 + A * B |
| QuickSort.InsertionSort | riscv-tests/benchmarks/qsort/qsort_main.c:42-58 | sorts a subarray, rearranging only inside it |
| QuickSort.Insert | riscv-tests/benchmarks/qsort/qsort_main.c:46-57 | one round puts an element into the sorted part before it |
| QuickSort.MedianOfThree | riscv-tests/benchmarks/qsort/qsort_main.c:89-94 | the median of three becomes the pivot between a sentinel on each side |
| QuickSort.ScanUp | riscv-tests/benchmarks/qsort/qsort_main.c:104 | the unguarded upward scan stops inside the subarray, at the first element not below the pivot |
| QuickSort.ScanDown | riscv-tests/benchmarks/qsort/qsort_main.c:105 | the unguarded downward scan stops inside the subarray, at the first element not above the pivot |
| QuickSort.Round | riscv-tests/benchmarks/qsort/qsort_main.c:103-108 | a round of both scans either crosses or swaps and keeps the sentinels |
| QuickSort.Partition | riscv-tests/benchmarks/qsort/qsort_main.c:87-112 | splits a subarray into not greater, equal and not smaller elements, rearranging only inside it |
| QuickSort.CutStays | riscv-tests/benchmarks/qsort/qsort_main.c:87-112 | rearranging a subarray keeps every boundary outside it |
| QuickSort.SplitDivides | riscv-tests/benchmarks/qsort/qsort_main.c:115-129 | the two pieces and what is on the stack still cover every unsorted boundary |
| QuickSort.SortedLeaves | riscv-tests/benchmarks/qsort/qsort_main.c:76-86 | a sorted subarray may be dropped from what is left to do |
| QuickSort.HalvesShrink | riscv-tests/benchmarks/qsort/qsort_main.c:115-129 | pushing the larger piece keeps the k-th pending subarray below n / 2^k and lowers the work left |
| QuickSort.RoomToPush | riscv-tests/benchmarks/qsort/qsort_main.c:113-129 | a push never leaves the stack when the stack is deep enough |
| QuickSort.SplitAndPush | riscv-tests/benchmarks/qsort/qsort_main.c:87-130 | partitioning and pushing keep the driver's invariant and lower the work left |
| QuickSort.Sort | riscv-tests/benchmarks/qsort/qsort_main.c:67-132 | ends with a sorted permutation, for every array whose size the stack admits |
| QuickSort.DocumentedStackEnough | riscv-tests/benchmarks/qsort/qsort_main.c:23-26 | a stack of 2 lg n entries, as documented, is deep enough |
| QuickSort.NstackEnough | riscv-tests/benchmarks/qsort/qsort_main.c:26 | the stack of fifty entries meets the bound exactly for n < 12 * 2^24 - 1 |
| RadixSort.PassPermutes | riscv-tests/benchmarks/rsort/rsort.c:43-93 | a pass permutes its input |
| RadixSort.PassStable | riscv-tests/benchmarks/rsort/rsort.c:69-89 | elements with the same digit keep their order |
| RadixSort.PassesSorted | riscv-tests/benchmarks/rsort/rsort.c:41-96 | after k passes the array is a permutation ordered by its k low digits |
| RadixSort.CountDigits | riscv-tests/benchmarks/rsort/rsort.c:43-58 | the counting loops count every digit, in steps of four and a rest |
| RadixSort.AddUp | riscv-tests/benchmarks/rsort/rsort.c:60-67 | the running sums are the ends of the buckets |
| RadixSort.BucketsApart | riscv-tests/benchmarks/rsort/rsort.c:69-89 | every place of the other buffer belongs to one bucket |
| RadixSort.ScatterStep | riscv-tests/benchmarks/rsort/rsort.c:75-89 | every scatter stays in bounds and fills the next free place of its bucket from the back |
| RadixSort.Scatter | riscv-tests/benchmarks/rsort/rsort.c:69-89 | scattering from the back makes the other buffer the stable pass |
| RadixSort.Sort | riscv-tests/benchmarks/rsort/rsort.c:32-99 | the input array ends as the passes make it, for any number of bytes in the element type |
| RadixSort.SortsWords | riscv-tests/benchmarks/rsort/rsort.c:32-99 | four passes sort 32-bit words |
| RadixSort.EvenWidthsOnly | riscv-tests/benchmarks/rsort/rsort.c:97-98 | elements of a number of bytes are sorted exactly if that number is even |
| DaisyChain.ReadsOfRewrite | riscv-tests/debug/rbb_daisychain.py:38-55 | the batch for every TAP but the last asks for one reply per scan, that of the last for the replies the client asked for |
| DaisyChain.RepliesPerScan | riscv-tests/debug/rbb_daisychain.py:56 | so the list of values is used up exactly and the assertion always holds |
| DaisyChain.ScanIs | riscv-tests/debug/rbb_daisychain.py:41 | the commands '0' to '7' are the eight settings of TCK, TMS and TDI |
| DaisyChain.SetTdiWires | riscv-tests/debug/rbb_daisychain.py:42-46 | TDI becomes the reply of the TAP before, and TCK and TMS stay as the client set them |
| DaisyChain.RewriteKeepsWires | riscv-tests/debug/rbb_daisychain.py:38-55 | every rewritten batch has the client's TCK, TMS and other commands in their order |
| DaisyChain.RewriteSetsTdi | riscv-tests/debug/rbb_daisychain.py:38-55 | its bits of TDI are the replies in their order, or for the first TAP the client's |
| DaisyChain.AllTapsSee | riscv-tests/debug/rbb_daisychain.py:36-61 | so every TAP of the chain sees the client's TCK, TMS and other commands, whatever the TAPs answer |
| DaisyChain.FirstTapApart | riscv-tests/debug/rbb_daisychain.py:38-61 | clocking the first TAP alone and feeding its replies to the rest is clocking them together |
| DaisyChain.BatchIsLockStep | riscv-tests/debug/rbb_daisychain.py:36-61 | one TAP after the other with rewritten batches equals all TAPs clocked command by command, each with the TDO that the TAP before shows after its own scan |
| DaisyChain.SplitAnywhere | riscv-tests/debug/rbb_daisychain.py:91-105 | where the client's stream is cut between two receives changes neither states nor replies |
| DaisyChain.OneReplyPerRead | riscv-tests/debug/rbb_daisychain.py:36-61 | the client gets one reply for each of its read commands |
| DaisyChain.ScanAgreesExactly | riscv-tests/debug/rbb_daisychain.py:51-53 | one scan of the code is one scan of the chain on a board, with TDO read before the scan, exactly if for each two neighbours the first holds its TDO bit or the second does not look at it |
| DaisyChain.SynchronousExactly | riscv-tests/debug/rbb_daisychain.py:36-61 | after each part of a batch states and replies are those of the chain on a board exactly if this holds in every scan |
| DaisyChain.SynchronousChain | riscv-tests/debug/rbb_daisychain.py:36-61 | with TAPs that keep to both edges of TCK every batch gives the states and replies of the chain on a board |
| DaisyChain.RegisterIsJtag | riscv-tests/debug/rbb_daisychain.py:51-53 | a shift register with both edges is such a TAP |
| DaisyChain.RegisterShifts | riscv-tests/debug/rbb_daisychain.py:51-53 | and what it takes at one edge it shows after the next |
| DaisyChain.ReadingsDiffer | riscv-tests/debug/rbb_daisychain.py:51-53 | two registers without the second edge both take a bit in one scan of the code, and one of them on a board |
| DaisyChain.Tap.Execute | riscv-tests/debug/rbb_daisychain.py:15-26 | a TAP runs its batch and answers its read commands |
| DaisyChain.Chain.RewriteFor | riscv-tests/debug/rbb_daisychain.py:39-56 | the loop over the commands builds the rewritten batch |
| DaisyChain.Chain.Append | riscv-tests/debug/rbb_daisychain.py:33-34 | a TAP joins the end of the chain |
| DaisyChain.Chain.Execute | riscv-tests/debug/rbb_daisychain.py:36-61 | the call leaves the TAPs as in lock step and returns the replies of the last one; with TAPs that keep to both edges, as the chain on a board |
| RcfImage.CollapseWords | riscv-tests/python/ihex2rcf.py:107-122 | bytes become words, blank words stay undefined, and a partly defined word is an error or filled from the default |
| RcfImage.FlatDump | riscv-tests/python/ihex2rcf.py:204-225 | the flat mode writes the collapsed words with the default in the blanks, and fails for the same images |
| RcfImage.WordBytes | riscv-tests/python/ihex2rcf.py:113-122 | read back byte by byte, a word holds the bytes of the file in order, and bytes of the default word where the file has none |
| RcfImage.FlatBytes | riscv-tests/python/ihex2rcf.py:204-225 | byte by byte the flat image is the file, and the default word elsewhere; a word is blank exactly if the file has none of its bytes |
| RcfImage.FindSegments | riscv-tests/python/ihex2rcf.py:124-151 | succeeds exactly if a word is defined; the segments lie in order, each begins with a defined word and ends behind one or with the image, a run of 16 blank bytes or more separates them and none lies inside, and they hold all defined words |
| BootStream.GapBytes | riscv-tests/python/ihex2rcf.py:124-151 | at least sixteen bytes lie between two dump segments, and less than sixteen blank ones in a row within one |
| BootStream.WriteDumps | riscv-tests/python/ihex2rcf.py:153-167 | the dump commands of all segments in order |
| BootStream.WriteErases | riscv-tests/python/ihex2rcf.py:169-200 | the erase commands of the gaps before, between and behind the segments |
| BootStream.Convert | riscv-tests/python/ihex2rcf.py:79-225 | which error or which stream the whole conversion ends in |
| BootReplay.Tiled | riscv-tests/python/ihex2rcf.py:124-200 | dumped and erased words are disjoint and cover the range |
| BootReplay.GapsBlank | riscv-tests/python/ihex2rcf.py:169-200 | erased words are all blank |
| BootReplay.DefinedIsDumped | riscv-tests/python/ihex2rcf.py:128-151 | every defined word is dumped |
| BootReplay.BootDumps | riscv-tests/gcc/bootrom/src/start.S:144-171 | the loader consumes dump commands one by one and stores their words |
| BootReplay.BootErases | riscv-tests/gcc/bootrom/src/start.S:173-201 | and the same for erase commands |
| BootReplay.Replay | riscv-tests/python/ihex2rcf.py:153-225 | a loader with the script's command words turns the stream into the words of the flat mode, everywhere if gaps are erased, and traps exactly on a segment it rejects |
| BootReplay.LoadedBytes | riscv-tests/python/ihex2rcf.py:107-201 | after booting, memory holds every byte of the file in the range of the image, and with erased gaps the bytes of the default word everywhere else in it |
| BootReplay.DumpsAcceptedExactly | riscv-tests/gcc/bootrom/src/start.S:156-161 | the loader accepts all dumps exactly if the first starts and the last ends within its bounds |
| BootReplay.ErasedAcceptedExactly | riscv-tests/gcc/bootrom/src/start.S:184-190 | with erased gaps, exactly if the whole range lies within its bounds |
| BootReplay.BootRomTrapsOnScript | riscv-tests/gcc/bootrom/src/start.S:131-142 | the ROM's own command words make it trap on every stream of the script |
| BootReplay.WholeRamTraps | riscv-tests/gcc/bootrom/src/start.S:124-126 | with equal command words an erased image from the base of RAM boots exactly if it is a word shorter than RAM |
| RcfText.BinWordReadsBack | riscv-tests/python/ihex2rcf.py:72-76 | the binary text of a word reads back as the word, and has the given width exactly if the word fits it |
| RcfText.TextReadsBack | riscv-tests/python/ihex2rcf.py:225-231 | the lines of a file read back as the words written |
| Hanoi.MoveCount | riscv-tests/benchmarks/towers/towers_main.c:140-158 | the recursion makes 2^n - 1 moves |
| Hanoi.MovesCarry | riscv-tests/benchmarks/towers/towers_main.c:140-158 | the moves carry the n top discs over in order and leave the rest |
| Hanoi.MovesLegal | riscv-tests/benchmarks/towers/towers_main.c:16-18 | none of them puts a disc onto a smaller one |
| Hanoi.AllowedStacked | riscv-tests/benchmarks/towers/towers_main.c:16-18 | a move obeys the rule exactly if it leaves all pegs in order |
| Hanoi.LegalStacked | riscv-tests/benchmarks/towers/towers_main.c:16-18 | at every moment of a legal run the pegs are in order |
| Towers.List.Push | riscv-tests/benchmarks/towers/towers_main.c:53-71 | the first free node moves to the front of the list, with the value |
| Towers.List.Pop | riscv-tests/benchmarks/towers/towers_main.c:73-93 | the first node moves back to the free list, and its value is returned |
| Towers.List.Clear | riscv-tests/benchmarks/towers/towers_main.c:95-99 | all nodes go to the free list; other lists stay as they are |
| Towers.Apart | riscv-tests/benchmarks/towers/towers_main.c:39-40 | while nodes are conserved no node is on two lists |
| Towers.Transfer | riscv-tests/benchmarks/towers/towers_main.c:147-151 | a pop and a push through the free list move one node and one value |
| Towers.Towers.constructor | riscv-tests/benchmarks/towers/towers_main.c:104-120 | three empty pegs beside a free list that holds the pool |
| Towers.Towers.MoveDisc | riscv-tests/benchmarks/towers/towers_main.c:147-151 | one move on the heap is one move of the puzzle, and nodes are conserved |
| Towers.Towers.SolveH | riscv-tests/benchmarks/towers/towers_main.c:140-158 | the recursion performs exactly the moves of the puzzle, logged in order |
| Towers.Towers.Solve | riscv-tests/benchmarks/towers/towers_main.c:160-163 | all discs end on peg C after 2^n - 1 legal moves |
| Towers.Towers.Init | riscv-tests/benchmarks/towers/towers_main.c:113-127 | n discs on peg A, if there are n free nodes; no node is lost exactly if the pegs were empty |
| Towers.Towers.Clear | riscv-tests/benchmarks/towers/towers_main.c:129-138 | the pool suffices for a fresh start whatever the pegs held |
| Towers.Towers.Verify | riscv-tests/benchmarks/towers/towers_main.c:165-194 | which code is returned when; zero exactly if the puzzle is solved and 2^n - 1 moves were made |
| Towers.BuildPool | riscv-tests/benchmarks/towers/towers_main.c:206-214 | the free list holds each node of the pool once |
| Towers.Benchmark | riscv-tests/benchmarks/towers/towers_main.c:199-233 | the program returns zero for every number of discs, with the extra first solution or without |
| Crc32.ReverseBits | riscv-tests/debug/programs/checksum.c:6-13 | bit i of the reversed word is bit 31 - i |
| Crc32.ReverseTwice | riscv-tests/debug/programs/checksum.c:6-13 | reversing twice gives the word back |
| Crc32.ShiftMirrored | riscv-tests/debug/programs/checksum.c:29-31 | the register shifted left is the mirror image of that of RFC 1952, section 8, shifted right |
| Crc32.ComparedShift | riscv-tests/debug/programs/checksum.c:28-33 | comparing top bits shifts register and message like one register |
| Crc32.UpdateShifts | riscv-tests/debug/programs/checksum.c:28-33 | a table look-up stands for eight shifts |
| Crc32.Crc32a | riscv-tests/debug/programs/checksum.c:20-38 | computes the table-driven checksum of RFC 1952, section 8, for every message |
| Crc32.HostContinues | riscv-tests/debug/gdbserver.py:1601 | a checksum can be continued where it stopped |
| Crc32.OneByOneIsCrc | riscv-tests/debug/gdbserver.py:1596-1601 | the host's loop, one byte a call, arrives at the same checksum |
| Crc32.CrcAffine | riscv-tests/debug/programs/checksum.c:20-38 | the checksum is affine over XOR of messages of equal length |
| Crc32.BurstDetected | riscv-tests/debug/gdbserver.py:1623-1629 | a download damaged within four neighbouring bytes always has another checksum |
| GdbValue.ParsePrinted | riscv-tests/debug/testlib.py:651-695 | a printed value, in any run-length form, parses to its meaning, and no token behind it is consumed |
| GdbValue.RunIs | riscv-tests/debug/testlib.py:669-674 | an item with a repeat count stands for that many items, but at least one |
| GdbValue.AnyRunsParse | riscv-tests/debug/testlib.py:665-677 | a list cut anywhere into runs of equal items and printed with their lengths parses to the list |
| GdbValue.AssignIs | riscv-tests/debug/testlib.py:657-659 | assigning a key sets its value and no other; a new key comes last and an old one keeps its place |
| GdbValue.LastValueCounts | riscv-tests/debug/testlib.py:654-662 | of fields with the same key the last one counts |
| GdbValue.ParsedIsPrinted | riscv-tests/debug/testlib.py:651-695 | whatever parses begins with a printed form of the result |
| GdbValue.ParsesExactlyPrinted | riscv-tests/debug/testlib.py:651-695 | the parser accepts exactly the printed values, with their meaning |
| GdbValue.PlainExactly | riscv-tests/debug/testlib.py:686-695 | a lone token is a value exactly if it is a number or a string other than an opening brace |
| GdbValue.ValuePrintable | riscv-tests/debug/testlib.py:651-684 | every value of non-empty dicts with distinct keys, non-empty flat lists and plain tokens has a printed form |
| GdbValue.ParseTokens | riscv-tests/debug/testlib.py:686-695 | the recursive descent on the shared list returns what the grammar says, error by error, and leaves the tokens behind the value |
| GdbValue.ParseDict | riscv-tests/debug/testlib.py:651-663 | the loop over the fields of a struct |
| GdbValue.ParseList | riscv-tests/debug/testlib.py:665-677 | the loop over the items of an array, with repeat counts |
| GdbValue.ParseRhs | riscv-tests/debug/testlib.py:697-702 | succeeds with a value exactly if the whole text is a printed form of it |
| Pmp.NapotRoundTrip | riscv-tests/benchmarks/pmp/pmp.c:152-159 | an aligned power of two, encoded, is decoded to just that range |
| Pmp.RangeRoundTrip | riscv-tests/benchmarks/pmp/pmp.c:143-150 | so is a range given by its bounds, exactly if it does not end at the last byte |
| Pmp.FormsAgree | riscv-tests/benchmarks/pmp/pmp.c:161-170 | both encodings of a range are decoded alike, and to the range exactly if it does not end at the last byte |
| Pmp.ClearOnes | riscv-tests/benchmarks/pmp/pmp.c:73-80 | the loop clears the low ones and doubles the range for each, also when all bits are ones |
| Pmp.Decode | riscv-tests/benchmarks/pmp/pmp.c:70-88 | the region in words of the machine, for every mode |
| Pmp.WordsDecide | riscv-tests/benchmarks/pmp/pmp.c:91-97 | looking at one byte per granule decides for all bytes of an aligned access |
| Pmp.PmpOk | riscv-tests/benchmarks/pmp/pmp.c:65-98 | a load is expected to succeed exactly if the bytes that its address is translated to lie inside the region, with its ends taken modulo the word size, or do not touch it; and this is the judgement of section 3.7.1 of the RISC-V Privileged Architecture on the region itself exactly if the region is not cut wrongly |
| Pmp.JudgedExactly | riscv-tests/benchmarks/pmp/pmp.c:86-97 | for every register contents and every aligned access: both judgements agree unless the access has eight bytes and the region begins in its middle and is cut to end there or before, or an end beyond the last address is cut to the middle |
| Pmp.InsideJudged | riscv-tests/benchmarks/pmp/pmp.c:86-97 | a region that ends below the last address is never judged wrongly |
| Pmp.LastWordMisjudged | riscv-tests/benchmarks/pmp/pmp.c:152-159 | the last word of memory as a region, and an access to the last eight bytes: half of it lies inside, and it is expected to succeed |
| Pmp.InitPt | riscv-tests/benchmarks/pmp/pmp.c:36-50 | each table has one entry, at its place |
| Pmp.LeafFields | riscv-tests/benchmarks/pmp/pmp.c:39 | the entry for the page allows loads and stores in supervisor mode, by section 4.3 of the RISC-V Privileged Architecture |
| Pmp.Sv39Maps | riscv-tests/benchmarks/pmp/pmp.c:38-57 | loads and stores through these tables reach, for exactly the addresses `va2pa` accepts, the address it returns: the page, with the offset kept |
| Pmp.Sv32Maps | riscv-tests/benchmarks/pmp/pmp.c:38-57 | the same with two levels on RV32 |
| Partition.CopyExact | riscv-tests/benchmarks/mt-memcpy/mt-memcpy.c:48-59 | every element is copied once and nothing outside, exactly if nc <= D/nc + D%nc + 1 |
| Partition.CopyPart | riscv-tests/benchmarks/mt-memcpy/mt-memcpy.c:48-59 | a core copies its elements and nothing else |
| Partition.CopyAll | riscv-tests/benchmarks/mt-memcpy/mt-memcpy.c:43-60 | the parts of all cores, in any order, copy the whole array |
| Partition.RestExact | riscv-tests/mt/vvadd0.c:6-13 | every element is summed by one core exactly if the remainder is smaller than a block |
| Partition.BlocksExact | riscv-tests/mt/vvadd3.c:6-9 | blocks alone serve everything exactly if the cores divide the elements |
| Partition.VvAdd0 | riscv-tests/mt/vvadd0.c:4-14 | a core writes the sums of its elements and nothing else |
| Partition.DuffExact | riscv-tests/mt/vvadd3.c:9-21 | the loop entered in the middle does as many elements as the block has, unless the block is empty |
| Partition.VvAdd3 | riscv-tests/mt/vvadd3.c:4-22 | a core writes the sums of its block and nothing else |
| Numbers.DigitsFit | riscv-tests/benchmarks/common/syscalls.c:159-168 | the digit buffer, one element per bit, never overflows, in any base |
| Numbers.SplitDigits | riscv-tests/benchmarks/common/syscalls.c:159-168 | the first loop finds the digits, the last one first |
| Numbers.PrintNum | riscv-tests/benchmarks/common/syscalls.c:156-175 | writes the digits padded on the left to the width |
| Numbers.PrintD | riscv-tests/benchmarks/common/syscalls.c:297-304 | writes the sign and then the padded magnitude |
| Numbers.Atol | riscv-tests/benchmarks/common/syscalls.c:464-483 | skips spaces, takes one sign and folds all characters up to the end |
| Numbers.NeverAbove | riscv-tests/benchmarks/common/syscalls.c:476-480 | on digits no intermediate value exceeds the result |
| Numbers.TextValue | riscv-tests/benchmarks/common/syscalls.c:156-175 | the digits written are worth the number |
| Numbers.TextIsNumeral | riscv-tests/benchmarks/common/syscalls.c:156-175 | in every base up to 36 the digits, with 'a' onwards for those above nine, are the numeral of the number without leading zeros |
| Numbers.PaddedIs | riscv-tests/benchmarks/common/syscalls.c:156-175 | it stands on the right of its field, behind the padding |
| Numbers.SignRead | riscv-tests/benchmarks/common/syscalls.c:464-483 | spaces, a plus sign, a minus sign or none, and digits are read as the number they denote |
| Numbers.ReadsBackExactly | riscv-tests/benchmarks/common/syscalls.c:297-331 | when `atol` reads back what `%d` wrote: unpadded, padded with zeros, padded with spaces without a sign, and for zero padded by one minus sign |
| Memory.OrAligned | riscv-tests/benchmarks/common/syscalls.c:381 | the low bits of several numbers combined with `or` are clear exactly if they are clear in each |
| Memory.StoreLoaded | riscv-tests/benchmarks/common/syscalls.c:386-398 | a word that is loaded and stored leaves the bytes it came from |
| Memory.CopyWords | riscv-tests/benchmarks/common/syscalls.c:382-399 | eight words at a time and then one at a time, every whole number of words is copied and nothing else changes |
| Memory.CopyBytes | riscv-tests/benchmarks/common/syscalls.c:400-405 | the bytewise loop leaves the same memory |
| Memory.Memcpy | riscv-tests/benchmarks/common/syscalls.c:379-407 | in either branch and for every length the destination holds the bytes of the source and nothing else changes, also where the destination overlaps the source from below |
| Memory.PatternIsRun | riscv-tests/benchmarks/common/syscalls.c:412-415 | the word built by shifts holds the byte in every place, for four and for eight bytes |
| Memory.Memset | riscv-tests/benchmarks/common/syscalls.c:409-426 | in either branch and for every length the destination holds the low byte of the value and nothing else changes |
| Format.ReadNumber | riscv-tests/benchmarks/common/syscalls.c:245-250 | reads all digits that follow and stops behind the last one, at the terminating zero at the latest |
| Format.Switch | riscv-tests/benchmarks/common/syscalls.c:215-275 | the jumps back to the switch read flags, width, precision and size; the pointer steps beyond the terminating zero exactly if the sequence is cut off |
| Format.PrintS | riscv-tests/benchmarks/common/syscalls.c:281-295 | a string, cut to the precision and padded to the width on the side that was asked for |
| Format.Convert | riscv-tests/benchmarks/common/syscalls.c:276-344 | each conversion prints its argument and takes it; unknown ones print nothing here |
| Format.VPrintFmt | riscv-tests/benchmarks/common/syscalls.c:197-346 | for every terminated format and all arguments it ends, reads nothing beyond the zero, never starts the outer loop there, and prints what the recursive description says |
| Format.CutOffIsLiteral | riscv-tests/benchmarks/common/syscalls.c:340-343 | a percent sign with any modifiers at the end of the format is printed as it stands |
| Format.QuotedPrints | riscv-tests/benchmarks/common/syscalls.c:335-337 | every text is printed by the format that doubles its percent signs |
| Format.InParts | riscv-tests/benchmarks/common/syscalls.c:205-215 | a format prints what its two parts print one after the other, the second with the arguments that are left, if the first does not end inside a sequence |
| Format.ArgumentIs | riscv-tests/benchmarks/common/syscalls.c:177-195 | the number taken from an argument slot is the one of its range, of 32 bits or with an `l` of 64, signed or not, with the residue of the slot |
| Format.SequenceRead | riscv-tests/benchmarks/common/syscalls.c:216-275 | a flag, a width, a precision, both as digits or as a star, and any number of `l` are read as they are written |
| Format.SignedPrinted | riscv-tests/benchmarks/common/syscalls.c:297-304 | `%d` with all of these prints the numeral of the argument in its field, behind a minus sign if it is negative, and `atol` reads it back exactly as `ReadsBack` lists |
| Format.UnsignedPrinted | riscv-tests/benchmarks/common/syscalls.c:306-333 | `%u`, `%o` and `%x` print the numeral of the argument without sign in base 10, 8 and 16 in its field |
| Format.PointerPrinted | riscv-tests/benchmarks/common/syscalls.c:317-333 | `%p` prints the whole argument in base 16 behind 0x |
| Format.CharacterPrinted | riscv-tests/benchmarks/common/syscalls.c:276-279 | `%c` prints the lowest byte of the argument |
| Format.StringPrinted | riscv-tests/benchmarks/common/syscalls.c:281-295 | `%s` prints the string, cut to the precision, padded behind with spaces for a minus sign and else in front |
| Format.UnknownPrinted | riscv-tests/benchmarks/common/syscalls.c:340-343 | any other sequence is printed as it stands, and arguments taken for its stars stay taken |

## Left out

- Weak memory: the barrier and the kernels are sequentially consistent; the fences around `barrier` are not modelled.
- Floating point: rounding of the matrix kernels, and the floating-point verify functions.
- Integer width: `int`, `size_t` and `long` are unbounded except in `Crc32`, `Pmp`, `Partition`, `Memory` and the arguments of `Format`; loop counters, the shift `1 << numDiscs` and the width and precision in a format do not overflow.
- Numbers.Atol: the value is not wrapped to a `long`; `NeverAbove` shows that a number in range is read without overflow.
- Format.VPrintFmt: argument slots of 64 bits, as on RV64; on RV32 a `long long` takes two.
- Memory.Memcpy: addresses do not wrap, so `d + 8` stays below the end of the address space; a destination that begins inside the source is excluded, as C has it.
- `ae_matmul.c` and `dm_matmul.c` as methods: the cores interleave, so they are step functions over the shared memory, one memory access or accumulation a step.
- Shared buffers of fixed size: `BB[1024]` and `B1[32*32]` are as large as the matrix.
- Loop unrolling: the twenty accumulators of `kloop` are a sequence, and its forty `fma` lines a loop over it; the eight moves of `repack` are a loop.
- `mm` of a window with `ldc < n`, or with C in the same buffer as A or B.
- CyclicMatmul.AllCores: the cores run one after the other in any order; their rows of C do not meet, and interleaved runs are not covered.
- RowKernels.StridedAllCores: the cores run one after the other in any order; `RowInterleaving` has every interleaving.
- RowKernels.QuadAllCores: the cores run one after the other in any order; `RowInterleaving` has every interleaving.
- MirroredMatmul.AllCores: the cores run one after the other; their halves of C do not meet, and interleaved runs are not covered.
- QuickSort.NstackEnough: the bound that is proved to suffice; which arrays would overflow a smaller stack is not said.
- Sockets of `rbb_daisychain.py`: a TAP is a deterministic machine, and R does not change it; printing in debug mode is left out.
- Intel HEX parsing, command-line parsing and file access of `ihex2rcf.py`: the image is a map from addresses to bytes.
- Boot ROM: SPI and GPIO access; the loader is modelled for 32-bit words read from a list.
- The recursion of `towers_solve_h` is for one disc or more.
- `tokenize` of `testlib.py`: the parser starts from tokens, and numbers are exact.
- `pmp.c` with a granule above four bytes, `test_one` and the trap handler, CSR access, and non-canonical addresses.
- `printf`, `sprintf` and the line buffer of `putchar`: the output of `vprintfmt` is a string.
- The string functions of `syscalls.c` besides `strnlen`, which are single loops.
- Partition.VvAdd3: at most n cores; with more the block is empty and the loop runs on, which `DuffExact` says.
- The other kernels and vector programs in `mt`: unrolled forms of those modelled.
- `cf_matmul.c`, `cm_matmul.c` and `af_matmul.c`: cores that add into the same rows, or read past the matrix.
- `verify`, `lfsr` and `insn_len` of `util.h`, and the remaining benchmarks: single loops or expressions.
- Python test control around gdb and OpenOCD, generators and plotting scripts.
