# A verified model of the malloc, histogram, sampling and bit-puzzle labs

Four programs of the course repository are modelled, each in the form its source has, and proved against what its
comments, its tests or its driver promise.

**The malloc package** (`labs/malloclab/mm.c` on `memlib.c`, driven by `mdriver.c`). Memory is one array of bytes.
Headers, footers, payloads and list pointers all live in it, as 4-byte and 8-byte little-endian values, so that
"no operation touches another block's payload" is a statement about addresses. `Blocks` says what it means for the
tags to encode a list of blocks; `Policy` gives first fit, splitting, coalescing, growth and the four entry points as
functions on block lists, with their laws; `Mm.Allocator` carries them out by stores into the bytes, and each method
is proved to do to the memory what the function does to the list. `Walks` holds the two heap walks and `mm_checkheap`;
`Traces` and `TraceLaws` are about whole runs; `Ranges` and `Driver` are the driver's range list, `eval_mm_valid` and
`eval_mm_util`.

**The explicit free list** of the same file: `Links` (pointers in the bytes of free blocks), `FreeListPolicy` (what
happens to blocks and list together, and whole runs of it), `ExplicitList.FreeList` (the stores).

**The parallel histogram** (`labs/threadlab-handout`): `Histogram` is a transition system in which any thread that can
step may step next; `RunThreads` holds the sequential code around it. `Totals` sums over threads.

**Smaller kernels**: `Sampler` (`fcyc.c`) and `Bits` (`bits.c` against `tests.c`).

`dafny verify dfyconfig.toml` checks the whole project.

## How the source is read

- The implicit-list allocator is the one the file header of `mm.c` describes: the `mm_malloc` and `mm_free` bodies kept
  as comments at lines 202-230 and 253-260, and the `return coalesce(bp)` of line 344.
- `mm_init` reserves 16 bytes at line 115 but writes up to byte 31; the model makes the 32-byte request of line 116. The
  stray `d` on line 121 is ignored. `mem_sbrk` reports failure with `(void *)-1` while `mm_init` compares with NULL, so a
  failing first request leads to a store through that value; `Init` then ends in `WildStore`.
- Addresses are offsets from `mem_start_brk`, which is taken to be 8-aligned; NULL is `Null`, or 0 where it is stored in
  memory (no block lies at 0). `uint32_t` truncation, `size_t` wrap-around and the conversion to `int` at the call of
  `mem_sbrk` are written out in `AdjustedSize`, `ExtendSize` and `AsInt`. `PACK` is a sum; `Words.TagBits` says why that
  is the bitwise or.
- Requests are arbitrary 64-bit numbers. `Policy.AdjustedSizeCovers` shows that the rounding is right exactly up to
  `MAX_REQUEST`, 2^32 - 16. Beyond it `mm_malloc` still returns blocks, too small ones: `Policy.MallocLaw` says so for every
  such request, `Policy.HugeRequest` gives one that gets no payload, and `Mm.Allocator.Malloc` shows that one rounded to 0,
  as 2^32 - 15 is, overwrites the footer of the block before it. The explicit list raises every size to 24 bytes, so its
  heap and list survive every request.
- `mm_realloc` calls `exit(1)` when `mm_malloc` returns NULL, which includes size 0; that outcome is `ExitOne`. It counts
  the 8 tag bytes in `copySize`; `Policy.CopyRoom` shows that the copy stays inside a new payload that covers the request all
  the same. A request past `MAX_REQUEST` can get a block smaller than the copy, and `memcpy` then runs past it, as
  `Policy.ReallocOverruns` shows at an input. `Policy.CopyFitsIff` says exactly when it does not, in terms of the heap before
  the call (`Policy.CopyFits`), and that is what `Realloc` asks of its caller.
- `add_range` tests whether an endpoint of the new range falls in an old one. `Ranges.FlaggedIff` says exactly which
  overlaps that misses; the disjointness of payloads is therefore proved from the allocator (`TraceLaws.PayloadsApart`).
- `mm_checkheap` does not look for adjacent free blocks; `Walks.SilentIffTiled` says exactly what its silence means.
- The explicit-list text is unfinished. Its design is modelled with these corrections: the next and prev fields are the
  distinct 8-byte slots of lines 78-79 and not the offsets 0 and 4 of lines 80-81; stores go into the field and not through
  the pointer it holds (83-84, 473, 530-536, 598-606); the search guard looks at the current node and not at
  `heap_basefree` (423); a freed block is inserted once, by `exp_coalesce` (lines 245-248 insert it too); a block about to be
  placed is spliced out once, from its list neighbours, before its tags are rewritten (364-367, 372 and 381 do so two or
  three times, at first from its address neighbours); and `asize` is raised to the 24 bytes two tags and two pointers
  need (77 against 183).
- `global_histogram[b]++` and `global_histogram[k] += counts[k]` are a load and a store; `__sync_fetch_and_add`,
  `sem_wait` and `sem_post` are single steps. The `locks` array, declared with a mutex type, is used as semaphores and
  modelled so. Thread count, slice length and bucket count are arbitrary, with slice length times threads equal to the
  data length, and the slice length a multiple of 4 for `histo_4`.
- A measured time is an arbitrary real number; a random number is a parameter.

## Model

| member | source | states |
|---|---|---|
| Words.PutWord | labs/malloclab/mm.c:57-58 | PUT then GET of a word gives the value stored, and no byte outside the word changes |
| Words.TagBits | labs/malloclab/mm.c:54-62 | on bit patterns, or-ing the alloc bit into a size that is a multiple of 8 adds it, and the two masks take size and bit apart again |
| Blocks.EncodesIffTiled | labs/malloclab/mm.c:291-313 | every block's header and footer being in place at its address is the same as the blocks tiling the heap one after another from the prologue to an epilogue at brk-4 |
| Blocks.TagBytes | labs/malloclab/mm.c:54-68 | in an encoded heap the four bytes before a block pointer, and the four that end four bytes before the next one, are size plus alloc bit, least significant byte first |
| Blocks.EncodesSplice | labs/malloclab/mm.c:386-402 | retagging some neighbouring blocks, writing only inside their bytes, leaves all other tags valid and replaces just those blocks in the list |
| Blocks.SpliceSamePayloads | labs/malloclab/mm.c:481-513 | writes inside the bytes of some blocks change no payload byte of any block outside them |
| Blocks.LiveDisjoint | labs/malloclab/mdriver.c:440-449 | two allocated blocks never overlap, tags included, and lie inside the heap |
| Blocks.PayloadWrite | labs/malloclab/mdriver.c:658 | a program that writes only into its own payload disturbs neither a tag nor another payload |
| Policy.AdjustedSizeCovers | labs/malloclab/mm.c:181-186 | for every positive 64-bit request: the rounded size is a multiple of 8, covers the request and both tags exactly when the request is at most 2^32 - 16, is then the least that does, and otherwise falls short by 16 bytes at least |
| Policy.AdjustedSizeWraps | labs/malloclab/mm.c:212-216 | failing inputs: a request of 2^32 bytes is rounded to 8, one of 2^32 - 15 to 0 |
| Policy.FirstFit | labs/malloclab/mm.c:435-449 | the chosen block fits and no block before it does; the end of the list is returned only when none fits |
| Policy.PlaceWellFormed | labs/malloclab/mm.c:386-402 | splitting keeps sizes, the prologue, immediate coalescing and the heap size, and the block handed out stays at its address |
| Policy.PlaceLive | labs/malloclab/mm.c:386-402 | exactly one new block becomes live, at an 8-aligned address inside the heap, with at most 8 unsplit bytes for the 16-byte minimum, and every other live block is as before |
| Policy.CoalesceWellFormed | labs/malloclab/mm.c:481-513 | in all four cases the merged heap has no two adjacent free blocks, keeps its total size and its other blocks, and the merged block is at the address returned |
| Policy.CoalesceLive | labs/malloclab/mm.c:481-513 | coalescing neither hands out nor takes back a block |
| Policy.FreeLaw | labs/malloclab/mm.c:253-260 | freeing keeps the whole-heap invariant and the heap size and removes exactly the freed block from the live ones |
| Policy.ExtendLaw | labs/malloclab/mm.c:321-347 | extension is refused exactly when mem_sbrk refuses; otherwise the heap grows by the rounded size, stays inside the arena, keeps the invariant and the live blocks, and the block returned has at least the size asked for |
| Policy.ExtendSizeMeans | labs/malloclab/mm.c:321-347 | extend_heap adds the least multiple of 8 bytes, 24 at least, that holds the words asked for |
| Policy.GrowSuffices | labs/malloclab/mm.c:224-226 | what extend_heap adds for a request is max(asize, CHUNKSIZE), a multiple of 8, so the new block fits it |
| Policy.GrowthMeans | labs/malloclab/mm.c:218-226 | a request grows the heap by nothing when some free block holds its rounded size, and otherwise by the larger of the rounded size and 65536 bytes |
| Policy.MallocLaw | labs/malloclab/mm.c:202-230 | for every heap and every 64-bit request: the heap grows by what GrowthMeans says; the block granted is new, 8-aligned and inside the heap; it covers the request if and only if the request is at most 2^32 - 16, and is then of n+8 to n+23 bytes; and when the rounded size is at least 16 the invariant is kept and all other live blocks are unchanged |
| Policy.MallocServes | labs/malloclab/mm.c:202-230 | which block is granted: the lowest-addressed free one that holds the rounded size, in place, with the heap as large as before; or, when there is none, the end of the heap, grown by the larger of the rounded size and 65536 and merged with a free block there |
| Policy.MallocKeepsIff | labs/malloclab/mm.c:202-230 | a granted request leaves the heap well formed if and only if its rounded size is at least 16 or the first free block that fits it is too small to be split |
| Policy.HugeRequest | labs/malloclab/mm.c:212-222 | on the initial heap a request of 2^32 bytes is granted, with a block of 8 bytes and so no payload |
| Policy.DeniedIff | labs/malloclab/mm.c:202-230 | for every 64-bit request, NULL is returned if and only if the size is 0, or every free block is too small and the larger of the rounded size and 65536 is negative as an int or would pass the end of the arena |
| Policy.GrantedSize | labs/malloclab/mm.c:202-230 | the size of the block granted, for every request: that of the first free block that fits, or of the last block after growing, handed out whole when less than 16 bytes would be left, and otherwise the rounded size |
| Policy.ReallocLaw | labs/malloclab/mm.c:268-283 | the new block is different from the old one and from every other live block, and covers the request exactly up to 2^32 - 16; when the rounded size is at least 16, afterwards exactly the old block is gone |
| Policy.CopyRoom | labs/malloclab/mm.c:277-280 | a new payload that covers the request holds the bytes copied, although these are counted with the tags; whenever it holds them they end inside the heap, and source and destination are disjoint |
| Policy.CopyFitsIff | labs/malloclab/mm.c:277-280 | mm_realloc writes nothing past the payload of the new block, that is, the block is 8 bytes larger at least than the smaller of old block size and new size, if and only if the new size is at most 2^32 - 16, or the request is not served at all, or the block its rounding will be given, told from the heap before the call, is that big |
| Policy.ReallocOverruns | labs/malloclab/mm.c:277-280 | failing input: after mm_init and a request of 24 bytes, reallocating these to 2^32 + 8 copies 32 bytes into a payload of 8 |
| Policy.TinyNeverFits | labs/malloclab/mm.c:277-280 | a granted request that is rounded below 16 bytes never gets a block for the copy |
| Policy.InitialLaw | labs/malloclab/mm.c:112-163 | the heap of the three stores is one allocated block of 24 bytes with nothing live, and extending it succeeds exactly when the arena has room, giving one free block of 65536 bytes behind it |
| Policy.NothingLive | labs/malloclab/mm.c:481-513 | complete coalescing: a heap with nothing live is the prologue and one free block of everything else |
| Memlib.Arena.Sbrk | labs/malloclab/memlib.c:58-69 | a negative increment, or one past the end of the arena, is refused and changes nothing; any other returns the old brk and moves it up by just that much |
| Mm.Allocator.FindFit | labs/malloclab/mm.c:435-449 | the walk over the tags in memory ends, at the lowest-addressed free block that fits, or with NULL when there is none |
| Mm.Allocator.Place | labs/malloclab/mm.c:386-402 | the stores turn a memory that encodes a heap into one that encodes the heap after the split; for 0 bytes they put the tag of an epilogue into the footer of the block before; no live payload ever changes |
| Mm.Allocator.Coalesce | labs/malloclab/mm.c:481-513 | the tag stores of all four cases produce the merged heap and its block pointer, and change no live payload |
| Mm.Allocator.ExtendHeap | labs/malloclab/mm.c:321-347 | the stores over the old epilogue produce the grown and coalesced heap, with brk moved up by the rounded size; a refusal changes nothing; no live payload changes |
| Mm.Allocator.Init | labs/malloclab/mm.c:112-163 | from an empty arena: the initial heap is encoded, or -1 is returned when the arena cannot hold it, or, when it cannot hold even 32 bytes, the failure of mem_sbrk goes unnoticed |
| Mm.Allocator.Malloc | labs/malloclab/mm.c:202-230 | for every 64-bit request, in place, mm_malloc does to the encoded heap what Policy.Malloc does to the list, except that a request rounded to 0 has the footer of the block before the one granted overwritten; no payload of a live block ever changes; brk stays when some free block holds the rounded size or NULL is returned, and otherwise moves up by the larger of that and 65536 |
| Mm.Allocator.Free | labs/malloclab/mm.c:253-260 | in place, mm_free does what Policy.Free does, and no payload of a block that stays live changes |
| Mm.Allocator.Realloc | labs/malloclab/mm.c:268-283 | under the condition of CopyFitsIff, the new block holds every prefix of the old payload that is no longer than the new size, other live payloads are untouched, the old block is freed, brk moves as for mm_malloc, and a failed mm_malloc changes nothing |
| Walks.PrevUndoesNext | labs/malloclab/mm.c:66-71 | PREV_BLKP undoes NEXT_BLKP on every block of every encoded heap |
| Walks.WalksAgree | labs/malloclab/mm.c:66-71 | the walk forward from the prologue visits the blocks at the sums of the sizes before them, and the walk back from the epilogue the same ones in the opposite order |
| Walks.EncodingUnique | labs/malloclab/mm.c:54-71 | the tags in memory determine the block list |
| Walks.SilentIffTiled | labs/malloclab/mm.c:291-313 | on a heap whose headers chain to a header of size 0, the loop and the epilogue test print nothing if and only if every footer equals its header and the last header is allocated |
| Walks.HeapSilentIff | labs/malloclab/mm.c:291-313 | and mm_checkheap as a whole prints nothing if and only if, besides, the first block is an allocated one of 24 bytes; another first block costs one line |
| Walks.BlockLines | labs/malloclab/mm.c:640-646 | checkblock prints a line for a misaligned block and a line for a footer unlike the header, both or neither |
| Walks.CheckHeap | labs/malloclab/mm.c:291-313 | the number of complaint lines of mm_checkheap on any heap it can walk |
| Walks.CheckHeapSilent | labs/malloclab/mm.c:291-313 | on every heap the allocator leaves, mm_checkheap prints nothing |
| Traces.StepInv | labs/malloclab/mdriver.c:630-714 | every request that is served keeps: heap well formed, ids in one-to-one correspondence with live blocks, sizes between n+8 and n+23; the heap never shrinks and stays inside the arena |
| Traces.RunTrace | labs/malloclab/mdriver.c:610-718 | so does every well-formed trace from initialisation on |
| TraceLaws.PayloadsApart | labs/malloclab/mdriver.c:423-449 | in every state two payloads held by the program are 8-aligned, inside the heap and at least 8 bytes apart |
| TraceLaws.OverlapMeans | labs/malloclab/mdriver.c:440-449 | overlapping means having an address in common |
| TraceLaws.BalancedTrace | labs/malloclab/mm.c:481-513 | after any trace that frees all it allocated the heap is one free block of all bytes between prologue and epilogue |
| TraceLaws.CoalescingNeverGrows | labs/malloclab/traces/gen_coalescing.pl:22-33 | allocate two, free two, allocate double, free: any number of iterations leaves the initial heap exactly as it was |
| TraceLaws.CoalescingRep | labs/malloclab/traces/gen_coalescing.pl:5-6 | in particular the generated trace, 2400 iterations with 4095 bytes |
| TraceLaws.CoalescingTraceIs | labs/malloclab/traces/gen_coalescing.pl:22-33 | the trace of the last two rows is the generator's: six requests an iteration, these ids and sizes in this order |
| TraceLaws.HeldFits | labs/malloclab/mdriver.c:731-813 | user block sizes always sum to the heap size minus 32, and the request bytes held never exceed that sum |
| TraceLaws.FailureMeans | labs/malloclab/mdriver.c:625-665 | how a run fails: mm_init, exactly for an arena under 65568 bytes; or request k, an allocation or a reallocation as the case may be, after the first k were served and when mm_malloc returns NULL for its size |
| TraceLaws.LiveSizesMeans | labs/malloclab/mdriver.c:762-800 | an id is live with n bytes exactly when the last request that names it asks for n bytes |
| TraceLaws.HighWaterMeans | labs/malloclab/mdriver.c:765-788 | the running maximum is at least 65536 and the live bytes after every prefix of the trace, and is one of these |
| Ranges.FlaggedIff | labs/malloclab/mdriver.c:441-449 | the endpoint test flags an old range if and only if the two overlap and the new one does not strictly surround the old one |
| Ranges.FlaggedMisses | labs/malloclab/mdriver.c:441-449 | an overlap the test accepts |
| Ranges.RemoveLoExact | labs/malloclab/mdriver.c:467-482 | of a list with distinct starts exactly the record starting at lo is removed |
| Ranges.RemoveLoMeans | labs/malloclab/mdriver.c:467-482 | of any list the first record starting at lo is removed, the rest keeping their order |
| Ranges.RangeList.Add | labs/malloclab/mdriver.c:414-462 | accepts, and records in front, exactly the aligned ranges inside the heap that no old range flags |
| Ranges.RangeList.Remove | labs/malloclab/mdriver.c:467-482 | relinks the list without the first record that starts at lo |
| Driver.Evaluation.EvalOp | labs/malloclab/mdriver.c:630-714 | one iteration ends in the verdict the block-list run calls for and otherwise leaves the range list equal to the live payload ranges, the tables right and every payload filled with the low byte of its id |
| Driver.Evaluation.EvalMmValid | labs/malloclab/mdriver.c:610-718 | on every well-formed trace the driver accepts, unless the arena runs out: a verdict of failure names the very request at which the block-list run gets NULL, or mm_init and an arena under 65568 bytes; it never reports a bad range or lost data |
| Driver.Evaluation.EvalMmUtil | labs/malloclab/mdriver.c:731-813 | on every well-formed trace that runs to completion: the ideal heap is at least 65536 and at least the live request bytes after every prefix, and equals one of these; the maximum is the larger of final brk and 65536; their quotient, the result, is at most 1; all totals stay below MAX_HEAP, inside an int; and failures are those of eval_mm_valid |
| Driver.Evaluation.SumsAfter | labs/malloclab/mdriver.c:762-800 | the adjustment of total_size for each kind of request keeps it equal to the sum of live request sizes |
| Links.ListedSplice | labs/malloclab/mm.c:516-615 | replacing blocks of which no free one is listed leaves the list holding exactly the other free blocks |
| Links.NodesApart | labs/malloclab/mm.c:73-79 | two nodes of the list are at least 24 bytes apart, so their pointer slots never share a byte |
| Links.SlotWrite | labs/malloclab/mm.c:78-85 | storing a pointer into a free block or the prologue changes no tag and no live payload |
| Links.Unlinked | labs/malloclab/mm.c:455-478 | the two pointer stores of coalesce_helper leave a doubly linked list without the node, forwards and backwards |
| Links.Pushed | labs/malloclab/mm.c:597-610 | the three pointer stores of the insertion leave a doubly linked list with the block in front |
| Links.ThinMeans | labs/malloclab/mm.c:455-478 | taking nodes out of a list leaves just the others, in their old order |
| FreeListPolicy.ListFindsWhatWalkFinds | labs/malloclab/mm.c:408-449 | the list search finds a block if and only if the walk over the whole heap does |
| FreeListPolicy.ListFitMeans | labs/malloclab/mm.c:408-433 | and the block it finds is that of the first listed node that fits |
| FreeListPolicy.GatherLaw | labs/malloclab/mm.c:516-615 | coalescing takes the free neighbours out of the list, the others keeping their order, and puts the merged block in front, at the address of the free left neighbour or else its own; the list again holds each free block exactly once and ends at the prologue |
| FreeListPolicy.TakeLaw | labs/malloclab/mm.c:357-384 | placing keeps that invariant, hands out one block with at most 16 unsplit bytes and leaves all others; the node leaves the list, a remainder of 24 bytes or more becomes its front, and the others keep their order |
| FreeListPolicy.ReleaseLaw | labs/malloclab/mm.c:237-251 | freeing keeps it and takes back the one block; the block it merges into, told from the sizes of its neighbours, becomes the front of the list, absorbed neighbours leave, and the others keep their order |
| FreeListPolicy.FreedServedFirst | notes/lecture14.md:15-18 | last in, first out: right after a free, a request that the merged block holds is served at its address |
| FreeListPolicy.GrowLaw | labs/malloclab/mm.c:321-347 | extending the heap keeps it, and is refused exactly when mem_sbrk refuses; the new block, merged with a free last one, becomes the front of the list, the others keeping their order |
| FreeListPolicy.ListMallocLaw | labs/malloclab/mm.c:170-201 | for every 64-bit request a list allocation keeps it, grows the heap by what GrowthMeans says, and grants a new, aligned block, leaving the other live blocks; the block covers the request if and only if that is at most 2^32 - 16 |
| FreeListPolicy.ListMallocServes | labs/malloclab/mm.c:170-201 | which block is granted: that of the first listed node that fits, with the heap as large as before; or, when no block fits, the end of the heap, grown by the larger of the rounded size and 65536; a remainder becomes the front of the list, the other nodes keeping their order |
| FreeListPolicy.RefusedIff | labs/malloclab/mm.c:170-201 | and, for every 64-bit request, returns NULL if and only if the size is 0, or every free block of the whole heap is too small and the larger of the rounded size and 65536 is negative as an int or would pass the end of the arena |
| FreeListPolicy.ListGrantedSize | labs/malloclab/mm.c:170-201 | the size of the block granted, for every request: that of the first listed block that fits, or of the last block after growing, handed out whole when less than 24 bytes would be left, and otherwise the rounded size |
| FreeListPolicy.ListCopyFitsIff | labs/malloclab/mm.c:277-280 | over the list, mm_realloc writes nothing past the payload of the new block, that is, the block is 8 bytes larger at least than the smaller of old block size and new size, if and only if the new size is at most 2^32 - 16, or the request is not served at all, or the block its rounding will be given, told from heap and list before the call, is that big |
| FreeListPolicy.ListReallocOverruns | labs/malloclab/mm.c:277-280 | failing input: after mm_init and a request of 24 bytes, reallocating these to 2^32 + 8 copies 32 bytes into a payload of 16 |
| FreeListPolicy.ListReallocLaw | labs/malloclab/mm.c:268-283 | reallocation over the list moves to a block different from all live ones and gives back the old one |
| FreeListPolicy.InitialSane | labs/malloclab/mm.c:112-163 | the heap and list mm_init leaves satisfy the invariant |
| FreeListPolicy.RunCalls | labs/malloclab/mm.c:516-615 | every run of malloc calls of any size and of free and realloc calls on live blocks, for realloc under the condition of ListCopyFitsIff, keeps heap and list well formed |
| FreeListPolicy.DoLaw | labs/malloclab/mm.c:170-283 | each call of a run: a free takes the block back, a malloc not refused hands one out, a realloc not refused does both, the number of live blocks changing accordingly |
| FreeListPolicy.EverythingFreed | labs/malloclab/mm.c:568-613 | after any run that leaves nothing allocated there is one free block, and the list is that block and the prologue |
| ExplicitList.FreeList.FindFitExp | labs/malloclab/mm.c:408-433 | following next pointers in memory ends at the first listed block that fits, or at the prologue with NULL |
| ExplicitList.FreeList.SpliceOut | labs/malloclab/mm.c:455-478 | in memory, the node leaves the list, the tags and all live payloads staying as they are |
| ExplicitList.FreeList.PushFront | labs/malloclab/mm.c:597-610 | in memory, the block becomes the front of the list, the tags and all live payloads staying as they are |
| ExplicitList.FreeList.ExpCoalesce | labs/malloclab/mm.c:516-615 | in all four cases tags and pointers in memory become those of the gathered heap; no live payload changes |
| ExplicitList.FreeList.ExpPlace | labs/malloclab/mm.c:357-384 | tags and pointers in memory become those of the heap after the split; no live payload changes |
| ExplicitList.FreeList.ExtendHeap | labs/malloclab/mm.c:321-347 | growth joins the list in memory, or changes nothing when refused |
| ExplicitList.FreeList.Init | labs/malloclab/mm.c:112-163 | the first heap has the one free block in front of the prologue in its list; the two failures are those of the implicit list |
| ExplicitList.FreeList.Malloc | labs/malloclab/mm.c:170-201 | for every 64-bit request, in place, mm_malloc does what FreeListPolicy.Malloc does; no live payload changes; brk moves as in Mm.Allocator.Malloc |
| ExplicitList.FreeList.Free | labs/malloclab/mm.c:237-251 | in place, mm_free does to blocks and list what FreeListPolicy.Release does, whose order ReleaseLaw gives; no remaining payload changes |
| ExplicitList.FreeList.Realloc | labs/malloclab/mm.c:268-283 | under the condition of ListCopyFitsIff, every prefix of the old payload no longer than the new size arrives in the new block, other payloads are untouched, and the old block joins the list |
| ExplicitList.FreeList.Execute | labs/malloclab/mm.c:170-283 | in memory, a call does what it does as a step of such a run |
| ExplicitList.FreeList.PointersInMemory | labs/malloclab/mm.c:73-79 | the 8 bytes at every node are the address of the next node and the 8 after them that of the node before, 0 at the ends |
| ExplicitList.FreeList.PayloadUnlinked | labs/malloclab/mm.c:73-79 | a program that writes only into its own payload never damages the list |
| Histogram.MutualExclusion | labs/threadlab-handout/thread.c:126-135 | no two threads are inside sections of the same semaphore |
| Histogram.SemaphoreMeaning | notes/lecture16.md:101-115 | in every reachable state a semaphore is 0 or 1, and is 0 exactly when one thread is inside its section |
| Histogram.StepInv | labs/threadlab-handout/thread.c:126-307 | any step of any thread keeps the invariant: semaphores account for the threads inside, a loaded value is still current, and each bucket is the sum of what the threads have merged |
| Histogram.BucketMeans | labs/threadlab-handout/thread.c:132-302 | a thread of histo_1 to histo_3 works at bucket data[id*STEP + q] modulo BUCKET_SIZE and adds 1; one of histo_4, once it has counted, at bucket q and adds its own count |
| Histogram.StepWrites | labs/threadlab-handout/thread.c:126-307 | a step writes the histogram only at that bucket: the atomic increment, or the store of the loaded value plus the amount |
| Histogram.CountFour | labs/threadlab-handout/thread.c:271-280 | the loop body unrolled by four counts four items of the slice, once each |
| Histogram.MergedSoFar | labs/threadlab-handout/thread.c:296-302 | at every step of histo_4 bucket k is the sum of the local counts of exactly the threads that have merged it |
| Histogram.CountersInRange | labs/threadlab-handout/thread.c:126-307 | in every reachable state every counter lies between 0 and its final value, which is at most DATA_SIZE |
| Histogram.StepMeasure | labs/threadlab-handout/thread.c:126-307 | every step takes exactly one unit off the remaining work |
| Histogram.SomeThreadCanStep | labs/threadlab-handout/thread.c:126-307 | no deadlock: while a thread has not finished, some thread can step |
| Histogram.BlockedByAny | labs/threadlab-handout/thread.c:126-135 | in histo_1 a thread waits exactly while some thread is inside its section |
| Histogram.BlockedAtBucket | labs/threadlab-handout/thread.c:160-307 | in histo_2 and histo_4 a thread waits exactly while some thread is inside at the same bucket, so threads at different buckets never block each other |
| Histogram.NeverBlocked | labs/threadlab-handout/thread.c:214-224 | in histo_3 no thread ever waits |
| Histogram.SlicesCover | labs/threadlab-handout/thread.c:127-130 | the threads' slices make up the data: their counts add up to the sequential count |
| Histogram.SequentialMeans | labs/threadlab-handout/thread.c:99-107 | the sequential count of bucket b is the number of positions k with data[k] modulo BUCKET_SIZE equal to b |
| Histogram.FinishedResult | labs/threadlab-handout/thread.c:99-107 | when all threads have finished bucket b holds the number of positions k with data[k] modulo BUCKET_SIZE equal to b, and every semaphore is back at 1 |
| Histogram.EveryInterleaving | labs/threadlab-handout/thread.c:126-307 | for all four routines, all thread counts and all interleavings: a run can go on until all threads have finished, it has finished exactly when its length is the initial work, and bucket b then holds the number of positions k with data[k] modulo BUCKET_SIZE equal to b |
| Histogram.CompleteSchedule | labs/threadlab-handout/thread.c:126-307 | from every reachable state some schedule finishes |
| RunThreads.Histo0 | labs/threadlab-handout/thread.c:99-107 | thread 0 adds to bucket b the number of positions k with data[k] modulo BUCKET_SIZE equal to b, the other threads add nothing |
| RunThreads.AboveZero | labs/threadlab-handout/util.c:36-47 | after the reset, what histo_0 leaves is exactly the sequential histogram of the data |
| RunThreads.Generate | labs/threadlab-handout/util.c:25-30 | the data are the random numbers modulo DATA_MAX, and bucket b holds the number of positions k with data[k] modulo BUCKET_SIZE equal to b |
| RunThreads.Reset | labs/threadlab-handout/util.c:36-39 | all buckets are 0 before each routine |
| RunThreads.SumHistogram | labs/threadlab-handout/util.c:79-91 | the sum returned is that of all buckets |
| RunThreads.CorrectnessFlag | labs/threadlab-handout/util.c:54-60 | after every finished run of histo_1 to histo_4 the sum is DATA_SIZE, so each is flagged correct |
| RunThreads.SequentialFlag | labs/threadlab-handout/util.c:54-60 | the sum is DATA_SIZE after histo_0 too |
| RunThreads.RoutineResult | labs/threadlab-handout/util.c:34-52 | started with the histogram cleared and all semaphores up, every routine under every complete interleaving gives the sequential histogram and leaves all semaphores up |
| RunThreads.RoutineCanRun | labs/threadlab-handout/util.c:45-52 | and it does have a complete run |
| RunThreads.AllFlagged | labs/threadlab-handout/util.c:34-74 | the five routines one after another over the same semaphores: after each, bucket b holds the number of positions k with data[k] modulo BUCKET_SIZE equal to b, the sum is DATA_SIZE, and so every routine is flagged correct |
| Sampler.BestIsKSmallest | labs/malloclab/fcyc.c:67-88 | keeping K by overwriting the last and inserting leaves, in ascending order, min(count, K) of the samples as a multiset, none of those left out being smaller |
| Sampler.KSmallestUnique | labs/malloclab/fcyc.c:67-88 | the samples alone determine that list |
| Sampler.KBest.InsertionSort | labs/malloclab/fcyc.c:81-87 | the swapping loop sinks the last value to its place among the sorted ones and leaves the rest |
| Sampler.KBest.AddSample | labs/malloclab/fcyc.c:67-88 | in place, the array holds the K best of the samples seen, one more each time |
| Sampler.KBest.HasConverged | labs/malloclab/fcyc.c:93-98 | if true, there are K samples and every one of the K smallest is at most (1 + epsilon) times the least of them; if false, there are fewer or one of them is more |
| Sampler.ConvergedMeans | labs/malloclab/fcyc.c:93-98 | the one comparison of least and K-th least bounds each of the K smallest samples, which the samples determine |
| Sampler.NotConvergedMeans | labs/malloclab/fcyc.c:93-98 | and when it fails with K samples there, one of the K smallest passes the bound |
| Sampler.BestIsLeast | labs/malloclab/fcyc.c:162 | values[0] is one of the samples and the least of all |
| Sampler.KBest.Fcyc | labs/malloclab/fcyc.c:129-168 | the loop takes between 1 and max(1, maxsamples) samples; stopping before maxsamples, it has K at least and each of the K smallest is at most (1 + epsilon) times the result; after every earlier count there were fewer than K or one of the K smallest was more than that over the least; and the result is the least sample |
| Bits.GreatestBitPosRight | labs/datalab-handout/bits.c:309-347 | for every word the branch-free search gives the single bit that is the top set bit, and 0 for 0 |
| Bits.GreatestBitPosMeans | labs/datalab-handout/bits.c:309-347 | when x shifted right by k is 1 the answer is the bit of position k |
| Bits.TestGreatestBitPos | labs/datalab-handout/tests.c:99-107 | the mask-shifting loop ends for every word, with the same answer as the search |
| Bits.BetweenMeans | labs/datalab-handout/bits.c:234-245 | bit k of the intended mask is 1 exactly when lowbit <= k <= highbit |
| Bits.BitMaskRight | labs/datalab-handout/bits.c:246-272 | for all 1024 pairs of bit positions, highbit 31 and lowbit above highbit among them, the shifts give that mask |
| Bits.BitMaskMeans | labs/datalab-handout/bits.c:246-272 | bit k of what the shifts give is 1 exactly when lowbit <= k <= highbit |
| Bits.TestBitMask | labs/datalab-handout/tests.c:88-95 | the bit-by-bit loop ends with the same mask as bitMask |
| Bits.AddOKRight | labs/datalab-handout/bits.c:219-235 | for all pairs of words the sign comparison says 1 exactly when the 64-bit sum survives the conversion to int |
| Bits.AddOKMeans | labs/datalab-handout/bits.c:219-235 | 0 is returned exactly when both operands have one sign and their sum the other |

## Left out

- Mm.Allocator.Realloc: what memory holds after a `memcpy` past the end of the new block is not modelled; Policy.CopyFitsIff says exactly when that happens.
- ExplicitList.FreeList.Realloc: likewise (FreeListPolicy.ListCopyFitsIff).
- Mm.Allocator.Init: what memory holds after the store through `(void *)-1` is not modelled. The source's arena always has MAX_HEAP bytes, so its first `mem_sbrk` cannot fail; the driver's two evaluations ask for the 32 bytes.
- ExplicitList.FreeList.Init: likewise.
- ExplicitList.FreeList.Malloc: models the corrected design of the explicit list, not the exact pointer text of the unfinished functions.
- Driver.Evaluation.EvalMmValid: the data comparison of line 689 is on bytes 0 to 255; the sign of a plain `char` is not modelled. The two evaluations drive the implicit-list allocator only.
- Ranges.RangeList.Add: the list is a sequence value; the allocation, relinking and freeing of `range_t` records are not modelled.
- Histogram.EveryInterleaving: steps are sequentially consistent, and threads woken in any order are covered by the schedule naming who steps next.
- Driver.Evaluation.EvalMmUtil: the ratio is a real number; the rounding of the `double` quotient is not modelled.
- Sampler.KBest.HasConverged: samples are real numbers, so floating-point rounding of `(1 + epsilon)*values[0]` is not modelled.
- Sampler.KBest.Fcyc: cache clearing and the cycle counters are left out.
- Debug printing, `printblock` and the `printf` calls on every path of `mm.c`.
- Reading trace files, options, result tables and timing in `mdriver.c`; `clock.c`, `ftimer.c`, `fsecs.c`.
- `mem_init`, `errno` and the evaluation of the C library's malloc.
- Thread creation, elapsed-time ranges and `check_info` in the thread lab.
- The other bit puzzles: `minusOne`, `isZero`, `getByte`, `negate`, `absVal`.
- The repository's other labs and notes.
