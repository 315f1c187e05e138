# klib and the magit server, verified

A Dafny 4.11 project about two layers of the repository: the data structures, sorting, threading, expression and
hashing code of `ext/klib`, and the request protocol of the magit server in `src/` with its client in `2.py`.
`dafny verify dfyconfig.toml` checks all of it.

| part | modules | what the main results say |
|---|---|---|
| `khashl.h`, `khash.h` | `Probing`, `KHashL`, `KHash` | both tables are a finite set or map through every put, delete and in-place rehash; linear and triangular probing reach every bucket |
| `kbtree.h` | `BtreeNode`, `BtreeShape`, `Kbtree`, `KbtreeDelete`, `Btree` | every put and delete changes the ordered key sequence by exactly its key and keeps the B-tree shape, through splits, borrowing and merging |
| `krmq.h`, `kavl.h` | `AvlShape`, `AvlMoves`, `KrmqRotate`, `KrmqInsert`, `KrmqErase`, `KrmqQuery`, `KrmqIterate`, `Krmq` | height balance, subtree sizes and subtree minima through insertion and deletion; ranks; range minimum; iteration in order; the height bound behind the 64-entry arrays |
| `kstring.c` | `BoyerMoore` | the search finds the first occurrence, or none iff there is none |
| `kalloc.c` | `Kalloc` | every unit of every core belongs to exactly one block; the free ring is in address order with no two adjacent blocks; units are conserved |
| `kthread.c` | `KtPipeline`, `KtPipelineData`, `KtFor` | mutual exclusion, batch order, data flow, progress, and when a pipeline ends; each index once in every interleaving, and what stealing is for |
| `ksort.h` | `RadixSort`, `MergeSort` | both sort in place; merge sort is stable |
| `kexpr.c` | `KExpr` | parsing a printed tree gives its postorder, running that gives its value; which operator binds tighter; which parentheses are refused |
| `kurl.c` | `Sha1`, `Sha1Example` | the streaming SHA-1 and HMAC are those of FIPS 180-4 and RFC 2104, whose digest of "abc" is worked out |
| `magit_server.c`, `msgpack_handler.c`, `2.py` | `FrameDecoder`, `Msgpack` | what is delivered is the one parse of the stream, in whatever chunks it comes; a client's request arrives as it was sent |

`Powers`, `Sums` and `Chunks` hold arithmetic and sequence facts that several modules use.

How the model is built:

- Code that changes fields and arrays is a class or a method over arrays, loop by loop. Code that follows pointers (the
  trees) keeps a ghost map from nodes to their fields, and a ghost tree that this map represents; the path arrays of the
  balanced trees are the zipper of that tree.
- Threads are a transition system whose steps are the atomic actions of the source: a stretch under the mutex, a fetch-and-add,
  one counter read, one call of the user's function. A theorem about all runs is one about all sequences of such steps.
- Hash functions are arbitrary functions, comparison functions an arbitrary strict weak order or the order of integers, the
  parent allocator of `kalloc.c` any choice of an address range that is free and does not touch the others.
- 32-bit and 64-bit widths are written out where the code depends on them: the hash of `khashl.h`, the words of SHA-1 (bit
  vectors), the byte counter of the stream, the counters of the tree sizes, the enum that a MessagePack key is cast to.

What the proofs brought up:

- `kt_pipeline` with exactly one step never ends. The only step is also the last, so `(step + 1) % n_steps` is 0 whatever the
  step function returns (`ext/klib/kthread.c:220`), and no worker leaves its loop. With any other number of steps every
  reachable state has a way to the end, on which all workers finish (`KtPipeline.WorkersFinish`), and once the first step finds
  no more input every schedule gets there, unless waiting workers wake up early without end (`KtPipeline.DrainedRunsEnd`).
- `msgpack_handler_recv` returns `ERR_UNEXPECTED_MSG` also after it has queued a request (`src/msgpack_handler.c:186-193`);
  `Msgpack.Handle` returns that code and the request.
- A thread of `kt_for` that steals from a counter its stale reads showed as least may get an index beyond the end and leave
  while another counter still has work. `KtFor.EachIndexOnce` holds all the same: the owner of that counter does the work.
- After a frame of unacceptable length the decoder stays in that state and reports an error for every chunk that follows; it
  relies on the stream being closed to stop. Nothing is delivered any more.

## Model

| member | source | states |
|---|---|---|
| Probing.ProbeCovers | ext/klib/khash.h:51-53 | in a table whose size is a power of two, steps of 1, 2, 3, ... reach every bucket within one round (linear steps do in every table) |
| Probing.ProbeInjective | ext/klib/khash.h:51-53 | no bucket is met twice in that round: for triangular steps the product of an odd and an even factor is no multiple of the size |
| Probing.SearchComplete | ext/klib/khash.h:237-241 | a search that has met a free bucket, or all buckets, without finding the key proves the key absent |
| Probing.ChainedAdd | ext/klib/khash.h:336-345 | a key put into a bucket its probe path reaches leaves every key reachable |
| Probing.MovingKick | ext/klib/khashl.h:186-192 | evicting a key that has not moved yet loses and duplicates nothing, and one key fewer has not moved |
| Probing.MovingSettle | ext/klib/khashl.h:193-196 | writing the carried key into a bucket free in both tables ends a kick-out chain with every key stored or still waiting exactly once |
| Probing.MovingDone | ext/klib/khashl.h:180-198 | when nothing waits in the old table, the new one holds exactly the old keys, once each, all reachable |
| KHashL.Table.Get | ext/klib/khashl.h:146-157 | gives the bucket of a key that is in the table and the capacity for one that is not |
| KHashL.Table.MoveOut | ext/klib/khashl.h:182-197 | one kick-out chain ends, keeps the invariant of the rehash and empties its old bucket |
| KHashL.Table.Rehash | ext/klib/khashl.h:173-202 | growing or shrinking, the rehash without a second key array stores the same keys, each once and reachable from its new home |
| KHashL.Table.Resize | ext/klib/khashl.h:162-204 | an accepted size becomes the capacity, a size too small for the keys changes nothing; the key set stays |
| KHashL.ComputeNewBits | ext/klib/khashl.h:165-167 | the shift loop gives the exponent of the power of two that covers the size, four at least |
| KHashL.NewBitsLeast | ext/klib/khashl.h:165-167 | that exponent is the least whose power is at least the size and at least four |
| KHashL.H2BTopBits | ext/klib/khashl.h:101-101 | the bucket of a hash is the top `bits` bits of its product with 2654435769 modulo 2^32 |
| KHashL.H2BMultiplier | ext/klib/khashl.h:101-101 | that number is 2^32 divided by the golden ratio, rounded down: it satisfies the bounds of its quadratic equation |
| KHashL.Table.Put | ext/klib/khashl.h:207-229 | adds exactly the key, reports whether it was absent, returns its bucket; the capacity doubles, from four up, iff the table was three quarters full |
| KHashL.Table.LoadFactor | ext/klib/khashl.h:76-77 | between calls at most three quarters of the buckets are used |
| KHashL.CyclicTest | ext/klib/khashl.h:243-243 | the two-sided test holds exactly when the hole lies on the probe path from the home bucket |
| KHashL.HollowShift | ext/klib/khashl.h:243-244 | moving such a key into the hole leaves one hole, at its old place, and nothing else out of reach |
| KHashL.HollowKeep | ext/klib/khashl.h:243-244 | a key left alone does not need the hole |
| KHashL.HollowEnd | ext/klib/khashl.h:239-247 | at a free bucket the hole can be opened: every probe path is unbroken |
| KHashL.Table.CloseHole | ext/klib/khashl.h:239-245 | the scan ends, and clearing the bucket it ends with leaves a sound table of the other keys |
| KHashL.Table.Del | ext/klib/khashl.h:234-249 | removes exactly the key of the bucket; a table without buckets is left alone |
| KHashL.Table.Clear | ext/klib/khashl.h:137-143 | leaves an empty table of the same capacity |
| KHash.Table.Get | ext/klib/khash.h:230-243 | gives the bucket with the key and its value, or the capacity iff the key is absent, past any number of tombstones |
| KHash.Table.MoveOut | ext/klib/khash.h:270-293 | one kick-out chain with keys and values conserves all pairs |
| KHash.Table.Rehash | ext/klib/khash.h:268-301 | the rehash stores the same map without any tombstone |
| KHash.Table.Resize | ext/klib/khash.h:244-306 | sizes below the load limit are refused without a change, others become the capacity; the map stays |
| KHash.RehashSizes | ext/klib/khash.h:311-317 | the two sizes that a put asks for are always accepted and leave room |
| KHash.Table.Site | ext/klib/khash.h:320-335 | the search of a put ends at the key, or, with the key known to be absent, at the last tombstone before the first empty bucket of its probe path, at that bucket if there is none |
| KHash.Table.Put | ext/klib/khash.h:307-348 | adds the key unless it is there, never twice; the new key takes the last tombstone on its path, with result 2, or the first empty bucket, with result 1; no other flag changes but in a rehash, which happens and chooses its size as the source says; the other pairs stay |
| KHash.Table.SetValue | ext/klib/khash.h:321-348 | writing a value at a live bucket changes the map at its key alone |
| KHash.Table.Del | ext/klib/khash.h:349-355 | removes exactly the key of a live bucket and keeps all others reachable |
| KHash.CapacityIsPow2 | ext/klib/khash.h:249-250 | the rounded size is the least power of two, four at least, that covers the request |
| KHash.MaskedLowBits | ext/klib/khash.h:320-320 | the home bucket is the low bits of the hash |
| KHash.UpperRounds | ext/klib/khash.h:303-303 | the load limit is 0.77 of the buckets, rounded to the nearest integer |
| BoyerMoore.Suffixes | ext/klib/kstring.c:145-160 | the linear-time loop computes the longest common suffix length for every position |
| BoyerMoore.SuffCopied | ext/klib/kstring.c:151-152 | inside the last repetition the earlier answer may be copied |
| BoyerMoore.ShiftIsGood | ext/klib/kstring.c:161-171 | the first border or reoccurrence found is the least shift that could match |
| BoyerMoore.GoodSuffixShifts | ext/klib/kstring.c:161-171 | every entry is the least positive shift that agrees with the matched suffix and changes the mismatched character |
| BoyerMoore.BadCharacterShifts | ext/klib/kstring.c:141-144 | every entry is the distance to the last earlier occurrence of the character |
| BoyerMoore.Prep | ext/klib/kstring.c:136-174 | both tables at once, in one array |
| BoyerMoore.GoodSuffixSafe | ext/klib/kstring.c:187-190 | the good-suffix shift jumps over no match |
| BoyerMoore.BadCharacterSafe | ext/klib/kstring.c:187-190 | the bad-character shift jumps over no match |
| BoyerMoore.Memmem | ext/klib/kstring.c:176-195 | the first occurrence of a non-empty pattern, or none iff there is none; a prepared table may be reused |
| Kalloc.TiledSplit | ext/klib/kalloc.c:143-147 | a block cut in two still tiles the cores |
| Kalloc.JoinAbove | ext/klib/kalloc.c:112-117 | the freed block joins the one behind it iff they touch; the first panic cannot happen |
| Kalloc.JoinBelow | ext/klib/kalloc.c:119-125 | it joins the one before it iff they touch, after which no two free blocks are adjacent; the second panic cannot happen |
| Kalloc.RingAfterFree | ext/klib/kalloc.c:110-125 | in all four cases the links again visit the free blocks in address order and close |
| Kalloc.Allocator.FindNeighbour | ext/klib/kalloc.c:110-111 | the search ends, at the free block below or at the highest one |
| Kalloc.Allocator.Kfree | ext/klib/kalloc.c:80-126 | a live block becomes free, the other live blocks keep place, size and contents, and the block `loop_head` names covers the freed one |
| Kalloc.CoreSizeCovers | ext/klib/kalloc.c:69-69 | the size of a new core is the least multiple of `min_core_size` that has room for the request and the core's own header |
| Kalloc.CoreJoins | ext/klib/kalloc.c:73-76 | a new core at any obtainable address adds one block that touches no other |
| Kalloc.Allocator.MoreCore | ext/klib/kalloc.c:65-78 | one core of exactly that size is added, live blocks stay with their contents, and `loop_head` is a block that is large enough |
| Kalloc.Allocator.FindFit | ext/klib/kalloc.c:140-154 | the search ends at the first block in ring order from `loop_head` that fits; it asks for a core, of the size of `morecore`, only if no free block fits |
| Kalloc.Allocator.Take | ext/klib/kalloc.c:141-148 | a block of exactly the asked size leaves the ring, whole or as the tail of a larger one |
| Kalloc.Allocator.Kmalloc | ext/klib/kalloc.c:128-155 | nothing for 0 bytes; otherwise a new live block of the size for the bytes and their header, the tail of the first block that fits, with all invariants and the contents of all live blocks kept, and a core added only when no free block fits |
| Kalloc.PayloadPut | ext/klib/kalloc.c:182-182 | a write into a live block changes that word alone and harms neither the ring nor the tiling of the cores |
| Kalloc.Allocator.CopyWords | ext/klib/kalloc.c:182-182 | `memcpy` from one live block to another, with all other blocks kept |
| Kalloc.Allocator.Krealloc | ext/klib/kalloc.c:168-185 | the block stays iff it is large enough; else it is replaced by one that is and starts with all that the old one held; the other live blocks keep their contents |
| Kalloc.Conservation | ext/klib/kalloc.c:197-216 | free units, live units and one header unit per core add up to the cores |
| Kalloc.EachUnitOnce | ext/klib/kalloc.c:73-76 | every unit of a core but its header lies in exactly one block, and that block is inside the core |
| Kalloc.AllFreed | ext/klib/kalloc.c:112-125 | when nothing is live each core is one free block, and there are no others |
| Kalloc.Allocator.KmStat | ext/klib/kalloc.c:197-216 | the walk ends and counts each free block and core once: available, live and header bytes add up to the capacity |
| KtPipeline.InvNext | ext/klib/kthread.c:199-224 | every atomic action keeps the invariant: own batches, order of batches at each step, sleepers blocked, nothing lost |
| KtPipeline.InvReachable | ext/klib/kthread.c:195-256 | so every reachable state has it, for any number of threads and steps |
| KtPipeline.StepExclusive | ext/klib/kthread.c:205-209 | no two workers execute the same step at once |
| KtPipeline.BatchOrder | ext/klib/kthread.c:202-223 | batches start each step in strictly increasing order, none that reached it is overtaken, each passed the step before |
| KtPipeline.Progress | ext/klib/kthread.c:202-212 | while a worker is unfinished, the one with the smallest batch is working or passes its test: no deadlock and no lost wake-up |
| KtPipeline.WorkersFinish | ext/klib/kthread.c:195-256 | from every reachable state some run ends with all workers finished, so that all can be joined, iff the number of steps is not one; with one step no worker ever finishes |
| KtPipeline.DrainedCalls | ext/klib/kthread.c:215-221 | with any other number of steps, after the input has ended every run calls the step function at most as often as the batches under way and one look per worker ask for |
| KtPipeline.DrainedRunsEnd | ext/klib/kthread.c:199-224 | after the input has ended, in a pipeline with any number of steps but one, the actions of every run are bounded but for two per early wake-up, and a run in which nothing but an early wake-up is left to do has all workers finished |
| KtPipelineData.DataFollowsBatch | ext/klib/kthread.c:214-221 | in every run the first step is given null, each later step what the step before it returned for the same batch, and a batch goes on to the next step iff that is not null |
| KtPipelineData.FlowNext | ext/klib/kthread.c:199-224 | every action keeps what this rests on: a worker is past every step that has returned for its batch, and holds what the last one returned |
| KtPipelineData.FlowsRun | ext/klib/kthread.c:195-256 | leaving out the data, every run with data is a run of the pipeline |
| KtFor.InvNext | ext/klib/kthread.c:24-46 | every atomic action keeps the account of fetched, claimed and called indices; the two reads of a counter in the search for a victim are two actions |
| KtFor.EachIndexOnce | ext/klib/kthread.c:24-62 | in every interleaving no index is called twice or out of range, and after all threads have exited each was called once |
| KtFor.RunsAreFinite | ext/klib/kthread.c:34-46 | every run ends: each action lowers a measure |
| KtFor.StealAlone | ext/klib/kthread.c:24-32 | with no other thread moving, a thief takes the index of the first of the least counters, and gives up only if no counter has an index left |
| KtFor.AloneFinishes | ext/klib/kthread.c:34-46 | a thread that moves alone takes over everything: when it exits, every index was called but for those that other threads are about to call |
| RadixSort.FollowCycle | ext/klib/ksort.h:329-335 | one cycle of moves stays inside the buckets, places every element it moves, and leaves less unfilled |
| RadixSort.Distribute | ext/klib/ksort.h:326-338 | the cycle-leader loop ends with a permutation in which every bucket holds exactly the elements with its digit |
| RadixSort.DigitDecides | ext/klib/ksort.h:340-341 | among keys that agree above it, a digit decides the order, and equal digits extend the agreement |
| RadixSort.BucketAgrees | ext/klib/ksort.h:341-343 | the recursion sees only elements that agree on all higher digits, also when the next shift is cut off at 0 |
| RadixSort.InsertSort | ext/klib/ksort.h:305-315 | sorts the range and touches nothing else |
| RadixSort.Sort | ext/klib/ksort.h:316-346 | sorts a range that agrees above the digit, by whole keys, and touches nothing else |
| RadixSort.RadixSort | ext/klib/ksort.h:347-351 | for keys of the stated number of bytes: a permutation in nondecreasing order of whole keys |
| MergeSort.StableSortCorrect | ext/klib/ksort.h:77-124 | the specification function gives a sorted permutation in which equivalent elements keep their order |
| MergeSort.MergeSorted | ext/klib/ksort.h:109-114 | merging two sorted neighbours, the left first on ties, gives the stable sort of both |
| MergeSort.MergeRuns | ext/klib/ksort.h:102-114 | the cursors merge two runs, the second possibly short or missing |
| MergeSort.MergePass | ext/klib/ksort.h:99-115 | a pass turns sorted runs of one length into sorted runs of twice that length, for every array length |
| MergeSort.Sort | ext/klib/ksort.h:77-124 | the array ends as the stable sort of what it was, for every length and both parities of buffer swaps |
| KExpr.ParseCore | ext/klib/kexpr.c:254-352 | the two-stack loop computes what the recursive parser `Parse` does, errors included |
| KExpr.ParsePrinted | ext/klib/kexpr.c:254-352 | for every expression written with the parentheses it needs (and any more) the parser gives exactly its postorder |
| KExpr.TwoOperators | ext/klib/kexpr.c:64-78 | which of two binary operators binds tighter, in the order `**`, `* / // %`, `+ -`, shifts, comparisons, equalities, `&`, `^`, bitwise or, `&&`, logical or, and that all but `**` group to the left |
| KExpr.UnaryFirst | ext/klib/kexpr.c:64-78 | a unary operator binds tighter than every binary one |
| KExpr.ParseRefuses | ext/klib/kexpr.c:264-345 | for all token sequences: a right parenthesis without a left one, or a left one without a right one, gives that error, and nothing else but a wrong number of arguments does |
| KExpr.SpineLevels | ext/klib/kexpr.c:64-78 | by the operator table, levels fall strictly from the bottom of the operator stack to its top, except that right-associative operators of one level may follow each other |
| KExpr.Parenthesised | ext/klib/kexpr.c:64-78 | parentheses put by precedence and associativity make any tree printable, and change neither the tree nor its postorder |
| KExpr.PrintUnambiguous | ext/klib/kexpr.c:64-78 | two expressions that print alike are the same tree |
| KExpr.PostorderDetermines | ext/klib/kexpr.c:254-352 | the parser's output can be read back to the tree |
| KExpr.PostorderEvaluates | ext/klib/kexpr.c:366-399 | running the postorder pushes exactly the value of the tree |
| KExpr.Eval | ext/klib/kexpr.c:366-399 | the loop over stack cells computes what the abstract stack machine does |
| KExpr.Calculate | ext/klib/kexpr.c:254-399 | print, parse and evaluate give the value of every tree |
| Sha1.RoundAsCoded | ext/klib/kurl.c:335-340 | the rewritten choice and majority and the order of additions give the round of FIPS 180-4 |
| Sha1Example.DigestOfAbc | ext/klib/kurl.c:317-383 | the digest of "abc" is a9993e364706816aba3e25717850c26c9cd0d89d |
| Sha1.RoundConstants | ext/klib/kurl.c:335-338 | the four constants are the integer square roots of 2^60 times 2, 3, 5 and 10 |
| Sha1.StartValue | ext/klib/kurl.c:319-320 | the start value lies in memory as the table of bytes that is copied |
| Sha1.Rotations | ext/klib/kurl.c:325-325 | the three shifts-and-or are rotations by 1, 5 and 30 |
| Sha1.PaddingShape | ext/klib/kurl.c:365-377 | the padding is 0x80, zeros and in eight bytes the number of bits, up to the next whole block and no further |
| Sha1.WindowNext | ext/klib/kurl.c:331-334 | the 16-word circular schedule holds the last 16 words of the 80-word one |
| Sha1.Stream.HashBlock | ext/klib/kurl.c:327-343 | one call is the compression of section 6.1.2 on the words in the buffer |
| Sha1.LoadedBlock | ext/klib/kurl.c:347-347 | storing bytes at offset xor 3 in little-endian words is reading them in network order |
| Sha1.Stream.Write | ext/klib/kurl.c:354-363 | the stream stands for what it was fed before and the new bytes |
| Sha1.CountOctets | ext/klib/kurl.c:370-377 | the shifts of the 32-bit byte counter write the 64-bit bit length, for messages below 2^32 bytes |
| Sha1.SwapGivesBytes | ext/klib/kurl.c:378-382 | the byte swap leaves the digest in network order in memory |
| Sha1.Stream.Final | ext/klib/kurl.c:365-383 | the digest is the hash chain over the fed bytes and the padding for the counter |
| Sha1.HashChunks | ext/klib/kurl.c:317-383 | for every way of splitting a message below 2^32 bytes into writes: the digest of FIPS 180-4 with the padding of section 5.1.1 |
| Sha1.InitHmac | ext/klib/kurl.c:388-400 | keys of any length fill one block, hashed first if longer than it |
| Sha1.FinalHmac | ext/klib/kurl.c:402-410 | the outer hash over the other masked key and the inner digest |
| Sha1.HmacChunks | ext/klib/kurl.c:388-410 | the HMAC of section 2 of RFC 2104, for every key and every chunking |
| Sha1.HmacMasks | ext/klib/kurl.c:385-410 | the two blocks hashed in front are the key, hashed if longer than a block, with each byte masked by 0x36 and 0x5c, and those bytes themselves behind the key |
| FrameDecoder.DecodeResume | src/magit_server.c:42-85 | parsing can be resumed from the unfinished rest, and nothing follows an unacceptable length |
| FrameDecoder.Parser.TakeLength | src/magit_server.c:45-69 | copies what is missing of the length, and with all four bytes there accepts exactly 1 to 65536 |
| FrameDecoder.Parser.TakePayload | src/magit_server.c:71-83 | copies what is missing of the payload and delivers it when it is complete |
| FrameDecoder.Parser.Consume | src/magit_server.c:42-85 | after any chunk, delivered frames and buffered rest are those of parsing all bytes received so far at once, which is the one parse `ParseOf` allows; one error per non-empty chunk that meets or follows a bad length |
| FrameDecoder.FeedAll | src/magit_server.c:42-85 | for every chunking, the frames of the whole stream |
| FrameDecoder.DecodeParses | src/magit_server.c:42-85 | a stream has exactly one parse and the parser finds it: messages of 1 to 65536 bytes as they were written, and a rest that holds no further message, or begins with another length |
| FrameDecoder.NetworkOrder | src/magit_server.c:57-59 | the length has its highest byte first |
| FrameDecoder.HeaderRoundTrip | src/msgpack_handler.c:115-122 | the four header bytes are read back as the length they were written for |
| FrameDecoder.FrameDecodes | 2.py:35-42 | a written frame is delivered intact, whatever follows, iff its body has 1 to 65536 bytes; otherwise nothing more is |
| Msgpack.UnpackUint | 2.py:24-32 | each of the four widths is read back as the number, whatever follows |
| Msgpack.UnpackStr | 2.py:10-21 | each of the four string formats is read back as the string, whatever follows |
| Msgpack.UnpackStatusBody | 2.py:35-41 | a request body is read as the map of its id, command and directory |
| Msgpack.Recv | src/msgpack_handler.c:134-194 | for payloads of any MessagePack types, the loop over the entries stops at the first bad one with its error code, and otherwise uses the last value of each key |
| Msgpack.FirstBad | src/msgpack_handler.c:152-180 | the entry whose error is returned is the first bad one |
| Msgpack.Refused | src/msgpack_handler.c:152-180 | the codes for the first entry of a wrong type: 1 for a key that is no number, 2 for the id, 3 for the command, 4 for the directory |
| Msgpack.Answered | src/msgpack_handler.c:134-194 | the code is -1 for what is no map, and 5 for every map whose entries have the right types |
| Msgpack.StatusRequestHandled | src/msgpack_handler.c:186-193 | a request is queued with its id and directory iff the id is not 0 and the command is the status command |
| Msgpack.StatusMessageArrives | 2.py:35-42 | from the client's arguments to the queued request, for every chunking and whatever follows; a longer body breaks the conversation |
| AvlShape.BalancedCount | ext/klib/kavl.h:69-69 | a balanced tree of height h has at least the h-th Fibonacci-like number of nodes |
| AvlShape.DepthBound | ext/klib/kavl.h:144-144 | fewer than 2^32 nodes means a height below 64, so no path or stack array is left |
| AvlMoves.Rotate1Order | ext/klib/krmq.h:159-170 | a single rotation keeps the order |
| AvlMoves.Rotate1Mins | ext/klib/krmq.h:161-168 | and the subtree minima, of which only one is computed anew |
| AvlMoves.Rotate1Balances | ext/klib/krmq.h:311-322 | and balances a subtree that leans by two, the height dropping iff the child leaned too |
| AvlMoves.Rotate2Order | ext/klib/krmq.h:172-192 | a double rotation keeps the order |
| AvlMoves.Rotate2Mins | ext/klib/krmq.h:172-184 | and the subtree minima |
| AvlMoves.Rotate2Balances | ext/klib/krmq.h:186-190 | and balances, the height dropping by one, in all three cases of the grandchild |
| KrmqRotate.UpdateMin | ext/klib/krmq.h:154-157 | the node or a child's minimum, whichever is lightest, the earlier one on ties |
| KrmqRotate.Rotate1 | ext/klib/krmq.h:159-170 | the links, sizes and minima of the two nodes become those of the rotated tree; no other node changes |
| KrmqRotate.Rotate2 | ext/klib/krmq.h:172-192 | the same for the three nodes of a double rotation |
| KrmqInsert.GrowSizes | ext/klib/krmq.h:222-222 | every node on the path counts the new one |
| KrmqInsert.WeighUp | ext/klib/krmq.h:223-226 | minima are right on the whole path although the loop stops at the first that does not change to the new node |
| KrmqInsert.LeanDown | ext/klib/krmq.h:227-229 | from the critical node down every balance leans towards the new node |
| KrmqInsert.RotateInsert | ext/klib/krmq.h:231-238 | a critical node that leans by two is rotated back to the old height |
| KrmqErase.Unlink | ext/klib/krmq.h:271-301 | the node's successor, or its only subtree, takes its place, in all three cases |
| KrmqErase.WeighAll | ext/klib/krmq.h:302-303 | the minima of the whole path are right again |
| KrmqErase.RotateErase | ext/klib/krmq.h:311-322 | the rotation of a deletion balances, and says whether the height stayed |
| KrmqErase.BalanceUp | ext/klib/krmq.h:304-325 | rebalancing may stop as soon as a height does not change |
| Krmq.RmqTree.Find | ext/klib/krmq.h:82-95 | the node with the key or null iff there is none, with the number of keys not above it |
| Krmq.RmqTree.Interval | ext/klib/krmq.h:96-108 | the node itself, or the neighbours in key order, null at the ends |
| Krmq.RmqTree.Insert | ext/klib/krmq.h:195-242 | a new key comes to its rank and nothing else moves; a present one is returned and nothing changes; order, balance, sizes and minima are kept |
| Krmq.RmqTree.Erase | ext/klib/krmq.h:245-327 | the node with the key leaves the order at the rank reported; an absent key changes nothing; all invariants are kept |
| Krmq.RmqTree.EraseFirst | ext/klib/krmq.h:265-327 | without a key the first node leaves a tree that is not empty |
| KrmqQuery.Together | ext/klib/krmq.h:115-133 | the two descents meet the same nodes until the keys part them |
| KrmqQuery.NoneCommon | ext/klib/krmq.h:130-133 | no common node inside the interval means that no key lies in it |
| KrmqQuery.Rmq | ext/klib/krmq.h:111-150 | a lightest node with a key in the closed interval, or null iff there is none, also for an empty interval |
| Krmq.RmqTree.Rmq | ext/klib/krmq.h:111-150 | the same on a tree after any insertions and deletions |
| Krmq.RmqTree.Traverse | ext/klib/krmq.h:347-380 | iterating over a tree after any insertions and deletions lists its nodes in order |
| KrmqIterate.Iterator.First | ext/klib/krmq.h:347-351 | the iterator stands at the first node |
| KrmqIterate.Iterator.Next | ext/klib/krmq.h:365-380 | it goes from each node to the next in order, and says when there is none |
| KrmqIterate.InOrder | ext/klib/krmq.h:347-380 | first and repeated next list exactly the in-order sequence |
| Kbtree.GetAux | ext/klib/kbtree.h:105-118 | the binary search gives the last key not above `k`, -1 if there is none, and whether it is `k` |
| Kbtree.Split | ext/klib/kbtree.h:162-177 | a full child becomes two with t-1 keys, its middle key comes up |
| Kbtree.SplittedOrder | ext/klib/kbtree.h:162-177 | the key sequence of the whole stays the same |
| Kbtree.PutAux | ext/klib/kbtree.h:178-198 | the subtree has exactly one key more, in its place, and stays a B-tree; the result is the node and the place that hold the key |
| KbtreeDelete.BorrowLeft | ext/klib/kbtree.h:264-270 | keys and a child move around through the parent; the key sequence stays the same |
| KbtreeDelete.BorrowRight | ext/klib/kbtree.h:271-277 | the same from the other side |
| KbtreeDelete.MergeAt | ext/klib/kbtree.h:249-260 | two children with t-1 keys and the key between them become one full node; the key sequence stays the same |
| KbtreeDelete.Fill | ext/klib/kbtree.h:262-298 | afterwards the child to go down to has a key to spare and all the keys it had |
| KbtreeDelete.DelSwap | ext/klib/kbtree.h:239-248 | the predecessor or successor replaces the key and leaves its own place |
| KbtreeDelete.DelAux | ext/klib/kbtree.h:221-300 | exactly the key, or for the other modes the last or first key, leaves the subtree, and it is what is returned |
| KbtreeDelete.WithoutMiddle | ext/klib/kbtree.h:239-259 | removing a key that stands between two parts leaves the parts |
| Btree.BTree.constructor | ext/klib/kbtree.h:62-76 | an empty tree |
| Btree.BTree.Shape | ext/klib/kbtree.h:162-314 | between calls: keys ascend, are counted by `n_keys`, all leaves at one depth, every node but the root with t-1 to 2t-1 keys |
| Btree.BTree.DepthBound | ext/klib/kbtree.h:35-35 | the 64 positions of an iterator suffice as long as an `int` counts the keys |
| Btree.EnoughKeys | ext/klib/kbtree.h:35-35 | a subtree of height h has at least t^(h+1) - 1 keys |
| Btree.BTree.Get | ext/klib/kbtree.h:121-133 | the place of the key, or null iff it is absent |
| Btree.BTree.Interval | ext/klib/kbtree.h:140-157 | the greatest key not above and the least key not below, none iff there is none, both the key itself if present |
| Btree.BTree.Put | ext/klib/kbtree.h:199-213 | the key set grows by exactly the absent key, in order, the result is where the key is stored, and the tree stays a B-tree |
| Btree.BTree.Del | ext/klib/kbtree.h:301-314 | the key set loses exactly the present key, which is returned, and the tree stays a B-tree; an empty root gives way |

## Left out

- Packed bit fields: the `used` words of `khashl.h` and the two-bit flags of `khash.h` are arrays of bools and of three-valued flags.
- Bit tricks are their arithmetic meaning: `& mask` a remainder, `n & (n - 1)` the test for a power of two, `kroundup32` the next power of two, the load factor 0.77 an exact fraction.
- Failure of `malloc`, and 32-bit wrap-around beyond the bounds that contracts state (2^31 buckets, 2^30 entries when `khash.h` has to grow, 2^32 tree nodes).
- Sha1.HashChunks: does not say what a message of 2^32 bytes or more gives, because the byte counter has wrapped around by then.
- BoyerMoore.Memmem: not for the empty pattern, for which the tables have no meaning.
- `kcalloc`, `krelocate`, `km_destroy` and a null allocator of `kalloc.c`.
- KtFor.EachIndexOnce: the counters do not overflow, and the loop for one thread is left out; `kt_forpool` is left out, since its workers are armed again outside the mutex.
- KtPipeline.DrainedRunsEnd: a run with early wake-ups without end is not excluded; fairness of the scheduler is not modelled.
- KExpr.ParsePrinted: works on tokens, not characters, and on operators and values, not functions, variables or commas; which token orders give a wrong number of arguments is not characterised, apart from `Parse`.
- KExpr.Eval: values and the meaning of each operator are arbitrary, so nothing is said of the integer and floating-point operators themselves.
- Msgpack.Recv: the MessagePack library is not part of this model, which follows the formats of the specification; its limits on nesting and memory are left out, and objects that the server only refuses are not told apart.
- The reading loop `read_exact` of `2.py`, replies, and everything of the server behind the queue: libuv, libgit2, processes and files.
- Krmq.RmqTree.EraseFirst: not for an empty tree, where the source takes its own stack node for the first one and indexes in front of the path (`ext/klib/krmq.h:266-273`).
- Krmq.RmqTree.Erase: the fields of the stack node `fake` that C leaves unset may hold anything; freed nodes stay in the ghost memory.
- `kavl.h` as a separate model: it is `krmq.h` without minima, and the members here cover it with the minima ignored. `kavl_itr_find` and `krmq_itr_prev` are left out.
- The 64-entry arrays of the balanced trees are sequences, and every index used to write them is proved to be below 64; the direction array is a sequence of bools.
- Btree.BTree.Put: putting a key that is there is not modelled; the source then keeps it twice, and the tree is no set any more.
- Kbtree.PutAux: a key that is there, as for Btree.BTree.Put.
- Btree.BTree.Del: deleting a key that is not there is not modelled; the source then takes a neighbour out of the leaf it ends in, or reads in front of the keys (`ext/klib/kbtree.h:230-236`).
- `n_nodes` and the iterators of `kbtree.h`; the number of keys per node is given as `t`, not computed from a byte size.
- KbtreeDelete.DelAux: an absent key, as for Btree.BTree.Del; the key that the source passes as a null pointer when it looks for a predecessor or successor is an unused argument here.
- The base64 output of `s3_sign`, heap and quick sorts, `kavl-lite.h`, simple containers, numerics and the code that `src/CMakeLists.txt` does not build.
