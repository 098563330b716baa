# Verified models of Xen's checkpoint compression, allocators, rings and tools

This project models ten pieces of Xen 4.2.2 in Dafny and proves what each of
them is for. All files are verified together: `dafny verify dfyconfig.toml`.

* **Checkpoint compression** (`PageDelta`, `PageGrammar`, `PageCodec`, `DeltaCache`,
  `PageList`, `CompressionContext`, `Checkpoint`, `CheckpointLoss`): the run-length delta
  format, its encoder and decoder loops, the LRU page cache over linked slots,
  and the protocol between sender and receiver. The main theorem,
  `Checkpoint.RunFollows`, is about every legal run; the in-place code is tied to
  it by `CompressionContext.Context.CompressPages` and
  `PageCodec.UncompressPage`. `CheckpointLoss` shows what happens in runs that
  are not legal, and exactly when.
* **Mini-OS page allocator** (`BuddyBlocks`, `BuddyPool`, `FreeLists`,
  `AllocBitmap`, `PageAllocator`): a binary buddy allocator with a bitmap and
  lists through the free pages themselves.
* **vchan** (`Vchan`, `VchanProgress`, `VchanCalls`, `VchanDeadlock`): one direction of the
  shared ring as interleaved atomic steps of a reader and a writer.
* **kexec** (`KexecExchange`): the P2M table permuted in place while pages are
  allocated out of the memory it describes.
* **xenalyze** (`Percentile`, `RecordOrder`, `RecordMerge`, `RecordStarts`,
  `RecordAnalysis`, `RecordRestart`, `Mread`): selection, the k-way merge of trace records, a trace
  it processes in part twice, and the mapped-window file reader.
* **Mini-OS scheduler, grant references, block completion** (`Sched`, `Gnttab`,
  `Blkfront`) and the **core file writer** (`ElfFormat`, `CoreDump`,
  `CoreLayout`).

`Common` holds the few definitions that several of them share.

Code that updates arrays, lists or structures in place is a class or a method
with loops here; concurrent code is a state machine over its atomic steps.
Linked structures keep their links as index-valued fields.

## Assumptions

* Compression: a legal run adds pfns below the size of the index, never lets a
  page that misses the cache meet a buffer with less room than a full page, and
  never adds a raw page behind an ordinary version of it in the same buffer. The
  code enforces the first but for one pfn, and the others not at all.
  `Context.AddPage`, `RoundSafeExactlyWithRoom` and `RawJoinsExactly` give the
  exact conditions. The receiver knows the pfns in order, as its batch headers
  say.
* Allocator: page headers span 2^top pages, addresses are page numbers, and
  blocks passed to `FreePages` are allocated blocks of the given order. The level
  written at the end of a chunk is never read and is left out. For page counts
  that leave 0 to 7 modulo 32768 the source uses one word behind its bitmap, which
  is the first word of the pool itself; the model gives the bitmap that word, all
  ones, as if nothing else used it (`BitmapInBounds`).
* vchan: both sides stay connected, event channels deliver, and ring sizes are
  powers of two up to 2^30. Barriers in the source justify one global order of
  the steps.
* kexec: `alloc_page` returns pages of a fixed pool, each once; pages given up by
  a smaller bound are lost to it. Frames exchanged in are not pool pages, or the
  condition of `ExchangeSettles` holds.
* xenalyze: percentiles are below 100 and N * ple fits an `int`; within the records
  of one cpu time stamps never decrease, both of a record of lost records included;
  if its second is not later, the error raised is one that is tolerated. What the
  scan ahead would find is kept with the record it is made on, a window of the cpu
  whose record that is. Window mappings succeed. Cpu numbers are below MAX_CPUS: the
  source rejects only larger ones, so the number equal to it would index past its
  arrays.
* Mini-OS: sections with interrupts disabled are atomic; a thread ends only
  grants it holds; the block backend answers each request once. Ring indices do
  not wrap a full 2^32 within one callback.
* Core files: little-endian x86, where the architecture context is empty, and a
  write callback that succeeds.

## Where code and documentation differ

* The comment above `record_order_bubble` says the list is in order except for
  its first entry; with cpus activated meanwhile it is another entry, and the
  code handles that. The model follows the code.
* The comment in `xc_compression.c` describes running out of space as "flush and
  come back". For a page that missed the cache this is not harmless, because its
  slot is claimed first. The one caller in the tree makes sure of 8192 bytes only,
  where the second uncached page fails (`LostMiss`); even its whole 16 MiB buffer
  ends in the 4095th uncached page of a batch (`CallersBatch`).
* The comment above `deactivate_pcpu` says that the scan ahead activates a cpu
  that is not already active. A cpu that has ended is not, so its last windows can
  be processed again (`RestartRepeats`).
* `mm.c` rounds the size of the bitmap down before rounding it up to pages, so for
  some memory sizes it is a word too short (`BitmapInBounds`).

## Model

| member | source | states |
|---|---|---|
| `PageDelta.EncodeFits` | tools/libxc/xc_compression.c:86-102 | no page, whatever mix of changed and unchanged words, needs more than 4105 bytes, so the one space check of compress_page covers all its writes |
| `PageDelta.AllChangedIsWorst` | tools/libxc/xc_compression.c:86-102 | the bound is tight: a page changed in every word needs exactly 4 bytes a word and one header for each 127 words |
| `PageDelta.RunsFit` | tools/libxc/xc_compression.c:146-205 | the same bound for every suffix of the page, three bytes better if the suffix starts unchanged; this is the induction behind 4105 |
| `PageDelta.RunIsMaximal` | tools/libxc/xc_compression.c:157-193 | a run holds words of one kind and ends only at a word of the other kind, at 127 words or at the end of the page |
| `PageDelta.RunsOpenUnambiguously` | tools/libxc/xc_compression.c:104-109 | a delta of a changed page never opens with the EMPTY or FULL marker byte, so the decoder cannot mistake a run for a marker |
| `PageDelta.RoundTrip` | tools/libxc/xc_compression.c:135-206 | decoding a delta over the page it was taken against yields the new page and consumes exactly the bytes produced, whatever follows |
| `PageDelta.FullRoundTrip` | tools/libxc/xc_compression.c:119-133 | a full page restores itself over any page and consumes exactly 4097 bytes |
| `PageDelta.DecodeDelta` | tools/libxc/xc_compression.c:365-454 | what a delta does to a receiver that holds any page at all: words that changed at the sender are taken over, all others keep the receiver's bytes |
| `PageDelta.PatchedWord` | tools/libxc/xc_compression.c:365-454 | word by word: a decoded word is wrong exactly if the delta skipped it and the receiver had it wrong |
| `PageDelta.WrongBase` | tools/libxc/xc_compression.c:365-454 | a delta against the wrong base still restores the page if and only if the receiver already has every word the delta skips |
| `PageCodec.AddFullPage` | tools/libxc/xc_compression.c:119-133 | emits the full-page form and installs the page in the cache slot, or changes nothing and fails exactly when 4097 bytes do not fit |
| `PageCodec.CompressPage` | tools/libxc/xc_compression.c:135-206 | fails exactly when 4105 bytes do not fit; otherwise the scan over run state emits the specified delta, never overruns the buffer, and leaves the cached copy equal to the new page |
| `PageCodec.CompressRuns` | tools/libxc/xc_compression.c:157-193 | the word loop with its final flush produces the runs of the specification, updates the cache copy in place as it goes, and never writes more than 4105 bytes, also for an unchanged page before its headers are cut to one byte |
| `PageCodec.FlushAt` | tools/libxc/xc_compression.c:164-190 | a flush inside the loop happens at the point and with the contents the format asks for |
| `PageCodec.EmptyExactlyWhenUnchanged` | tools/libxc/xc_compression.c:195-202 | the byte counter reaches the page size exactly if no word changed, which is when the empty-page marker replaces the run |
| `PageCodec.EncodeByScan` | tools/libxc/xc_compression.c:135-206 | the accumulating scan of the loop computes the recursively specified encoding |
| `PageCodec.UncompressPage` | tools/libxc/xc_compression.c:365-454 | the in-place decoder agrees with the specified decoding on every byte stream and position, including all corrupt and truncated ones and the partial writes they leave; PageGrammar.AcceptedExactly says which those are |
| `PageCodec.ReadRun` | tools/libxc/xc_compression.c:405-438 | one pass of the run loop, with both bounds checks and the zero-length error |
| `PageGrammar.AcceptedExactly` | tools/libxc/xc_compression.c:365-454 | stated without the decoder: a stream is accepted if and only if it begins with an empty-page marker, a full-page marker and 4096 bytes, or runs of 1 to 127 words that add up to the page exactly, in their bytes; every other stream is an error |
| `PageGrammar.UnitDecodes` | tools/libxc/xc_compression.c:365-454 | such a page is taken off the front of the stream whatever follows, and its meaning is that of its runs laid over the page held, in order |
| `PageGrammar.AcceptedStays` | tools/libxc/xc_compression.c:365-454 | bytes that follow change nothing about a page that is complete |
| `PageGrammar.CutShortIsCorrupt` | tools/libxc/xc_compression.c:381-438 | a page of the encoder, delta or full, cut anywhere before its last byte is an error over whatever page is held |
| `DeltaCache.KeepsMostRecent` | tools/libxc/xc_compression.c:208-285 | after any sequence of uses and invalidations the occupied slots are the most recently used pfns in order: a page is evicted only if it is the least recently used one |
| `DeltaCache.HoldsAsManyAsFit` | tools/libxc/xc_compression.c:208-253 | without invalidations the cache holds as many of the used pfns as it has slots |
| `DeltaCache.TouchOccupied` | tools/libxc/xc_compression.c:216-227 | a miss takes a free slot while there is one and evicts only from a full cache |
| `DeltaCache.TouchKeeps` | tools/libxc/xc_compression.c:208-253 | a use keeps free slots at the end and pfns distinct |
| `DeltaCache.DropKeeps` | tools/libxc/xc_compression.c:255-285 | an invalidation keeps both, and the pfn is then not cached |
| `PageList.IndexFinds` | tools/libxc/xc_compression.c:214-216 | pfn2cache finds a slot exactly for cached pfns, and the right one |
| `PageList.Reindex` | tools/libxc/xc_compression.c:216-227 | evicting the old pfn of a slot and claiming it for another keeps pfn2cache and the slots' pfns mutually inverse |
| `PageList.TouchEntries` | tools/libxc/xc_compression.c:208-253 | moving the slot to the head under its pfn is the use of that pfn on the abstract cache |
| `PageList.DropEntries` | tools/libxc/xc_compression.c:255-285 | moving the slot to the tail freed is the invalidation on the abstract cache |
| `Checkpoint.RunFollows` | tools/libxc/xc_compression.c:119-357 | over every legal run of added pages and compressed batches nothing decodes as corrupt, every cached page equals the receiver's copy, and when the buffer is drained the receiver holds for every pfn the last page the sender added |
| `Checkpoint.EmitOneAgrees` | tools/libxc/xc_compression.c:329-351 | one round of the loop: the bytes restore the page at the receiver and the caches still agree; if a hit or a raw page does not fit nothing was sent and they agree as before |
| `Checkpoint.EmitAllAgrees` | tools/libxc/xc_compression.c:329-351 | a whole batch, cut off anywhere by the end of the buffer, is received as exactly the pages emitted |
| `Checkpoint.RoomForAll` | tools/libxc/xc_compression.c:86-102 | 4105 bytes for each pending page are enough for the whole batch, and then all of it is sent |
| `Checkpoint.GoesOutExactly` | tools/libxc/xc_compression.c:329-351 | a page goes out if and only if its room is left: 4105 bytes for a cached page, whatever its delta will be, 4097 for any other |
| `Checkpoint.StopsForRoom` | tools/libxc/xc_compression.c:329-351 | a batch that stops short does so at a page that does not have its room left, and everything before that page is out |
| `Checkpoint.CodeExactly` | tools/libxc/xc_compression.c:312-357 | the return code: 0 exactly if no page was waiting, and then the buffer is emptied; 1 exactly if all that waited is out; -1 exactly if some still wait, and then none is dropped |
| `Checkpoint.MakesProgress` | tools/libxc/xc_compression.c:329-354 | a buffer of 4105 bytes gets at least one page past, so the caller's retry loop makes progress |
| `CheckpointLoss.RoundSafeExactlyWithRoom` | tools/libxc/xc_compression.c:216-227 | false of the code without a condition: claiming a slot precedes the space check. A round keeps sender and receiver in agreement, whatever page its last slot holds, free or about to be evicted, if and only if a miss has room for a full page |
| `CheckpointLoss.MissWithoutRoom` | tools/libxc/xc_compression.c:216-227 | after a miss without room, sender and receiver agree only if the evicted bytes happen to be the receiver's copy |
| `CheckpointLoss.RetryAfterLostMiss` | tools/libxc/xc_compression.c:329-351 | the retry then sends a delta against stale bytes, and restores the page if and only if the receiver has every word those bytes share with the new page |
| `CheckpointLoss.OutOfStepCorrupts` | tools/libxc/xc_compression.c:329-351 | a cached page that is not the receiver's is enough: sending that page again is taken for unchanged and leaves the receiver as it was |
| `CheckpointLoss.ColdBatchExactly` | tools/libxc/xc_compression.c:329-351 | a batch of n different uncached pages meets no miss without room if and only if 4097 * n bytes fit |
| `CheckpointLoss.LostMissCorrupts` | tools/libxc/xc_compression.c:312-357 | a run from a new context of 8192 slots, two uncached pages and buffers of 8192 bytes, that ends with everything sent and the wrong page at the receiver |
| `CheckpointLoss.RawJoins` | tools/libxc/xc_compression.c:296-302 | a raw page joins any buffer; when all is sent, cache and receiver are in step if and only if the cache does not hold the page again or the version buffered last before it was equal to it |
| `CheckpointLoss.RawJoinsExactly` | tools/libxc/xc_compression.c:296-302 | hence, with no more pages waiting than slots, a raw page joins safely whatever it contains if and only if no ordinary version of it waits in the buffer |
| `CheckpointLoss.RawLost` | tools/libxc/xc_compression.c:287-357 | a run from any start: an ordinary page, a raw version of it, both sent, then the ordinary version again; everything is sent, and the receiver holds the raw page where the ordinary one was added last, wrong if and only if they differ |
| `CheckpointLoss.CachedAfter` | tools/libxc/xc_compression.c:208-253 | whether a page is cached after a batch: each page emitted moves it back by at most one slot, and an ordinary version of it brings it to the front |
| `CheckpointLoss.CallersBatch` | tools/libxc/xc_domain_save.c:66-66 | with the 16 MiB buffer of the caller a batch of uncached pages is safe if and only if it has at most 4094 of them; the page buffer takes 8192 |
| `CheckpointLoss.LostMiss` | tools/libxc/xc_domain_save.c:223-245 | the same for any two pages where the second equals what its slot last held: 8192 bytes, all that the caller makes sure of, are not enough |
| `CompressionContext.Cache.constructor` | tools/libxc/xc_compression.c:526-537 | the list holds every slot in table order, all free, and the index is empty |
| `CompressionContext.Cache.GetCachePage` | tools/libxc/xc_compression.c:208-253 | the linked version is the use of the pfn on the abstract cache, with the flag set exactly on a miss |
| `CompressionContext.Cache.InvalidateCachePage` | tools/libxc/xc_compression.c:255-285 | the linked version is the invalidation on the abstract cache, head, middle and tail alike |
| `CompressionContext.Cache.Unlink` | tools/libxc/xc_compression.c:230-243 | takes any slot but the last remaining one out of the list |
| `CompressionContext.Context.constructor` | tools/libxc/xc_compression.c:473-541 | a new context has no pages buffered and nothing cached |
| `CompressionContext.Context.AddPage` | tools/libxc/xc_compression.c:287-310 | buffers the page as the abstract sender does, with the three return codes; the context stays in order if and only if the page is raw or its pfn is not the size of the index, which the check lets pass |
| `CompressionContext.Context.EmitNext` | tools/libxc/xc_compression.c:329-351 | one round of the loop over the in-place cache is one round of the abstract sender, bytes and all |
| `CompressionContext.WholeBatchStep` | tools/libxc/xc_compression.c:329-351 | a round moves its page's bytes from what is to come to what is out and leaves the batch as a whole the same |
| `CompressionContext.Context.CompressPages` | tools/libxc/xc_compression.c:312-357 | the whole loop emits exactly the batch of the abstract sender, so the run theorem holds of the in-place code |
| `AllocBitmap.BelowMask` | extras/mini-os/mm.c:63-66 | subtracting one from a single set bit sets exactly the bits below it |
| `AllocBitmap.FromMask` | extras/mini-os/mm.c:63-66 | negating a single set bit sets exactly the bits from it on |
| `AllocBitmap.Bitmap.MapAlloc` | extras/mini-os/mm.c:72-91 | marks exactly the given pages, for ranges within a word and across words |
| `AllocBitmap.Bitmap.MapFree` | extras/mini-os/mm.c:94-113 | clears exactly the given pages |
| `BuddyPool.RequestMetExactlyWhenFree` | extras/mini-os/mm.c:258-306 | some list of at least the order asked for has a chunk if and only if an aligned block of that order is entirely free |
| `BuddyPool.FreeBlockHeld` | extras/mini-os/mm.c:258-306 | an aligned block that is entirely free lies within one free chunk, because no two buddies are ever both free |
| `BuddyPool.ChunksAreCanonical` | extras/mini-os/mm.c:200-362 | the free chunks are determined by the free pages alone, whatever was allocated and freed before |
| `BuddyPool.ChunksDisjoint` | extras/mini-os/mm.c:200-362 | different free chunks have no page in common |
| `BuddyPool.BuddyPageIsHead` | extras/mini-os/mm.c:324-341 | the buddy page that free_pages examines, if free, is the head of a real chunk of order no greater than the current one |
| `BuddyPool.SplitOk` | extras/mini-os/mm.c:279-295 | splitting a block and listing its upper half keeps all of this |
| `BuddyPool.MergeOk` | extras/mini-os/mm.c:322-351 | joining a block with its listed buddy keeps all of this |
| `BuddyPool.AttachOk` | extras/mini-os/mm.c:353-360 | listing a block keeps all of this if its buddy is not listed |
| `BuddyPool.DetachOk` | extras/mini-os/mm.c:273-276 | unlisting a chunk keeps all of this |
| `FreeLists.PushLinked` | extras/mini-os/mm.c:353-360 | linking a chunk in at the head of its list gives that list, next and pprev consistent |
| `FreeLists.UnlinkLinked` | extras/mini-os/mm.c:346-348 | the two writes through pprev take a chunk out of its list wherever it is |
| `FreeLists.ScribbleAll` | extras/mini-os/mm.c:121-128 | headers in allocated pages may hold anything without disturbing a list |
| `FreeLists.BuddyTest` | extras/mini-os/mm.c:324-341 | the test "not allocated and level equal to order" holds if and only if the buddy is a listed chunk of that order, although the level it reads may be stale user data |
| `PageAllocator.BitmapInBounds` | extras/mini-os/mm.c:216-226 | every word that initialisation, allocation and release touch lies in the bitmap if and only if the page count modulo 32768 is at least 8; otherwise one word is missing, and in its place is the first word of the pool |
| `PageAllocator.BitmapCovers` | extras/mini-os/mm.c:216-221 | false of the code for some sizes: the bitmap has a bit for every page if and only if the page count modulo 32768 is 0 or at least 8; 32769 pages is a counterexample |
| `PageAllocator.PlaceOk` | extras/mini-os/mm.c:232-253 | the greedy cut of the initial range never lists a chunk whose buddy is listed |
| `PageAllocator.Allocator.constructor` | extras/mini-os/mm.c:200-254 | initialisation leaves exactly the given range free, in lists that satisfy the invariant, whatever memory held; the bitmap has the words the source sets aside, and one more exactly for the sizes where that one is missing |
| `PageAllocator.Allocator.ChunkOrder` | extras/mini-os/mm.c:238-239 | the next chunk is the largest that is aligned and fits |
| `PageAllocator.Allocator.AllocPages` | extras/mini-os/mm.c:258-306 | returns 0 if and only if no aligned free block of the order exists; otherwise returns one cut from the smallest order that has a chunk, marks its pages and no others, and keeps the invariant |
| `PageAllocator.Allocator.Split` | extras/mini-os/mm.c:278-295 | halves a chunk down to the order asked for, with every spare half listed |
| `PageAllocator.Allocator.Merge` | extras/mini-os/mm.c:321-351 | merges exactly as long as the buddy is a free chunk of the same order, and stops below the top order |
| `PageAllocator.Allocator.FreePages` | extras/mini-os/mm.c:308-362 | clears exactly the block's pages and keeps the invariant, buddies merged |
| `PageAllocator.Allocator.UserWrite` | extras/mini-os/mm.c:121-128 | what the owner of allocated pages writes there keeps the invariant |
| `Vchan.PlaceIs` | tools/libvchan/io.c:180-192 | both parts of a copy, before and after the end of the ring, put each byte where its stream position says, also after the 32-bit index wrapped |
| `Vchan.CopyKeepsBytes` | tools/libvchan/io.c:180-192 | writing the next byte of a copy disturbs no unread byte and none copied before |
| `Vchan.ReaderCopiesByte` | tools/libvchan/io.c:251-263 | the byte read is the next of the stream, although the writer is active meanwhile |
| `Vchan.StepSafe` | tools/libvchan/io.c:95-307 | every step of either side, in any state, keeps the byte stream intact; what a whole call gives back is in VchanCalls |
| `VchanProgress.StreamIntact` | tools/libvchan/io.c:117-157 | over every interleaving the bytes consumed are a prefix of those sent and those of what was handed to write, in order, and the ring is never overfilled |
| `VchanProgress.StepCared` | tools/libvchan/io.c:95-113 | no wake-up is lost: a side that is to wait has an event pending, on its way, or requested with nothing yet to report |
| `VchanProgress.StuckMeansDone` | tools/libvchan/io.c:221-249 | where a run can come to rest: a finished write has sent everything; a waiting read has been given every byte there is; a waiting write has filled the ring, nobody reads, and the next read will wake it |
| `VchanProgress.ComesToRest` | tools/libvchan/io.c:221-307 | between calls no interleaving makes more than 8 * size + 64 steps, so neither side spins |
| `VchanProgress.RunSafe` | tools/libvchan/io.c:95-307 | both invariants hold in every reachable state |
| `VchanCalls.ReadTakesWhatIsReady` | tools/libvchan/io.c:292-307 | in every interleaving a read that returns has given exactly the smaller of what was asked for and what was ready the last time it looked, never nothing unless nothing was asked for, and the bytes are the next of the stream |
| `VchanCalls.WriteSendsAll` | tools/libvchan/io.c:221-249 | in every interleaving a write that returns has sent all it was given, right behind what was sent before |
| `VchanCalls.LookDecides` | tools/libvchan/io.c:292-307 | a look at the ring either finds nothing and goes on searching, or takes the smaller of what is asked for and what is ready |
| `VchanDeadlock.DeadlockNeedsEmptyRead` | tools/libvchan/io.c:292-307 | both sides asleep with nothing pending requires that the current read asked for no bytes |
| `VchanDeadlock.EmptyReadDeadlocks` | tools/libvchan/io.c:117-122 | a concrete run into that state for every ring size, from the bits the set-up code leaves |
| `VchanDeadlock.DeadlockExactly` | tools/libvchan/io.c:292-307 | blocking reads and writes can deadlock if and only if reads of no bytes are among them |
| `KexecExchange.DestGrows` | stubdom/grub/kexec.c:96-106 | recording one more move redirects exactly the chains that ended at that page |
| `KexecExchange.PlaceSettles` | stubdom/grub/kexec.c:85-113 | exchanging page i with the page found by the chase is a transposition after which every page still in the pool is found by its chase, above i |
| `KexecExchange.ExchangeSettles` | stubdom/grub/kexec.c:58-75 | an exchange keeps that if and only if neither entry holds the frame of a page still in the pool, or nothing moves |
| `KexecExchange.BuiltHoldsNoUnused` | stubdom/grub/kexec.c:58-75 | entries of pages already built never hold such a frame, so exchanges into them are safe on that side |
| `KexecExchange.CutSettles` | stubdom/grub/kexec.c:77-118 | forgetting all but the first n pages keeps every page still in the pool findable if and only if none of them was moved to one of the places given up |
| `KexecExchange.CutCanLose` | stubdom/grub/kexec.c:77-118 | a table of three pages where that fails and the frame of a page is found no more |
| `KexecExchange.UpdatesComplete` | stubdom/grub/kexec.c:295-306 | applied in order, the updates turn the inverse of the old table into the inverse of the new one and leave every other frame alone |
| `KexecExchange.UpdatesAreUseful` | stubdom/grub/kexec.c:295-306 | every update changes an entry |
| `KexecExchange.Kexec.constructor` | stubdom/grub/kexec.c:186-191 | the table starts as a copy of the P2M in force |
| `KexecExchange.Kexec.Chase` | stubdom/grub/kexec.c:103-103 | the chase ends, and at the page whose entry is the frame looked for |
| `KexecExchange.Kexec.Exchange` | stubdom/grub/kexec.c:85-113 | one round of the loop |
| `KexecExchange.Kexec.Allocate` | stubdom/grub/kexec.c:77-118 | growing, each new page i gets the frame obtained for it, earlier entries keep theirs, the table stays a permutation of the P2M, and the call can be repeated, also after exchanges; shrinking keeps the pool findable under exactly the condition of CutSettles |
| `KexecExchange.Kexec.DoExchange` | stubdom/grub/kexec.c:58-75 | finds the frame if and only if the domain has it, swaps two entries and no others; the pool stays findable under exactly the condition above, in particular for a built target and a frame outside the pool |
| `KexecExchange.Kexec.M2pUpdates` | stubdom/grub/kexec.c:295-306 | the count made first is exactly the number of updates filled in, and they are those of the specification |
| `Percentile.Percentile` | xenalyze.hg/xenalyze.c:2010-2061 | returns 0 for no samples, otherwise the element that any sorted permutation of the samples has at rank N * ple / 100; the samples are permuted around it |
| `Percentile.Select` | xenalyze.hg/xenalyze.c:2022-2058 | ends, with nothing larger to the left of k and nothing smaller to its right |
| `Percentile.Partition` | xenalyze.hg/xenalyze.c:2026-2051 | one pass stays in bounds without checks, exchanges at least once and parts the range around the value |
| `Percentile.ScanUp` | xenalyze.hg/xenalyze.c:2034-2036 | the upward scan stops before it leaves the range |
| `Percentile.ScanDown` | xenalyze.hg/xenalyze.c:2037-2039 | the downward scan stops before it leaves the range |
| `Percentile.SelectedIsRank` | xenalyze.hg/xenalyze.c:2019-2020 | an element with nothing larger before it and nothing smaller after it is the one sorting would put there |
| `Percentile.CountBelowPermuted` | xenalyze.hg/xenalyze.c:2010-2061 | how many samples are below a value does not depend on their order |
| `RecordOrder.Order.constructor` | xenalyze.hg/xenalyze.c:9256-9256 | the order starts empty |
| `RecordOrder.Order.Insert` | xenalyze.hg/xenalyze.c:9297-9325 | puts a new cpu before the first with no smaller time stamp; distinctness means there is always room for it and the terminator |
| `RecordOrder.Order.Bubble` | xenalyze.hg/xenalyze.c:9272-9295 | moves a cpu past those with smaller time stamps only; the order is sorted afterwards if and only if the new time stamp is not below that of the cpu before it, in particular if it did not decrease |
| `RecordOrder.Order.Sink` | xenalyze.hg/xenalyze.c:9283-9294 | the shifting loop of the bubble |
| `RecordOrder.Order.Remove` | xenalyze.hg/xenalyze.c:9327-9341 | closes the gap and keeps the rest in order, with the terminator moved |
| `RecordOrder.Order.ChooseNext` | xenalyze.hg/xenalyze.c:9343-9357 | returns the first cpu, which has the smallest time stamp among it and those never started again, or none exactly if no cpu is active |
| `RecordOrder.BubbleSorts` | xenalyze.hg/xenalyze.c:9272-9295 | the if-and-only-if of the bubble, on lists |
| `RecordOrder.AtMostAll` | xenalyze.hg/xenalyze.c:9256-9256 | different cpus are at most MAX_CPUS, so the array with its terminator suffices |
| `RecordMerge.RoundOk` | xenalyze.hg/xenalyze.c:9359-9386 | one round of the merge, with whatever cpus it starts, keeps the invariant: each cpu has made its passes in order from where it last started, every stamped record at its own time stamp and one of lost records again at its second, and time goes back only right after a cpu started or for a cpu started more than once |
| `RecordMerge.RepeatedExactly` | xenalyze.hg/xenalyze.c:9359-9386 | when the merge is through, no pass over a record of a cpu has been made twice if and only if the cpu was started at most once |
| `RecordMerge.OncePerRecordExactly` | xenalyze.hg/xenalyze.c:9366-9379 | no record of a cpu has been processed twice if and only if the cpu never started, or started once and met no record of lost records from there on; such a record is processed twice by design |
| `RecordMerge.LostIsTwice` | xenalyze.hg/xenalyze.c:9366-9379 | the smallest input for that: one window with one record of lost records |
| `RecordMerge.RoundCosts` | xenalyze.hg/xenalyze.c:9359-9386 | the merge ends although ended cpus are started again and lost records are passed twice: every round uses up more than the starts in it can add |
| `RecordStarts.StartsExactly` | xenalyze.hg/xenalyze.c:8766-8866 | stated of the record in hand alone: a round starts a cpu for the first time if and only if the record opens a window of it, or opens one of the highest active cpu and the window after that is its; it starts another time if and only if it has ended and that scan finds it; each time at the window found |
| `RecordStarts.StartedExactly` | xenalyze.hg/xenalyze.c:8766-8866 | over whole runs: a cpu has started if and only if such a record was processed |
| `RecordStarts.StartsWhereAnnounced` | xenalyze.hg/xenalyze.c:8513-8572 | its first start is at the window come across first, and stays so |
| `RecordStarts.StartedOnceExactly` | xenalyze.hg/xenalyze.c:8513-8572 | over whole runs: a cpu has been started at most once if and only if in no round the scan found a window of it after it had ended |
| `RecordStarts.FromWindowOn` | xenalyze.hg/xenalyze.c:9359-9386 | once a window of a cpu is come across, every record of that cpu from the window on has been processed when the merge is through with it, and again at its second time stamp if it is one of lost records |
| `RecordStarts.ThroughIsDone` | xenalyze.hg/xenalyze.c:9359-9386 | a cpu that is through has made its passes from each of its starts to the end of the file and no others, has started if and only if it was come across, and made no pass twice if and only if the scan never found it again |
| `RecordRestart.RestartRepeats` | xenalyze.hg/xenalyze.c:8513-8572 | false of the code that every record is processed once: a trace of four windows where the scan starts an ended cpu again, its record is processed twice and time goes from 10 back to 5 |
| `RecordAnalysis.Analysis.OnChange` | xenalyze.hg/xenalyze.c:8766-8789 | a window of another cpu starts that cpu exactly if it was never started: the change of the merge on values, of which RecordStarts.StartsExactly says when it is a start |
| `RecordAnalysis.Analysis.OnScan` | xenalyze.hg/xenalyze.c:8858-8866 | a window of the highest active cpu itself starts the cpu of the window after it exactly if that one is not active |
| `RecordAnalysis.Analysis.Activate` | xenalyze.hg/xenalyze.c:8539-8567 | a started cpu is put into the order once, at its own time stamp, with its flag set and the highest active cpu kept |
| `RecordAnalysis.Analysis.Deactivate` | xenalyze.hg/xenalyze.c:8598-8625 | an ended cpu leaves the order, and the highest active cpu is found again by the loop over the flags |
| `RecordAnalysis.Analysis.Advance` | xenalyze.hg/xenalyze.c:9366-9384 | keeping a record of lost records in hand for its second pass, reading the next record of the chosen cpu, or dropping the cpu at its end, is the step of the merge on values |
| `RecordAnalysis.Analysis.PassAgain` | xenalyze.hg/xenalyze.c:9366-9379 | the event is renamed, the order stamp raised if the second one is later, and the cpu moved to its place |
| `RecordAnalysis.Analysis.ProcessOne` | xenalyze.hg/xenalyze.c:9359-9386 | a round of the loop over the array, the flags and the positions is the round of the merge on values |
| `RecordAnalysis.Analysis.ProcessRecords` | xenalyze.hg/xenalyze.c:9359-9386 | ends after some number of rounds; a cpu has then started if and only if one of its windows was come across, and made its passes from each of its starts to the end of the file, and no others, none twice if and only if the scan never found it again; time went back only right after a start or for a cpu started again |
| `Mread.Handle.constructor` | xenalyze.hg/mread.c:10-31 | a fresh handle has no window mapped and its hand at the first slot |
| `Mread.Handle.Tick` | xenalyze.hg/mread.c:91-109 | the clock stops within MREAD_MAPS + 1 steps, at the first slot that is free or was not accessed since the hand passed, clearing the bits it passes; a recently accessed window is given up only if all are |
| `Mread.Handle.Locate` | xenalyze.hg/mread.c:69-136 | finds the window of the offset or maps it; no two slots ever hold the same window, all are aligned, a hit leaves the clock alone, and a miss replaces exactly the window of the slot where the clock stops |
| `Mread.Handle.Scan` | xenalyze.hg/mread.c:78-86 | finds the slot that holds the window, or shows that none does |
| `Mread.Handle.Read` | xenalyze.hg/mread.c:33-159 | returns min(len, file size - offset) bytes equal to that slice of the file, across any number of window boundaries, and nothing beyond the end |
| `Mread.ShownIsFile` | xenalyze.hg/mread.c:136-146 | bytes of a mapped window are the bytes of the file at its place |
| `Sched.BoundedWaiting` | extras/mini-os/sched.c:76-139 | a thread at position k that could run at every pass is chosen within k + 1 passes, whatever the others create, end, block, wake or put to sleep |
| `Sched.MovesUp` | extras/mini-os/sched.c:100-117 | unless it is chosen, such a thread moves up one place with every pass and never down |
| `Sched.StaysAsleep` | extras/mini-os/sched.c:100-117 | a thread that is not runnable is never chosen before it is woken or its time has come, whatever else happens |
| `Sched.BlockedIsNotPicked` | extras/mini-os/sched.c:216-220 | a thread that calls block is not chosen at any later time, even if it had been asleep with a wake-up pending, until somebody wakes it |
| `Sched.SleeperIsNotPicked` | extras/mini-os/sched.c:222-228 | one that calls msleep is not chosen at any pass before its time, until somebody wakes it |
| `Sched.WokenIsPicked` | extras/mini-os/sched.c:230-234 | one that is woken at position k, blocked or asleep, is chosen within k + 1 passes unless it stops again |
| `Sched.SleeperIsPicked` | extras/mini-os/sched.c:222-228 | one that sleeps at position k is chosen within k + 1 passes at its time or later, without anybody waking it |
| `Sched.DueIsPicked` | extras/mini-os/sched.c:100-117 | the same of every thread that is runnable or due by a time |
| `Sched.CreatedHasItsTurn` | extras/mini-os/sched.c:141-158 | a new thread is chosen after at most one pass for each thread that was there before it, if it can run meanwhile |
| `Sched.EndedNeverRuns` | extras/mini-os/sched.c:196-214 | a thread that has ended is never chosen again, whatever happens, not even if it is woken |
| `Sched.TakeTurns` | extras/mini-os/sched.c:109-116 | the bound is reached: if everyone can run, the threads take turns and a full round restores the list |
| `Sched.StepOk` | extras/mini-os/sched.c:141-234 | every operation keeps the list free of duplicates and of unknown threads |
| `Sched.Scheduler.CreateThread` | extras/mini-os/sched.c:141-158 | the new thread is last and ready at any time; the others keep their places and states |
| `Sched.Scheduler.ExitThread` | extras/mini-os/sched.c:196-206 | the thread is gone from the list and every other one is still there, in the same relative order and state |
| `Sched.Scheduler.BlockThread` | extras/mini-os/sched.c:216-220 | the thread is ready at no time; all others are as before |
| `Sched.Scheduler.SleepThread` | extras/mini-os/sched.c:222-228 | the thread is ready exactly from its wake-up time on, never if that is 0; all others are as before |
| `Sched.Scheduler.WakeThread` | extras/mini-os/sched.c:230-234 | the thread is ready at any time; all others are as before |
| `Sched.Scheduler.SchedulePass` | extras/mini-os/sched.c:94-123 | chooses the first thread that is runnable or whose time has come and moves it to the end; if there is none, nothing changes and the domain blocks until exactly the earliest wake-up or ten seconds |
| `Gnttab.NeverHandedOutTwice` | extras/mini-os/gnttab.c:40-71 | in any interleaving of any number of threads the range checks never fail, the list in the array is exactly the references nobody has, a reference taken is not in use, and the semaphore never exceeds the list |
| `Gnttab.StepKeeps` | extras/mini-os/gnttab.c:40-120 | every atomic section keeps the list acyclic, accounts for every reference, and keeps count plus threads in flight equal to the length of the list |
| `Gnttab.PushChain` | extras/mini-os/gnttab.c:49-50 | putting a reference back makes it the head of the list |
| `Gnttab.PopChain` | extras/mini-os/gnttab.c:62-64 | taking the head leaves the rest of the list, and the head is grantable |
| `Gnttab.InitChain` | extras/mini-os/gnttab.c:186-187 | initialisation lists every non-reserved reference once |
| `Gnttab.EndedIsFree` | extras/mini-os/gnttab.c:97-118 | ending a grant nobody uses puts its reference back at the head of the list, and one more can be taken |
| `Gnttab.BusyStaysHeld` | extras/mini-os/gnttab.c:97-118 | a grant still in use stays held, and list and semaphore are as before |
| `Gnttab.TakenIsHeld` | extras/mini-os/gnttab.c:54-71 | a reference taken is the head of the list, was held by nobody and is held then, and one fewer can be taken |
| `Gnttab.QuietCount` | extras/mini-os/gnttab.c:40-71 | when no thread is in between, the semaphore equals the number of free references |
| `Blkfront.CompletedOnceInOrder` | extras/mini-os/blkfront.c:478-545 | whatever the depth of re-entry and whenever the backend answers, responses are completed once each and in ring order, no grant is ended that is not in force, and the grants in force are exactly those of requests not done |
| `Blkfront.ReturnsWhenDrained` | extras/mini-os/blkfront.c:541-542 | when a poll returns, every response given by then has been completed |
| `Blkfront.PollsReturn` | extras/mini-os/blkfront.c:478-545 | left to themselves, polls at any depth do return within the steps counted, and every response there is has then been completed |
| `Blkfront.PollsDrain` | extras/mini-os/blkfront.c:478-545 | that holds in every state that any run can reach |
| `Blkfront.PassCompletes` | extras/mini-os/blkfront.c:486-532 | a pass that finds a response completes it, the next one of the ring, and ends the grants of its request |
| `Blkfront.PollsDoNotSpin` | extras/mini-os/blkfront.c:478-545 | in no run, whatever callbacks and backend do, do polls take more than eight steps for each answer and three for each call |
| `Blkfront.StepKeeps` | extras/mini-os/blkfront.c:478-545 | a running loop always agrees with the shared consumer index, and one in a callback may only have been overtaken |
| `Blkfront.CompleteGrants` | extras/mini-os/blkfront.c:506-532 | completing a request ends exactly its own grants |
| `Blkfront.IssueGrants` | extras/mini-os/blkfront.c:333-387 | issuing a request adds exactly its own grants |
| `CoreDump.StringTable.Get` | tools/libxc/xc_core.c:117-155 | appends a name and returns its place, or refuses and changes nothing exactly when 16 bits or the doubling rule do not allow it; for names of any length, the copy stays inside the buffer if and only if the strings, the name and its terminator are at most twice the old buffer |
| `CoreDump.NameThere` | tools/libxc/xc_core.c:117-155 | a name is read back from its place whatever is appended later |
| `CoreDump.DumpPages` | tools/libxc/xc_core.c:801-899 | writes the announced number of pages for any mix of skipped, unmappable, surplus and missing frames, and the table entry beside each |
| `CoreDump.CopyPages` | tools/libxc/xc_core.c:801-878 | copies in visiting order every frame that can be mapped, up to the announced number, in batches that never overflow the buffer |
| `CoreDump.DumpPage` | tools/libxc/xc_core.c:811-872 | an entry written for a frame that cannot be mapped is overwritten by the next one |
| `CoreDump.PadPages` | tools/libxc/xc_core.c:880-899 | pads with zero pages and invalid entries |
| `CoreDump.MapPageDumped` | tools/libxc/xc_core.c:801-872 | every page of the memory map that can be mapped is in the file with its entry, at the place those before it leave to it, unless the announced number was reached before |
| `CoreDump.EntryDescribesPage` | tools/libxc/xc_core.c:801-909 | entry k of the table names the frame that page k of the section holds, or is invalid and the page zero |
| `ElfFormat.ShdrRoundTrip` | tools/libxc/xc_core.c:222-241 | a section header laid out as bytes is read back as it was |
| `ElfFormat.EhdrRoundTrip` | tools/libxc/xc_core.c:243-270 | the table offset, section count and string section index are read back from the ELF header |
| `ElfFormat.ReadBack` | tools/libxc/xc_core.c:743-756 | a reader that takes 64-bit little-endian core files only, and starts from the ELF header, finds in section k the part of the file its header describes, under the name its header points to, with its type, alignment and entry size |
| `CoreLayout.EhdrIsCore` | tools/libxc/xc_core.c:243-270 | the ELF header is one such a reader takes: magic, class, byte order, versions, type and header sizes at their places, least significant byte first |
| `CoreLayout.Headers.Get` | tools/libxc/xc_core.c:194-220 | one more zero header, unless there are 65532, where growing by four would pass 16 bits |
| `CoreLayout.Headers.Set` | tools/libxc/xc_core.c:222-241 | fills in the last header under its name, or leaves it zero exactly if the string table refuses the name |
| `CoreLayout.Headers.Add` | tools/libxc/xc_core.c:194-241 | both steps: refused exactly if there are 65532 headers or the string table refuses the name, and the exact condition for the name to stay in its buffer |
| `CoreLayout.Headers.Shift` | tools/libxc/xc_core.c:684-695 | moves every section placed so far, but not the null section, behind the header table |
| `CoreLayout.BuildHeaders` | tools/libxc/xc_core.c:586-740 | every header says where its section will be, how long and of which type, alignment and entry size, and the pages start at a page boundary |
| `CoreLayout.LaidDescribes` | tools/libxc/xc_core.c:586-740 | those offsets and sizes are those of the bytes written before and for each section |
| `CoreLayout.EntryAt` | tools/libxc/xc_core.c:901-909 | entry k of the table section is at k times the entry size |
| `CoreLayout.TableNamesPages` | tools/libxc/xc_core.c:801-909 | stated of the file: the entry a reader decodes at place k of the table section names the frame whose bytes are page k of the page section, or is invalid and that page is zero |
| `CoreLayout.DumpCore` | tools/libxc/xc_core.c:586-914 | a reader that knows only ELF finds every section of the written file under its name, of its type, alignment and entry size, with exactly its content, and entry k of the table it finds describes page k of the pages it finds |

## Left out

- CompressionContext.Context.AddPage: a raw page whose pfn equals the size of the index is looked up one word behind the index; what happens if that word is not null is not modelled.
- PageAllocator.Allocator.constructor: for page counts that leave 0 to 7 modulo 32768 the word missing from the bitmap is added; that it shares memory with the pool is not modelled further.
- Sched.Scheduler.SchedulePass: one pass over the list; the loop around it, which blocks the domain and repeats, is the sequence of passes in the run theorems.
- Mread.Handle.Read: offsets and lengths are natural numbers; wrap-around of file offsets near 2^63 is not modelled.
- CoreLayout.DumpCore: failure of the write callback, of memory allocation and of the ia64 context sections are not modelled; alignments of the vcpu context and shared info are fixed numbers. The notes are one block of bytes: that the struct sizes announced for them add up to what the four note writers produce is not modelled.
- Blkfront.CompletedOnceInOrder: the count that blkfront_aio_poll returns is not modelled, since it restarts on every retry.
- Freeing of exited threads after a context switch (extras/mini-os/sched.c).
- The mapping of physical to virtual addresses (extras/mini-os/mm.c); addresses are page numbers.
- The non-blocking and packet modes of vchan, the opposite direction of a channel, connection set-up and loss.
- Reading p2m entries at 32 or 64 bits, page-table construction and the jump into the new kernel (stubdom/grub/kexec.c).
- TSC-skew reset, early end of file and all event decoding and printing (xenalyze.hg/xenalyze.c); weighted percentiles.
- Grant transfers (extras/mini-os/gnttab.c) and the other direction of the block ring.
- The hypervisor itself, libxl, the bootloader formats and drivers: they would add members of other kinds.
