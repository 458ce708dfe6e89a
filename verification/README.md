# Verified models of the allocator, the cache simulator, the transcoder and the sampler

Four programs of the repository are modelled in Dafny. What each is for is stated without its steps (an LRU list, a
global merge of free blocks, the code points of a text, the samples in order) and proved of the model for every input
and every run; where the code misses it, the exact condition is proved, with an input that shows the miss.

**The boundary-tag allocator** (`Labs grupales/malloc/mm.c` over `memlib.c`, judged by `mdriver.c`).
`HeapWords.dfy` has bytes, 64-bit little-endian words and the header/footer helpers. `HeapLayout.dfy`
is the abstract heap: the sequence of blocks in address order, and what each operation does to it.
`HeapTheorems.dfy` proves what every operation keeps, that coalescing is global normalisation, that the
order of frees does not matter, and what malloc followed by free gives. `HeapRequests.dfy` says which of all 64-bit
request sizes mm_malloc answers rightly. `HeapMemory.dfy` says how the bytes
of the arena represent a layout. `Heap.dfy` is the allocator itself, a class over one array of bytes that
`escribir_header` overwrites in place; each method is proved to represent the layout operation it implements,
to leave every other live payload byte alone, and to make `check_heap` print nothing. `Traces.dfy` has whole
runs of the traces of `mdriver.c` and when they are served, `ClientRuns.dfy` those of any client, `Driver.dfy` the two trace interpreters of
`mdriver.c` with their loops, arrays and range list. Pointers are offsets from the start of the arena, which is taken to be 16-aligned; NULL is `None`.

**The cache simulator** (`Labs grupales/cachesim/alpha4.0.c`). `CacheModel.dfy` is the simulator as a
function of its state, `CacheSim.dfy` the same simulator with lines, sets, clock and metrics overwritten in
place, `CacheAddress.dfy` the shift-and-mask address split. `CacheLru.dfy` proves that the time stamps and the
minimum search are an LRU list, `CacheInclusion.dfy` that hits are decided by reuse distance and that larger
associativity includes smaller, `CacheAccounts.dfy` what metrics and dirty data add up to.

**The transcoder** (`Labs individuales/lab3`). `Codepoints.dfy` has one code point in five encodings, with
well-formedness taken from section 4 of RFC 3629 and section 2.2 of RFC 2781, `Encodings.dfy` what the bytes are in
arithmetic and that UTF-8 and UTF-32BE keep the order of the code points, `Transcoding.dfy` sequences,
byte order marks and the whole conversion of the bytes, `Recode.dfy` the program with its buffers and its read loop,
`RecodeRuns.dfy` which of its runs stay inside the buffers and convert the file. What `read` returns is left open: a
nondeterministic choice picks each piece.

**The K-best sampler** (`Labs grupales/malloc/fcyc.c`) is `Sampler.dfy`, with samples as reals.

## Where the code does not do what it is meant to

- `mm_malloc` computes `size + 31` in `uint64_t` and hands the growth to `mem_sbrk(int)`. A request within 31 of
  2^64 wraps; a growth of 2^32 bytes becomes 0, which `mem_sbrk` grants. Over every well-formed heap and every size,
  the answer is NULL or a large enough block exactly when the request is `Answerable`: it survives both conversions, or
  it wraps while no block is free and the arena cannot grow (`AnswerRightIff`; `MmMalloc` gives that answer in place).
  `WrongAnswers` has a block without room for a byte, a block that stays free and a store behind the arena;
  `FullHeapRefuses` a size that wraps and is refused all the same.
- `eval_mm_valid` compares the fill of a resized block through a plain `char`. With a signed `char` it rejects a run of
  this allocator that serves every request exactly when the trace resizes an id whose low byte is at least 128
  (`EvalMmValid`); `SignedFillRejected` is such a trace.
- `add_range` is to reject every payload that overlaps another, but tests only the two ends of the new one: it takes a
  payload that contains a recorded one with bytes to spare on both sides (`AcceptableIff`). No block of this allocator is
  one (`NewBlockAcceptable`).
- `recode57.h` promises that `read_codepoint` returns 0 when the input is too short. On UTF-8 it tests only
  `n > 0` and runs past the input (`ReadCodepoint`). On well-formed UTF-8 that happens exactly when a read ends in front
  of a continuation byte (`CutBetween`, `Utf8ReadsIff`); `CutInsideSequence` is such a run.
- `orig_to_ucs4` asks for a cell per byte, but its last call stores one code point more. That is behind `ucs4[1024]`
  exactly when one iteration converts 1024 bytes of ASCII from UTF-8 (`OnePointPerByte`, `ConvertsIff`), which the first
  iteration does on every ASCII file of 1024 bytes or more that is read in full buffers (`AsciiFileOverruns`). A whole
  run on well-formed UTF-8 reads and stores inside its arrays exactly when neither happens (`Utf8RunIff`).
- The `memcpy` of the leftover bytes has overlapping places exactly when an iteration completed no code point, or
  converted five bytes of UTF-16, a code unit and three bytes of a surrogate pair (`OverlapsIff`). `OverlapRunIff` tells
  it for whole runs from the input and the places where reads end; `OverlappingRuns` has two. The model leaves the bytes
  as `memmove` does, and `Recode57` reports whether a run made such a copy.
- Input of at most four bytes is dropped: the conversion loop never runs, not even to write the mark
  (`FileConverted`); `FourByteFileLost` is such a file. A run on a file whose mark is recognised converts it and stays inside
  its arrays exactly when the file is longer (or nothing was to be written) and, for UTF-8, neither of the two failures above
  happens (`FileRunIff`, `FileRunTwiceIff`).
- A first read of fewer than four bytes with more to come makes the program take what `bom` held for input; where the
  text is well-formed UTF-8 all the same, the output is never that of the input (`ShortFirstRead`).
- UTF-16LE text that starts with U+0000 is taken for UTF-32LE. `BomDetected` and `MarkRecognised` say exactly when
  the mark is recognised; `NulTextMistaken` is a text that comes out empty.
- With one-byte blocks the offset mask of `calcular_set_y_tag` is the sign bit instead of 0; the tag mask covers
  it, so the result is right (`OffsetMaskIs`, `SetMaskIs`).
- The README.md of the allocator describes an 8-byte prologue, a 16-byte smallest block and another
  `proximo_bloque`; the model follows `mm.c`.

## Model

| member | source | states |
|---|---|---|
| HeapWords.AdjustedCoversRequest | Labs grupales/malloc/mm.c:208-212 | the computed block holds the request and its 16 bytes of tags exactly when size + 31 does not wrap, and is then at most 31 bytes larger |
| HeapRequests.SbrkHonest | Labs grupales/malloc/memlib.c:58-69 | truncating the growth to int is harmless exactly under a test on the size and the break |
| HeapRequests.AnswerRightIff | Labs grupales/malloc/mm.c:196-230 | over every well-formed heap and 64-bit size, mm_malloc answers with NULL or a block of at least size + 16 exactly when neither conversion harms the size, or it wraps with no block free and no room to grow |
| HeapRequests.AnswerIsMalloc | Labs grupales/malloc/mm.c:196-230 | the answer to such a request is the one of malloc on layouts |
| HeapTheorems.WrappedSize | Labs grupales/malloc/mm.c:208-219 | a size that wraps is rounded to at most 16 bytes and fits nowhere exactly when no block is free |
| HeapRequests.WrongAnswers | Labs grupales/malloc/mm.c:196-230 | on the heap of mm_init: a 16-byte block for 2^64 - 1 bytes, a block left free, a footer stored outside the arena |
| HeapRequests.FullHeapRefuses | Labs grupales/malloc/mm.c:196-230 | on a full heap 2^64 - 1 bytes are refused rightly although the size wraps |
| HeapLayout.LivePayloads | Labs grupales/malloc/mm.c:159-171 | live payloads are 16-aligned, inside the heap, 16 to 47 bytes larger than requested as blocks, and pairwise disjoint |
| HeapLayout.FirstFit | Labs grupales/malloc/mm.c:174-190 | the lowest-addressed free block of sufficient size, or none when no block fits |
| HeapTheorems.MallocKeeps | Labs grupales/malloc/mm.c:196-230 | for every size that rounding does not harm: NULL exactly when the size is 0 or nothing fits and the arena cannot grow, and then nothing changed; otherwise one live block is added, no other is touched, and the layout stays well formed with no adjacent free blocks |
| HeapTheorems.MallocPlaces | Labs grupales/malloc/mm.c:159-230 | a granted block is in the lowest free block that fits, and then the arena keeps its size; else it is at the start of the free tail, and the arena grew by the computed size or by 4096; the block has the computed size, or 16 more where splitting would leave that much |
| HeapTheorems.ReleaseKeeps | Labs grupales/malloc/mm.c:235-252 | free removes exactly that block from the live ones and leaves a well-formed layout with no adjacent free blocks |
| HeapTheorems.ReallocKeeps | Labs grupales/malloc/mm.c:257-277 | a resize to 0 frees the block; one to a positive size is granted exactly when a free block fits the computed size or the arena can grow by it, and by 4096 at least; a failed one changes nothing; a granted one exchanges the block for a disjoint new one, touches no other, and makes the arena grow only if no block fits |
| HeapTheorems.ReallocGranted | Labs grupales/malloc/mm.c:257-277 | a live block can be resized to any size that rounding does not harm exactly when the size is positive and a fitting block is free or the arena can grow |
| HeapTheorems.MergeKeeps | Labs grupales/malloc/mm.c:85-109 | all four cases of coalesce repair the tiling, leave no adjacent free blocks and keep the live blocks |
| HeapTheorems.ReleaseIsNormalize | Labs grupales/malloc/mm.c:85-109 | the local coalescing of free equals merging all maximal runs of free blocks of the whole heap |
| HeapTheorems.ReleaseAllIsNormalize | Labs grupales/malloc/mm.c:235-252 | freeing any live blocks one after the other equals marking them all and merging globally once |
| HeapTheorems.FreeOrderIrrelevant | Labs grupales/malloc/mm.c:235-252 | freeing any set of live blocks in any two orders gives the same heap |
| HeapTheorems.MallocThenFree | Labs grupales/malloc/mm.c:196-252 | free of the block just returned restores the layout exactly when the heap did not grow, and otherwise leaves the old layout with the growth merged into its free tail |
| HeapTheorems.AllFreed | Labs grupales/malloc/mm.c:85-131 | with nothing live there is one free block of heap size minus 32 |
| HeapTheorems.SizesAddUp | Labs grupales/malloc/mm.c:136-151 | regular block sizes sum to the heap size minus 32 |
| HeapMemory.MergedMapped | Labs grupales/malloc/mm.c:91-107 | tagging header and footer of the merged block, in either order, represents the merged layout and keeps live payloads |
| HeapMemory.PayloadWrites | Labs grupales/malloc/mm.c:42-50 | client writes inside a payload keep every tag and every other payload |
| HeapMemory.TagWords | Labs grupales/malloc/mm.c:32-80 | header and footer words of every block are its size, plus one when it is live; the prologue words are 17, the epilogue is 1 |
| HeapMemory.SilentIff | Labs grupales/malloc/mm.c:284-303 | for any bytes, check_heap prints nothing exactly when the block is aligned and its header and footer agree in size and lowest bit; the other flag bits may differ |
| HeapMemory.NoComplaints | Labs grupales/malloc/mm.c:284-303 | check_heap has nothing to print for any block of a represented layout |
| HeapMachine.Heap.Coalesce | Labs grupales/malloc/mm.c:85-109 | in place: the merged layout is represented, live payloads kept, the merged block returned |
| HeapMachine.Heap.JoinNext | Labs grupales/malloc/mm.c:91-95 | in place, with only the next block free |
| HeapMachine.Heap.JoinPrevious | Labs grupales/malloc/mm.c:96-101 | in place, with only the previous block free, which is found through its footer after the first store |
| HeapMachine.Heap.JoinBoth | Labs grupales/malloc/mm.c:102-107 | in place, with both neighbours free |
| HeapMachine.Heap.TagNewSpace | Labs grupales/malloc/mm.c:121-125 | the new space becomes a free block with an epilogue behind it exactly when all of it is inside the arena |
| HeapMachine.Heap.TagFree | Labs grupales/malloc/mm.c:248-249 | both tags of a live block are marked free, and every other live payload is unchanged |
| HeapMachine.Heap.ExtendHeap | Labs grupales/malloc/mm.c:111-131 | grows by the even number of words exactly when the arena allows it, joining a free tail; otherwise nothing changes; a store leaves the arena exactly when the growth is not honest |
| HeapMachine.Heap.MmInit | Labs grupales/malloc/mm.c:136-151 | from an empty arena, one free block of 4096 bytes between prologue and epilogue |
| HeapMachine.Heap.Place | Labs grupales/malloc/mm.c:159-171 | takes the front of a free block, splitting when 32 bytes or more remain; for a wrapped size, what the header then says |
| HeapMachine.Heap.FindFit | Labs grupales/malloc/mm.c:174-190 | terminates and returns the lowest free block that fits, or NULL when there is none |
| HeapMachine.Heap.TakeFit | Labs grupales/malloc/mm.c:215-220 | in place: the first fit is taken, and the header of the returned block holds the size of the answer |
| HeapMachine.Heap.TakeGrown | Labs grupales/malloc/mm.c:222-230 | in place: the arena grows and its tail is taken, or nothing changes, or a store leaves the arena, as the answer says |
| HeapMachine.Heap.MmMalloc | Labs grupales/malloc/mm.c:196-230 | for every 64-bit size the answer of AnswerRightIff; when answerable, the bytes represent the layout after malloc, every live payload is unchanged, check_heap prints nothing |
| HeapMachine.Heap.RightMalloc | Labs grupales/malloc/mm.c:262-269 | the call inside mm_realloc: the header of the returned block has room for the request exactly when the request is answerable |
| HeapMachine.Heap.MmFree | Labs grupales/malloc/mm.c:235-252 | the bytes represent the layout after free, every other live payload is unchanged, check_heap prints nothing |
| HeapMachine.Heap.MmRealloc | Labs grupales/malloc/mm.c:257-277 | for every 64-bit size, mm_malloc inside answers rightly exactly when the request is answerable; then a block is resized exactly when the size is positive and a fitting block is free or the arena can grow, and the new block starts with the first min(old payload, new size) old bytes although the copy length is the whole old block; every other live payload is unchanged |
| HeapMachine.Heap.MemSbrk | Labs grupales/malloc/memlib.c:58-69 | moves the break and returns the old one, or refuses and changes nothing |
| Traces.EveryRunSound | Labs grupales/malloc/mdriver.c:599-682 | the heap after any well-formed trace that is served to the end is well formed and its live blocks are exactly those the ids own, one each |
| Traces.StepSound | Labs grupales/malloc/mdriver.c:714-776 | each request keeps the heap sound, never shrinks it, leaves the blocks of other ids alone and changes the requested bytes by its own size |
| Traces.StepServed | Labs grupales/malloc/mdriver.c:714-776 | a request is served exactly when a free or resize names an id that owns a block, sizes are positive, and a fitting block is free or the arena can grow; the heap grows by no more than the computed size or 4096 |
| Traces.ServedIff | Labs grupales/malloc/mdriver.c:599-682 | a trace is served to the end exactly when each of its requests can be where it comes |
| Traces.AmpleServed | Labs grupales/malloc/mdriver.c:599-682 | every trace of positive sizes whose growths sum within the arena is served, in whatever order it allocates, resizes and frees |
| Traces.LiveBytesAre | Labs grupales/malloc/mdriver.c:732-776 | the requested bytes of the live blocks are, from the trace alone, the sizes last asked for under the live ids |
| Traces.PeakIs | Labs grupales/malloc/mdriver.c:732-778 | the high-water mark is the largest of these totals over the prefixes of the trace |
| Traces.EverythingFreed | Labs grupales/malloc/mdriver.c:670-676 | after any run that freed everything, in any order, the arena is one free block |
| Traces.LiveBytesFit | Labs grupales/malloc/mdriver.c:732-778 | the requested bytes, with 16 for each live block, stay 32 below the heap size |
| Traces.PeakFits | Labs grupales/malloc/mdriver.c:732-778 | so do the high-water marks over the run, with and without the 16 bytes per block, under the final heap size |
| ClientRuns.ServeSound | Labs grupales/malloc/mm.c:196-277 | a request of any client, granted or refused, also a resize to 0 or of NULL, keeps the heap sound, never shrinks it and leaves the blocks of other ids alone |
| ClientRuns.AnyRunSound | Labs grupales/malloc/mm.c:196-277 | after any run of answerable requests, going on after refusals, the heap is well formed and its live blocks are exactly those the client holds, one per id |
| ClientRuns.NothingHeld | Labs grupales/malloc/mm.c:85-131 | when the client of such a run holds nothing any more, one free block is left |
| ClientRuns.ServedIsAnyRun | Labs grupales/malloc/mdriver.c:599-682 | the traces of mdriver.c that are served to the end are such runs |
| Driver.NewBlockAcceptable | Labs grupales/malloc/mdriver.c:381-429 | add_range accepts every block that malloc or realloc returns |
| Driver.AddRange | Labs grupales/malloc/mdriver.c:381-429 | accepts exactly aligned payloads inside the heap with neither end in a recorded one, and prepends them |
| Driver.AcceptableIff | Labs grupales/malloc/mdriver.c:388-416 | a payload is taken exactly when it is aligned, inside the heap, and meets each recorded range nowhere or contains it with bytes to spare on both sides |
| Driver.RemoveRange | Labs grupales/malloc/mdriver.c:434-450 | the list without the first range that starts at the address, the others in order |
| Driver.WithoutFacts | Labs grupales/malloc/mdriver.c:434-450 | where ranges start at distinct addresses, exactly the one at the address is gone |
| Driver.EvalMmValid | Labs grupales/malloc/mdriver.c:599-686 | accepts a well-formed trace exactly when every request can be served and no resized id has a fill byte of 128 or more; so it accepts every trace of such ids and positive sizes whose growths sum within the arena |
| Driver.SignedFillRejected | Labs grupales/malloc/mdriver.c:655-662 | allocating and resizing id 128 is a served trace that the check of the contents rejects |
| Driver.EvalMmUtil | Labs grupales/malloc/mdriver.c:699-779 | returns the high-water mark of the live requested bytes over the final heap size, below 1, exactly when every request can be served, as for all positive sizes whose growths sum within the arena |
| CacheAddress.CalcularSetYTag | Labs grupales/cachesim/alpha4.0.c:169-179 | shifts and masks give set dir / tamanioBloque % cantidadSets and the tag that is congruent to dir / (tamanioBloque * cantidadSets) and lies in -2^31..2^31 - 1, for all powers of two with a product of at most 2^31 |
| CacheAddress.SetMaskIs | Labs grupales/cachesim/alpha4.0.c:173-176 | the set mask is S - 1 also for one set and for one-byte blocks |
| CacheAddress.AddressParts | Labs grupales/cachesim/alpha4.0.c:169-179 | the set is address / block size % sets, the tag is address / (block size * sets) read as a signed 32-bit int, and with the offset they give back the address |
| CacheAddress.SetAndTagNameTheBlock | Labs grupales/cachesim/alpha4.0.c:177-178 | two addresses share set and tag exactly when they lie in the same block |
| CacheLru.ScansAgree | Labs grupales/cachesim/alpha4.0.c:157-230 | on a hit the update routines, which ignore the valid bit, find the line leer_set found; the first invalid line is lineas_ocupadas |
| CacheLru.StepShape | Labs grupales/cachesim/alpha4.0.c:232-274 | every access changes one line: its tag, its dirty bit, its stamp, which is later than the old clock and no later than the new one, and in verbose mode ultima_operacion |
| CacheLru.StepRefines | Labs grupales/cachesim/alpha4.0.c:252-303 | one access on the stamps is one access on a recency list: same hit or miss, same victim |
| CacheLru.RefinesLru | Labs grupales/cachesim/alpha4.0.c:378-401 | after every trace the valid lines of each set are a prefix with distinct tags and stamps, and represent the LRU list of the set |
| CacheLru.SameOutcomes | Labs grupales/cachesim/alpha4.0.c:378-401 | every access of every trace hits, misses and evicts as LRU does, and counts as a write unless it is a read |
| CacheInclusion.HitIffReuseDistance | Labs grupales/cachesim/alpha4.0.c:378-401 | an access hits exactly when its block was used before and fewer than A other blocks of its set were used since |
| CacheInclusion.Inclusion | Labs grupales/cachesim/alpha4.0.c:202-303 | after every trace, blocks resident with A ways are resident with B ways when A is at most B |
| CacheInclusion.MissesNeverIncrease | Labs grupales/cachesim/alpha4.0.c:343-401 | read misses and write misses never increase with associativity |
| CacheAccounts.MetricsBalance | Labs grupales/cachesim/alpha4.0.c:343-401 | every metric of every run from its events: times, clock, bytes read and written, misses and dirty misses |
| CacheAccounts.NothingLost | Labs grupales/cachesim/alpha4.0.c:284-322 | misses are evictions plus valid lines; lines made dirty are dirty evictions plus lines now dirty |
| CacheAccounts.NoWriteLost | Labs grupales/cachesim/alpha4.0.c:232-322 | after a write its block is resident and dirty until a dirty eviction of it is reported |
| CacheAccounts.VerboseChangesNothing | Labs grupales/cachesim/alpha4.0.c:437-465 | a verbose run has the same events, metrics and state apart from ultima_operacion |
| CacheLru.LastOperation | Labs grupales/cachesim/alpha4.0.c:432-465 | access k changes one line of the whole cache, and marks it with k exactly when k is in the reported range |
| CacheSim.CacheSet.LeerSet | Labs grupales/cachesim/alpha4.0.c:157-167 | the first valid line with the tag, or ERROR |
| CacheSim.CacheSet.LineaNoValida | Labs grupales/cachesim/alpha4.0.c:220-230 | the first invalid line, or NULL |
| CacheSim.CacheSet.DesalojarLinea | Labs grupales/cachesim/alpha4.0.c:252-274 | replaces the lowest line with the smallest stamp, in place, and reports whether it was dirty |
| CacheSim.CacheSet.CargarLinea | Labs grupales/cachesim/alpha4.0.c:232-242 | overwrites one line with the loaded tag, its stamp and its dirty bit |
| CacheSim.CacheMachine.CargarLineaMiss | Labs grupales/cachesim/alpha4.0.c:284-303 | the in-place miss is the miss of the model in the addressed set, and no other set changes |
| CacheSim.CacheMachine.ActualizarMetricas | Labs grupales/cachesim/alpha4.0.c:343-375 | the in-place update of the metrics is that of the model |
| CacheSim.CacheMachine.SimularCacheSimple | Labs grupales/cachesim/alpha4.0.c:378-401 | the in-place simulation of a trace ends in the state of the model's run |
| CacheSim.CacheMachine.SimularCacheModoVerboso | Labs grupales/cachesim/alpha4.0.c:437-465 | the same for the verbose loop with its range of reported operations |
| Codepoints.EncodeThenDecode1 | Labs individuales/lab3/recode57_alu.c:50-191 | an encoded scalar value is well formed and decodes to itself whatever follows |
| Codepoints.DecodeThenEncode1 | Labs individuales/lab3/recode57_alu.c:50-191 | one well-formed code point decodes to a scalar value that encodes to the same bytes |
| Encodings.Utf8Octets | Labs individuales/lab3/recode57_alu.c:169-188 | the octets written for every 32-bit value are those of the table in section 3 of RFC 3629, in quotients and remainders by powers of 64 |
| Encodings.Utf8Order | Labs individuales/lab3/recode57_alu.c:169-188 | lexicographic order of UTF-8 is the order of the code points |
| Encodings.Utf32Value | Labs individuales/lab3/recode57_alu.c:128-143 | the four bytes of UTF-32BE are the digits of the value in base 256 |
| Encodings.Utf32Order | Labs individuales/lab3/recode57_alu.c:128-143 | lexicographic order of UTF-32BE is the order of all 32-bit values |
| Encodings.Utf16Units | Labs individuales/lab3/recode57_alu.c:144-168 | UTF-16BE is one unit with the value, or the surrogate pair of section 2.1 of RFC 2781 |
| Encodings.LittleEndian | Labs individuales/lab3/recode57_alu.c:128-168 | the little-endian encodings have the bytes of every unit in reverse |
| Encodings.MarkIsFeff | Labs individuales/lab3/recode57_alu.c:21-48 | the mark of every encoding but UTF-8 is U+FEFF in that encoding |
| Encodings.ReadUtf8Bytes | Labs individuales/lab3/recode57_alu.c:101-123 | from any bytes, the first tells the length and gives the high bits, every other gives six bits |
| Encodings.ReadUtf16Bytes | Labs individuales/lab3/recode57_alu.c:67-100 | from any bytes, a unit is its own code point unless it is a high surrogate; that takes ten bits from itself and ten from the next unit, whatever it is |
| Encodings.ReadUtf32Bytes | Labs individuales/lab3/recode57_alu.c:53-66 | from any bytes, the value is the number in base 256, in either byte order |
| Transcoding.EncodeThenDecode | Labs individuales/lab3/recode57.c:45-81 | decoding an encoded sequence of scalar values returns it with no byte left over, in all five encodings |
| Transcoding.DecodeThenEncode | Labs individuales/lab3/recode57.c:45-81 | re-encoding the decoding of well-formed bytes is the identity |
| Transcoding.WellFormedIffEncoded | Labs individuales/lab3/recode57_alu.c:128-191 | the well-formed byte sequences are exactly the encodings of scalar values |
| Transcoding.ConvertComposes | Labs individuales/lab3/recode57.c:45-81 | converting through a third encoding equals converting directly, and there and back is the identity |
| Transcoding.DecodeAppend | Labs individuales/lab3/recode57.c:45-55 | where a first part is consumed whole, decoding continues with the second part alone |
| Transcoding.LeftOver | Labs individuales/lab3/recode57.c:45-55 | at most three bytes are left over, the last of the input, and those before them decode whole |
| Transcoding.BomDetected | Labs individuales/lab3/recode57_alu.c:6-48 | a written mark is recognised except before UTF-16LE text that starts with U+0000; unmarked text is UTF-8 unless it starts like a mark |
| Transcoding.Utf8Detected | Labs individuales/lab3/recode57_alu.c:6-19 | well-formed UTF-8 is never taken for another encoding |
| Transcoding.MarkRecognised | Labs individuales/lab3/recode57_alu.c:6-48 | the encoding of a marked file is recognised exactly when it is not UTF-16LE text that starts with U+0000 |
| Transcoding.FileConverted | Labs individuales/lab3/recode57.c:98-143 | as far as the arrays of main allow, the bytes written for a marked file are the marked file of the same text exactly when it has more than four bytes, or nothing was to be written |
| Transcoding.FourByteFileLost | Labs individuales/lab3/recode57.c:126 | the file "abcd" gives no output at all |
| Transcoding.NulTextMistaken | Labs individuales/lab3/recode57_alu.c:13-17 | marked UTF-16LE text of U+0000 and "A" is read as UTF-32LE and gives no text |
| Transcoding.FileConvertedTwice | Labs individuales/lab3/recode57.c:98-143 | as far as the arrays of main allow, converting a converted file equals converting the original exactly when the file in between has more than four bytes |
| Recode.ReadCodepoint | Labs individuales/lab3/recode57_alu.c:50-126 | consumes no more than n bytes exactly when the input is not truncated UTF-8, and then decodes one code point, or consumes nothing and stores 0 |
| Recode.OnePointPerByte | Labs individuales/lab3/recode57.c:42-43 | a text has as many code points as bytes exactly when it is ASCII in UTF-8 |
| Recode.ConvertsIff | Labs individuales/lab3/recode57.c:42-55 | with a cell per byte, orig_to_ucs4 stays inside its arrays exactly when UTF-8 is whole and not ASCII that fills them; always in UTF-16 and UTF-32 |
| Recode.OrigToUcs4 | Labs individuales/lab3/recode57.c:45-55 | stays inside its arrays exactly when UTF-8 is whole and a cell is left for the last store, and then decodes all it can, stores 0 behind it and returns how many bytes are left |
| Recode.WriteCodepoint | Labs individuales/lab3/recode57_alu.c:128-191 | writes the encoding of one code point in place and nothing else |
| Recode.WriteBom | Labs individuales/lab3/recode57_alu.c:21-48 | writes the mark of the encoding and returns its length |
| Recode.Ucs4ToDest | Labs individuales/lab3/recode57.c:73-81 | writes the encoding of the code points behind what is already in the buffer |
| Recode.OverlapsIff | Labs individuales/lab3/recode57.c:139-141 | the copy of the leftover bytes overlaps exactly when no code point was complete, or five bytes of UTF-16 were one unit and three bytes of a pair |
| Recode.ConvertPiece | Labs individuales/lab3/recode57.c:127-141 | in place: the body of the loop stays inside its arrays exactly when orig_to_ucs4 does, writes mark and encoding of what decodes, and moves the leftover bytes to the front |
| Recode.Iteration | Labs individuales/lab3/recode57.c:126-142 | converting a piece with the bytes carried over extends the conversion of the text before it |
| Recode.Run | Labs individuales/lab3/recode57.c:112-143 | wherever the reads end, the loop stays inside its arrays exactly when every iteration does, always in UTF-16 and UTF-32, and then the output is the mark and the conversion of all the input |
| Recode.Recode57 | Labs individuales/lab3/recode57.c:98-143 | the same for a first read of any length, after which the bytes of `bom` count as input; the output is that of the input when the first read returned four bytes or all there is |
| RecodeRuns.CutBetween | Labs individuales/lab3/recode57_alu.c:101-123 | well-formed UTF-8 is cut between two code points exactly when no continuation byte follows the cut |
| RecodeRuns.Utf8ReadsIff | Labs individuales/lab3/recode57.c:126-142 | on well-formed UTF-8, no iteration reads past its bytes exactly when no read ends in front of a continuation byte |
| RecodeRuns.Utf8RunIff | Labs individuales/lab3/recode57.c:126-142 | a run on well-formed UTF-8 stays inside its arrays exactly when, besides, no iteration converts 1024 bytes of ASCII |
| RecodeRuns.CutInsideSequence | Labs individuales/lab3/recode57_alu.c:106-109 | a run that reads half of a two-byte sequence reads past its bytes |
| RecodeRuns.AsciiFileOverruns | Labs individuales/lab3/recode57.c:108 | every ASCII file of 1024 bytes or more, read in full buffers, makes a store behind ucs4 |
| RecodeRuns.FileRunIff | Labs individuales/lab3/recode57.c:84-143 | a run on a marked file, other than UTF-16LE that starts with U+0000, stays inside its arrays and converts it exactly when the file has more than four bytes, or nothing was to be written, and for UTF-8 no read ends in front of a continuation byte and no iteration converts 1024 bytes of ASCII |
| RecodeRuns.FileRunTwiceIff | Labs individuales/lab3/recode57.c:84-143 | two runs in sequence stay inside their arrays and give what one conversion gives exactly when the file in between has more than four bytes and neither run has such a read |
| RecodeRuns.ShortFirstRead | Labs individuales/lab3/recode57.c:98-121 | when the first read stops short and the text with the old bytes of `bom` is well-formed UTF-8, the output is not that of the input |
| RecodeRuns.OverlapRunIff | Labs individuales/lab3/recode57.c:126-142 | a run on well-formed UTF-16 or UTF-32 makes an overlapping copy exactly when some read, with the bytes carried over, comes to fewer than twice the bytes then left over, told from the input and the cuts |
| RecodeRuns.Utf8NeverOverlaps | Labs individuales/lab3/recode57.c:139-141 | a run on UTF-8 that stays inside its arrays copies nothing |
| RecodeRuns.OverlappingRuns | Labs individuales/lab3/recode57.c:139-141 | a run on UTF-32 and a run on UTF-16 that make overlapping copies |
| Sampler.KeptAreSmallest | Labs grupales/malloc/fcyc.c:67-88 | the kept values are the front of all samples in order |
| Sampler.OrderedFacts | Labs grupales/malloc/fcyc.c:81-87 | insertion orders the samples and keeps them as a multiset |
| Sampler.FirstIsMinimum | Labs grupales/malloc/fcyc.c:162 | the first kept value is the minimum of all samples |
| Sampler.CountWithinIs | Labs grupales/malloc/fcyc.c:93-97 | the count behind convergence is the number of indices whose sample is within the bound |
| Sampler.ConvergedIff | Labs grupales/malloc/fcyc.c:93-97 | comparing the first and last kept values decides, for any epsilon, whether at least k samples are at most 1 + epsilon times the least |
| Sampler.KBest.AddSample | Labs grupales/malloc/fcyc.c:67-88 | in place, the array holds the kept values after one more sample |
| Sampler.KBest.HasConverged | Labs grupales/malloc/fcyc.c:93-97 | true exactly when at least k of the samples are at most 1 + epsilon times the least of all |
| Sampler.Fcyc | Labs grupales/malloc/fcyc.c:129-168 | takes the fewest samples, at least one, until k of them are at most 1 + epsilon times the least or the limit is reached, and returns the least |

## Left out

- HeapMachine.Heap.MmMalloc: after a wrong answer nothing is promised about the heap; when a store would leave the arena the model stops there.
- HeapMachine.Heap.MmRealloc: when mm_malloc inside it gives a wrong answer the model stops, with `right` false.
- HeapMachine.Heap.ExtendHeap: growths below 32 bytes are excluded; mm_init and mm_malloc ask for 4096 or more.
- HeapMachine.Heap.MmFree: pointers that are not live blocks are excluded, as the C interface does; so the call of mm_init in mm_free, reached only with such a pointer, is not modelled.
- CacheAddress.CalcularSetYTag: set counts and block sizes whose product is 2^32 are excluded, because the code then shifts by -1; the log2 on doubles is an exact integer log of powers of two.
- Recode.ReadCodepoint: the accumulation with `|=` is written as one expression per branch.
- Driver.AddRange: the linked list of ranges is a sequence that is replaced; its nodes are not modelled. The same holds for RemoveRange.
- Recode.OrigToUcs4: when a call would read past the bytes left or store past `destbuf` the model stops there, with `inside` false.
- Recode.Recode57: there is no output when a run reads or stores outside its arrays.
- Sampler.Fcyc: cycle counts are reals; rounding of doubles, the clock and the cache clearing are not modelled.
- All printing and file handling: `imprimir_*`, `mostrar_metricas`, `fscanf`, `read_trace`, command lines. Traces and files are sequences.
- Failure of libc allocation (`mem_init`, `crear_cache`, `crear_sets`, `add_range`): construction succeeds.
- Overflow of the `int` counters of the metrics and of `cache->ciclos`.
- `es_potencia_de_dos`, `combinacion_correcta` and `str_to_encoding`: argument checks; geometries are powers of two by construction.
- `eval_mm_speed`, `eval_libc_valid` and the timing code `clock.c`, `ftimer.c`, `fsecs.c`.
- `mm-naive.c`, `lab1` and `lab2`: they would add only easy members.
