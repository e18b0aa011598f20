# Models and proofs for the uosio contract toolkit

This project models, in Dafny, seven separate cores of the repository and proves what each of
them is for. Code that works by changing things step by step is a method or a class here, proved
against a specification function; the properties are lemmas about that function, or invariants
that every method keeps. `dafny verify dfyconfig.toml` checks everything.

| core | files | main results |
|---|---|---|
| the BrainF compiler | `BrainF*.dfy` | the emitted block graph and a direct interpreter of the source text agree on every run; parsing succeeds exactly on balanced text; checked programs stay on the tape |
| the heap allocators | `Malloc*.dfy`, `BumpAllocator.dfy` | headers in memory always tile the carved part; first fit returns the lowest fitting run; the exact condition on a 32-bit request under which malloc and realloc answer right, and heaps on which they do not; then malloc fails only when nothing fits and nothing more can be had, realloc keeps contents and neighbours, and no two live blocks overlap, over any sequence of calls |
| the betting contracts | `Dice*.dfy`, `BetDice.dfy`, `TableSums.dfy` | tokens are conserved over every run, counters are actual counts, looked-up rows always exist; each action goes through exactly when it should and changes exactly what it should; liabilities equal the active bets, payouts stay within the house edge and wins within the limit checked at placement |
| multi_index | `HostDatabase.dfy`, `MultiIndex*.dfy` | any sequence of operations behaves like a plain map from keys to rows, with the object cache, the primary table and all index tables in agreement; iteration visits every row once, in order; automatic keys are one above all keys since the first one |
| floating point | `Float*.dfy`, `PowersOfTwo.dfy` | 128-bit integers convert to the nearest double, ties to even, and back by truncation; ceiling, floor and truncation by masks are the mathematical ones |
| serialization | `Serial*.dfy` | the writer, the reader and the size counter agree for every schema and value; every byte of the format is told apart from the code that writes it |
| packed keys | `Name*.dfy`, `FixedBytes.dfy` | numeric order is string order, both encoders agree, and what is packed comes back |

**BrainF.** The interpreter (`BrainFSource.Run`) knows one command at a time; `BrainFItems.Merge`
is what the reader's run counters add up to; `BrainFGraph.Step` runs basic blocks with phi nodes
over one register map. `BrainFEmit` gives the blocks as a function of the items, and the class
`BrainF` builds them the way the original does, with one symbol of lookahead. Bounds checks test
the net end of a maximal run only, so `<>` at the edge of the tape passes: the interpreter checks
a move exactly when no move follows it.

**The allocator.** Addresses and sizes are counted in four-byte words, as on wasm32, so that the
size marker is one word and `(size + 4) % 8 == 0` says that a payload is an odd number of words.
`Memory` is one heap: its memory, how much of it is carved, and a ghost list of blocks that the
headers spell out. Requests are any 32-bit size. Three things go wrong in it, each on inputs a
caller could tell beforehand, and each is given with its exact condition and with a heap on which
it happens. The sum of the carved end and the request wraps (`MallocHeap.Wraps`): the check passes
and the carved end moves down over live blocks. The difference in the in-place check of realloc
wraps (`LeavesHeap`): the carved end passes the end of the heap. Merging forward stops at the end
of the heap and not at the carved end (`LeavesCarved`): the walk runs into memory that was never
carved. Besides, the three largest sizes are rounded to 4. `MemoryManager.Malloc` and
`MemoryManager.Realloc` say that the heaps stay well formed and the result is null or lies inside
one heap if and only if none of this applies (`Answers`, `Reanswers`), and `MallocRuns.PerformAll`
runs any sequence of calls. Failed growth is recognised only if the 32-bit pointer is widened by
copying its top bit, which the language leaves to the compiler; that is the constant
`seesFailure`, and where it is false the results hold until growth first fails (`stray`). The
comment at libraries/uosiolib/malloc.cpp:88-89 says that growth goes to the end of the next page
when less than 1 KiB is left of this one; the code goes to the next even page, which gives less
than that near the end of an odd one (`GrowthEnough`).

**The contracts.** An action whose check fails leaves the state as it was. The outcome of a hash
comparison, the recovered signature, the clock and the token balance are parameters of an action.
The dice draw hashes the stored game, which then does not hold the second source yet, so that
source has no say in who wins; the model lets the draw go either way.

**multi_index.** The database host is a class whose methods promise what the comments in db.h
say: one handle per row, entries in (secondary key, primary key) order. The library is a class on
top of it, with the cached items as objects whose handles start at -1.

**Floating point.** A pattern stands for an integer number of the smallest subnormal, so
values and distances are exact integers. "Nearest" quantifies over all finite doubles. The signed
conversion back saturates from exponent 128 only, so at exponent 127 it is wrong except for
-2^127: `FloatFix.SignedTruncates` states exactly that.

**Serialization.** A schema is an integer of some width, a varint, an optional, a variant, a
container or a list of fields. Sets and maps are the ordered lists of their elements; the order
on values is proved to be a strict total one.

**Packed keys.** `suffix()` is proved to be the text after the last dot of the written string,
leading dots included: the comment at libraries/uosiolib/name.hpp:153 calls leading dots no
actual dots, but the code treats them as dots once something follows. `name_to_string(0)` gives
thirteen dots where the library gives nothing. The shift of a partly filled last word of
`fixed_bytes` is 8 bits per missing sub-word whatever the sub-word's size;
`FixedBytes.PackedBytes` says exactly when that is right.

## Model

| member | source | states |
|---|---|---|
| BrainFCorrect.CompilerCorrect | uosio_llvm/examples/BrainF/BrainF.cpp:53-476 | for every program, tape size, input, initial tape contents and fuel, some number of steps of the emitted block graph ends as the direct interpreter does: same tape, same unread input, same output, same fault or bounds stop; a run the fuel cuts short is matched by at least that many steps |
| BrainFCorrect.HaltsOnlyWithProgram | uosio_llvm/examples/BrainF/BrainF.cpp:53-476 | the converse: whenever the emitted graph has halted, the program has too, with the same result; so one runs for ever exactly when the other does |
| BrainFCorrect.NeverStuck | uosio_llvm/examples/BrainF/BrainF.cpp:192-476 | no run of an emitted graph meets an undefined register, a missing phi edge, an open block or a bad branch target |
| BrainFCorrect.CheckedRunsStayOnTape | uosio_llvm/examples/BrainF/BrainF.cpp:246-276 | with bounds checks and at least one cell, no load or store of any run, however long, leaves the tape |
| BrainFCorrect.EmptyTapeFaults | uosio_llvm/examples/BrainF/BrainF.cpp:118-127 | the one cell is needed: on a tape of size zero a checked program still faults |
| BrainFCorrect.HeaderRuns | uosio_llvm/examples/BrainF/BrainF.cpp:65-135 | the entry block hands over a zeroed tape with the head in the middle, whatever malloc returned |
| BrainFCorrect.HeaderExec | uosio_llvm/examples/BrainF/BrainF.cpp:92-127 | the header instructions, run from any memory, define the array start, its end under bounds checks, and the head |
| BrainFCorrect.StartsInTheMiddle | uosio_llvm/examples/BrainF/BrainF.cpp:111-127 | the tape starts as zeros with the head at half its size, rounded down |
| BrainFCorrect.ProgramUnique | uosio_llvm/examples/BrainF/BrainF.cpp:324-423 | two programs with the same command text are the same program |
| BrainFSource.FlattenUnique | uosio_llvm/examples/BrainF/BrainF.cpp:324-423 | the same with a rest of text that is empty or starts with a closing bracket: where a loop body ends is determined by the text |
| BrainFSource.FlattenBalanced | uosio_llvm/examples/BrainF/BrainF.cpp:426-475 | the text of every program has balanced brackets |
| BrainFSource.CommandsSnoc | uosio_llvm/examples/BrainF/BrainF.cpp:418-420 | a character that is no command changes nothing wherever it stands |
| BrainFSource.StoppedPrints | uosio_llvm/examples/BrainF/BrainF.cpp:143-190 | a program is stopped only under bounds checks with the head off the tape, and its output then ends with the bytes of `Error: The head has left the tape.` and a newline |
| BrainFItems.MergeCorrect | uosio_llvm/examples/BrainF/BrainF.cpp:246-290 | merging maximal runs of `<`/`>` and `+`/`-` into one net item keeps the meaning of every program, faults and bounds stops included; a checked move run is compared with the tape only at its net end |
| BrainFItems.MergeSnoc | uosio_llvm/examples/BrainF/BrainF.cpp:344-379 | reading one more command either extends the run in progress or starts a new item: merging from the front equals the reader, which grows it at the back |
| BrainFItems.CheckedNeverFaults | uosio_llvm/examples/BrainF/BrainF.cpp:246-276 | a checked item list that starts on the tape never faults, and when it finishes the head is on the tape |
| BrainFEmit.EmitItemsSnoc | uosio_llvm/examples/BrainF/BrainF.cpp:202-318 | emitting a longer list is emitting its front and then its last item into the same builder |
| BrainFEmit.EmitItemGrows | uosio_llvm/examples/BrainF/BrainF.cpp:192-476 | emitting an item leaves every finished block alone, only lengthens the insertion block, and never reuses a register |
| BrainFSimulation.SimItems | uosio_llvm/examples/BrainF/BrainF.cpp:192-476 | from the insertion point, inside any larger graph, the code emitted for an item list simulates that list step for step, loops and stops included |
| BrainFSimulation.SimLoop | uosio_llvm/examples/BrainF/BrainF.cpp:292-312 | at the loop test block the phi holds the current head on first entry and on every return, and the loop code simulates the loop |
| BrainFCompiler.BrainF.Parse | uosio_llvm/examples/BrainF/BrainF.cpp:53-63 | parsing succeeds exactly on texts with balanced brackets, and then the blocks are those of the one program with that text |
| BrainFCompiler.BrainF.ReadLoop | uosio_llvm/examples/BrainF/BrainF.cpp:192-476 | the lookahead parser consumes exactly one program text (up to its closing bracket when nested), having emitted exactly its merged items, phis finished; it aborts only on unbalanced text |
| BrainFCompiler.BrainF.ReadSymbol | uosio_llvm/examples/BrainF/BrainF.cpp:320-423 | the reading loop stops with one complete symbol and at most one symbol of lookahead; the commands so far, the symbol, the lookahead and the unread text still spell the input |
| BrainFCompiler.BrainF.WriteSymbol | uosio_llvm/examples/BrainF/BrainF.cpp:203-290 | writes out the one item that the complete symbol stands for |
| BrainFCompiler.BrainF.WriteHeader | uosio_llvm/examples/BrainF/BrainF.cpp:65-190 | builds the entry block, the return block and, with bounds checks, the error block that prints the message and returns |
| BrainFCompiler.BrainF.WriteRead | uosio_llvm/examples/BrainF/BrainF.cpp:209-224 | the read code: get a character, truncate it, store it at the head |
| BrainFCompiler.BrainF.WriteWrite | uosio_llvm/examples/BrainF/BrainF.cpp:226-244 | the write code: load, sign-extend, put |
| BrainFCompiler.BrainF.WriteMove | uosio_llvm/examples/BrainF/BrainF.cpp:246-276 | the move code, with the two comparisons and the branch to the error block when bounds are checked |
| BrainFCompiler.BrainF.WriteChange | uosio_llvm/examples/BrainF/BrainF.cpp:278-290 | the change code: load, add the net amount modulo 256, store |
| BrainFCompiler.BrainF.WriteLoopStart | uosio_llvm/examples/BrainF/BrainF.cpp:292-310 | opens a test block with a half-made phi and a body block, and makes the phi the head |
| BrainFCompiler.BrainF.WriteLoopEnd | uosio_llvm/examples/BrainF/BrainF.cpp:432-464 | branches back, completes the phi with the back edge, writes the zero test, and opens the exit block with its own phi |
| BrainFCompiler.UnclosedBracket | uosio_llvm/examples/BrainF/BrainF.cpp:469-475 | a loop whose closing bracket never comes makes the whole text unbalanced |
| BrainFCompiler.ExtraBracket | uosio_llvm/examples/BrainF/BrainF.cpp:426-430 | a closing bracket outside any loop makes the text unbalanced |
| MallocBlocks.FirstFitLowest | libraries/uosiolib/malloc.cpp:289-312 | the search finds a block exactly when some run of adjacent free blocks can hold the size, and then at the start of the lowest such run |
| MallocBlocks.FirstFitLive | libraries/uosiolib/malloc.cpp:289-312 | a successful search adds exactly the returned block to the live ones; a failed search leaves the live blocks as they were |
| MallocBlocks.FirstFitTiles | libraries/uosiolib/malloc.cpp:289-312 | the blocks left by a search still fill exactly the same words and keep (size + 4) % 8 == 0 |
| MallocBlocks.FirstFitCoalesces | libraries/uosiolib/malloc.cpp:465-497 | after a failed search no two free blocks are neighbours |
| MallocBlocks.NothingLeft | libraries/uosiolib/malloc.cpp:289-312 | after a failed search no run of free blocks can hold the size, so the same search would fail again |
| MallocBlocks.FirstFitStable | libraries/uosiolib/malloc.cpp:289-312 | searching again what a failed search left fails again |
| MallocBlocks.LiveDisjoint | libraries/uosiolib/malloc.cpp:275-287 | a header lies between any two live payloads |
| MallocBlocks.LiveInside | libraries/uosiolib/malloc.cpp:275-287 | every live payload lies inside the tiled words |
| MallocHeap.LiveRanges | libraries/uosiolib/malloc.cpp:263-287 | in a tiled heap, two live blocks lie in bounds and apart, and the header word below a live block is marked and holds its size |
| MallocHeap.Memory.constructor | libraries/uosiolib/malloc.cpp:252-256 | a fresh heap has carved nothing |
| MallocHeap.Memory.SetSize | libraries/uosiolib/malloc.cpp:422-428 | writes the size and keeps the allocated bit; a size from 2^31 bytes on sets that bit, as the two share it |
| MallocHeap.Memory.MarkAlloc | libraries/uosiolib/malloc.cpp:440-443 | sets the allocated bit and keeps the size |
| MallocHeap.Memory.MarkFree | libraries/uosiolib/malloc.cpp:445-448 | clears the allocated bit and keeps the size |
| MallocHeap.Memory.Malloc | libraries/uosiolib/malloc.cpp:275-287 | for every adjusted 32-bit size: carving fails exactly when the sum does not wrap and header and payload do not fit; without a wrap one new live block appears at the carved end and every live payload keeps its words; with a wrap it always succeeds, and the carved end moves down over blocks still live |
| MallocHeap.OverlapHappens | libraries/uosiolib/malloc.cpp:275-287 | on a real heap: malloc of 4, of 0xFFFFFFF4 and of 4 bytes, and the third pointer is the first, which was never freed |
| MallocHeap.Memory.CleanupRemaining | libraries/uosiolib/malloc.cpp:368-378 | the heap becomes fully carved, with the same live blocks and payloads |
| MallocHeap.Memory.ExpandMemory | libraries/uosiolib/malloc.cpp:380-388 | grows exactly when the new memory starts where the heap ends; blocks and contents are kept |
| MallocHeap.Memory.Free | libraries/uosiolib/malloc.cpp:362-366 | exactly the freed block stops being live: its header is marked free in the list, the other blocks, the payloads and the tiling are kept |
| MallocHeap.Memory.WriteWord | libraries/uosiolib/malloc.cpp:275-287 | a caller writing inside its own block disturbs no header and no other payload |
| MallocHeap.Memory.MergeContiguous | libraries/uosiolib/malloc.cpp:465-497 | the header walk in memory reaches what the specified walk reaches; all-or-nothing changes nothing unless enough was reached |
| MallocHeap.Memory.Combine | libraries/uosiolib/malloc.cpp:485-496 | rewrites one header, and one for the remainder when something is left over |
| MallocHeap.Memory.MallocFromFreed | libraries/uosiolib/malloc.cpp:289-312 | the in-place walk over a fully carved heap terminates, keeps the tiling, and does to the block list exactly what the first-fit search does; live payloads keep their words |
| MallocHeap.Memory.TryRun | libraries/uosiolib/malloc.cpp:294-308 | one step of that walk: the free block becomes as large as the run and the request allow, is taken exactly when that is enough, and the headers still tile |
| MallocHeap.Memory.ReallocInPlace | libraries/uosiolib/malloc.cpp:314-360 | for every adjusted 32-bit size: succeeds exactly when the block can shrink, is last with room, can merge forward, or one of the two unchecked cases applies (the merge walks off the carved part, or the end check wraps); keeps the first min(old, new) words and every other live payload; outside those cases the heap stays well formed and only this block changes, and in them no block list tiles the heap, or the carved end is the wrapped sum |
| MallocHeap.Memory.HeadersTell | libraries/uosiolib/malloc.cpp:314-360 | these conditions, read off the header words in memory, say exactly what they say of the list of blocks |
| MallocHeap.CanResizeIs | libraries/uosiolib/malloc.cpp:314-360 | a block can take a size where it is exactly when it ends below the heap and is large enough, is the last, or has free blocks right behind it that make up the difference |
| MallocHeap.Memory.FreeExcess | libraries/uosiolib/malloc.cpp:334-342 | shrinking writes a free header inside the block, and no other block, nor the words kept, change |
| MallocHeap.Memory.ExtendLast | libraries/uosiolib/malloc.cpp:327-350 | the last block takes the carved end with it; the heap stays well formed exactly unless the size is larger than the address where the heap ends |
| MallocHeap.Memory.GrowInPlace | libraries/uosiolib/malloc.cpp:351-359 | the merge-forward case of the same |
| MallocHeap.WalkedOff | libraries/uosiolib/malloc.cpp:472-480 | the exact failure: when the walk runs past the carved end, the memory it leaves is tiled by no block list at all, though payloads are still intact |
| MallocHeap.WalksOffHappens | libraries/uosiolib/malloc.cpp:472-480 | on a real heap: malloc, malloc, free of the second, realloc in place of the first, and no list of blocks tiles the memory that is left |
| MallocHeap.OverrunHappens | libraries/uosiolib/malloc.cpp:327-350 | on a real heap: a realloc in place larger than the address where the heap ends succeeds, and the carved end lies beyond the heap |
| MallocHeap.TilesPrefix | libraries/uosiolib/malloc.cpp:289-312 | a chain of headers read from the start of the heap is the same up to any point it reaches |
| MallocManager.AdjustedGood | libraries/uosiolib/malloc.cpp:233-240 | for every 32-bit size: rounding gives a size with (size + 4) % 8 == 0 that is at least the request and less than 8 bytes more, except for the three largest, which become 4 |
| MallocManager.MemoryManager.constructor | libraries/uosiolib/malloc.cpp:66-74 | no heap is set up before the first call |
| MallocManager.MemoryManager.Sbrk | libraries/uosiolib/malloc.cpp:20-54 | moves the break by the request rounded up to 8, exactly when the pages for it can be had |
| MallocManager.AdjustmentIs | libraries/uosiolib/malloc.cpp:88-94 | growth asks for what brings the break to the next multiple of 64 KiB, or, with less than 1 KiB left below that one, to the next multiple of 128 KiB |
| MallocManager.GrowthEnough | libraries/uosiolib/malloc.cpp:88-94 | growth gives 1 KiB at least, which the comment there asks for, exactly unless less than that is left of an odd page |
| MallocManager.MemoryManager.CanGrowIs | libraries/uosiolib/malloc.cpp:88-95 | growth goes through exactly when that multiple is not past the most memory there can be |
| MallocManager.MemoryManager.NextActiveHeap | libraries/uosiolib/malloc.cpp:79-116 | with a pointer widened by its top bit: fails exactly when the next multiple of 64 KiB (or of 128 KiB, near the end of a page) is past the most memory; otherwise the break is there and the active heap reaches it, by growing in place exactly when it ended at the old break, and has room for a block, and no live block changes; with a pointer widened by zeros a failed sbrk, and nothing else, goes unseen |
| MallocManager.MemoryManager.TakeMemory | libraries/uosiolib/malloc.cpp:104-115 | new memory goes to the active heap exactly when it touches it, and to a heap of its own otherwise; no live block changes |
| MallocManager.MemoryManager.Close | libraries/uosiolib/malloc.cpp:98-99 | the heap left behind is fully carved and its live blocks are kept |
| MallocManager.MemoryManager.Expand | libraries/uosiolib/malloc.cpp:104-106 | grows the last heap exactly when the new memory touches it |
| MallocManager.MemoryManager.AddHeap | libraries/uosiolib/malloc.cpp:111-113 | a second heap goes above the first, with no live block in it |
| MallocManager.MemoryManager.SwitchHeap | libraries/uosiolib/malloc.cpp:108-115 | closes the first heap and makes a new one active |
| MallocManager.MemoryManager.GiveUp | libraries/uosiolib/malloc.cpp:95-102 | when growth failed, the active heap is closed and only freed blocks are left |
| MallocManager.MemoryManager.FirstHeap | libraries/uosiolib/malloc.cpp:136-139 | the static array becomes the first heap |
| MallocManager.MemoryManager.Begin | libraries/uosiolib/malloc.cpp:122-142 | the first call, and no other, sets up the heap of the static array; no live block changes |
| MallocManager.MemoryManager.CarveFrom | libraries/uosiolib/malloc.cpp:144-149 | carves at the end of the active heap exactly when there is room or the 32-bit sum wraps |
| MallocManager.MemoryManager.CarveOrGrow | libraries/uosiolib/malloc.cpp:144-152 | the growth loop ends; it does not grow when the active heap has room, and gives up only when the host gives no more; a sum that wraps is answered by the carved end as it is |
| MallocManager.MemoryManager.GrowAndCarve | libraries/uosiolib/malloc.cpp:144-152 | that loop, once the active heap is too small: it ends, gives up only when the host gives no more, and grows no further than needed: the block it hands out reaches past where the break was before it last moved |
| MallocManager.MemoryManager.GrowFor | libraries/uosiolib/malloc.cpp:144-152 | one round of it: either no more can be had, or the next block of the size would reach past the old break |
| MallocManager.MemoryManager.MallocCarved | libraries/uosiolib/malloc.cpp:124-152 | the carving half of malloc; after growth has failed once it changes nothing |
| MallocManager.MemoryManager.TryFreed | libraries/uosiolib/malloc.cpp:160-163 | one heap searched: fails exactly when no run of its free blocks fits |
| MallocManager.MemoryManager.TurnToNext | libraries/uosiolib/malloc.cpp:165-166 | the search goes on with the next heap, and after the last with the first |
| MallocManager.MemoryManager.SearchFreed | libraries/uosiolib/malloc.cpp:154-169 | the search fails exactly when no run in any heap fits; otherwise it takes the lowest run of the first heap that has one, in turn from the heap where the last search ended |
| MallocManager.MemoryManager.Malloc | libraries/uosiolib/malloc.cpp:117-172 | for every 32-bit request: the heaps stay well formed and the result is null or lies with all its bytes inside one heap, if and only if the request is at most 0xFFFFFFFC and growth has failed already or its sum with the carved end does not wrap, or it is larger, rounds to 4, and no block of 4 is left; then a new live block at least as large as asked appears at an address no live block has, and every live payload is kept; null exactly for lack of memory; 2^31 and more that do not wrap give null; a first call of up to 8188 bytes gets the start of the static array; growth is never more than needed; after failed growth the lowest run of the first heap in turn is taken |
| MallocManager.MemoryManager.MallocSome | libraries/uosiolib/malloc.cpp:122-172 | the same for at least one byte |
| MallocManager.MemoryManager.Allocate | libraries/uosiolib/malloc.cpp:117-172 | the same for an adjusted size, with the heap and the place of the block; a request for one word fails exactly when no memory and no free block is left |
| MallocManager.MemoryManager.FindHeap | libraries/uosiolib/malloc.cpp:223-225 | the heap that is found for a live address is the one the block is in |
| MallocManager.MemoryManager.Free | libraries/uosiolib/malloc.cpp:217-231 | exactly the block at the pointer stops being live; a null pointer changes nothing |
| MallocManager.MemoryManager.CopyPayload | libraries/uosiolib/malloc.cpp:207-210 | copies the words and touches no other block, also between heaps |
| MallocManager.MemoryManager.ReallocHere | libraries/uosiolib/malloc.cpp:186-201 | the in-place half of realloc: succeeds exactly when the block can be resized where it is or leaves it; otherwise changes nothing; when it leaves its place the heaps are broken or the size is beyond the heap |
| MallocManager.MemoryManager.Spill | libraries/uosiolib/malloc.cpp:203-214 | a copy to where a wrapped request points changes nothing but words of the two heaps |
| MallocManager.MemoryManager.MoveBlock | libraries/uosiolib/malloc.cpp:203-214 | the moving half, for every 32-bit request: unless the sum wraps, the first min(old, new) words arrive in the new block, which is a different one, the old block is freed, the others are kept; if it wraps, the result does not lie inside a heap |
| MallocManager.MemoryManager.CopyAndFree | libraries/uosiolib/malloc.cpp:207-213 | the copy and the free: the words arrive, the old block is gone, no other block changes |
| MallocManager.MemoryManager.Realloc | libraries/uosiolib/malloc.cpp:174-215 | for every 32-bit request: the heaps stay well formed and the result is null or lies inside one heap, if and only if the in-place attempt does not leave the block, a move would not wrap, and the request is at most 0xFFFFFFFC; then in all four cases the first min(old, new) bytes are kept, every other live block keeps its range and words, and the result is live; the block stays exactly when it can be resized there; null exactly for size zero or for lack of memory |
| MallocManager.MemoryManager.ReallocLive | libraries/uosiolib/malloc.cpp:174-215 | the same for a live block and a size that is not zero |
| MallocManager.MemoryManager.LiveBelow | libraries/uosiolib/malloc.cpp:117-231 | in every state a live block lies between the static array and the break |
| MallocManager.MemoryManager.LiveApart | libraries/uosiolib/malloc.cpp:117-231 | in every state the live blocks of all heaps lie below the break and no two of them overlap |
| MallocManager.MemoryManager.PastOwnHeap | libraries/uosiolib/malloc.cpp:186-201 | a block larger than the address where its heap ends lies in no heap at all |
| MallocRuns.PerformAll | libraries/uosiolib/malloc.cpp:117-231 | after any sequence of malloc, realloc and free calls the pointers a program owns are to live blocks inside the memory, as large as asked, and no two overlap; what is owned after each call follows from the call; with failed growth seen, the run stops only before a call that malloc or realloc would answer wrongly |
| MallocRuns.Perform | libraries/uosiolib/malloc.cpp:117-231 | one call: made exactly when it would be answered right, and then exactly the pointer it names is given up and the one it returns is added; null for some bytes means that nothing fits and no memory is left |
| MallocRuns.Obtain | libraries/uosiolib/malloc.cpp:117-172 | that call for malloc |
| MallocRuns.Release | libraries/uosiolib/malloc.cpp:217-231 | that call for free, which is always made |
| MallocRuns.Resize | libraries/uosiolib/malloc.cpp:174-215 | that call for realloc |
| MallocRuns.OwnedApart | libraries/uosiolib/malloc.cpp:117-231 | blocks that are live and owned once do not overlap, counted in the bytes that were asked for |
| BumpAllocator.DsMalloc.constructor | libraries/uosiolib/simple_malloc.cpp:28-34 | starts at the heap base rounded up to 8, with the pages there are |
| BumpAllocator.AlignUp | libraries/uosiolib/simple_malloc.cpp:18-24 | alignment rounds up to a multiple of 8 by less than 8 |
| BumpAllocator.DsMalloc.GrowMemory | libraries/uosiolib/simple_malloc.cpp:49 | grows the memory or fails past 65536 pages |
| BumpAllocator.DsMalloc.Alloc | libraries/uosiolib/simple_malloc.cpp:36-51 | an 8-aligned block right after the last one, inside the memory, with exactly the pages it needs; the check fails exactly when the pages and the whole pages of the request reach 65536, wrapped sums included |
| BumpAllocator.DsMalloc.AllocAll | libraries/uosiolib/simple_malloc.cpp:36-51 | over any sequence of calls the blocks are aligned, in order, pairwise disjoint, as large as asked, and below the pages |
| BumpAllocator.OneMorePage | libraries/uosiolib/simple_malloc.cpp:43-48 | one page more than the request holds always reaches past the new end |
| BumpAllocator.WrapFails | libraries/uosiolib/simple_malloc.cpp:40-49 | a 32-bit sum that wraps asks for more pages than there are |
| DiceInvariants.RunKeeps | examples/dice/dice.cpp:22-252 | after every run of fewer than 2^32 actions: balances, plus bets of unmatched offers, plus twice the bet of each game, equal deposits minus withdrawals; and open_offers and open_games are the actual counts, every owner has an account, each game has exactly two offers of two owners, no game has both reveals |
| DiceInvariants.StepKeeps | examples/dice/dice.cpp:22-252 | each action keeps that invariant and changes the total by what it deposits or withdraws, an aborted one by nothing |
| DiceInvariants.OfferKeeps | examples/dice/dice.cpp:22-111 | offering, matched or not, neither creates nor loses tokens |
| DiceInvariants.MatchKeeps | examples/dice/dice.cpp:60-110 | a match turns two bets into one stake and moves both offers into one game |
| DiceInvariants.CancelKeeps | examples/dice/dice.cpp:114-130 | cancelling returns the bet |
| DiceInvariants.RevealKeeps | examples/dice/dice.cpp:133-180 | revealing keeps the total, whoever wins |
| DiceInvariants.ClaimKeeps | examples/dice/dice.cpp:183-202 | so does claiming an expired game |
| DiceInvariants.PayKeeps | examples/dice/dice.hpp:158-181 | paying aborts only when an amount would leave the asset range; otherwise the winner gains twice the bet, game and offers are gone, and no counter underflows |
| DiceInvariants.DepositKeeps | examples/dice/dice.cpp:205-226 | a deposit adds its quantity to the total and keeps the tables consistent, new accounts included |
| DiceInvariants.WithdrawKeeps | examples/dice/dice.cpp:229-252 | a withdrawal takes its quantity from the total; an account it empties is not one that an offer or game names |
| DiceInvariants.PlayersFound | examples/dice/dice.cpp:183-202 | in a consistent state both offers of a game are found by commitment, and the "game error" check never fires |
| DiceOutcomes.OfferSettles | examples/dice/dice.cpp:22-111 | exactly when an offer goes through, and what it does: it plays against the oldest offer of the same bet if that is another player's, the older offer in the first seat, and otherwise stays open |
| DiceOutcomes.RevealSettles | examples/dice/dice.cpp:133-180 | exactly when a reveal goes through: the first one only records source and deadline, the second pays both stakes to the winner of the draw and clears the game |
| DiceOutcomes.CancelSucceeds | examples/dice/dice.cpp:114-130 | cancelling succeeds exactly for an unmatched offer with that commitment whose bet fits back into the balance |
| DiceOutcomes.ClaimSucceeds | examples/dice/dice.cpp:183-202 | claiming succeeds exactly after a set deadline when the payment fits into the balance: everything it looks up is there |
| DiceOutcomes.ClaimAfterReveal | examples/dice/dice.cpp:166-202 | whom a claim pays after one reveal, for both seats: the revealer, unless that was the first seat with the all-zero source; then the other player |
| DiceOutcomes.RunDeadlines | examples/dice/dice.cpp:166-176 | with nonzero sources, in every run a game has a deadline exactly when one side has revealed |
| DiceOutcomes.ClaimPaysRevealer | examples/dice/dice.cpp:183-202 | in every run with nonzero sources, a claim that succeeds finds exactly one reveal and pays that player |
| DiceEffects.WithdrawSettles | examples/dice/dice.cpp:229-252 | a withdrawal goes through exactly for a positive amount that the account holds, up to all of it; it takes that from this account and changes no other table or account; the account goes exactly when nothing is left in it |
| DiceEffects.DepositSettles | examples/dice/dice.cpp:205-226 | a deposit goes through exactly for a positive amount that the balance can take, and adds it to that account, made if need be, and to nothing else |
| DiceEffects.DepositThenWithdraw | examples/dice/dice.cpp:205-252 | withdrawing what was just deposited always works and leaves the tables as they were, a new account removed again |
| DiceEffects.CancelSettles | examples/dice/dice.cpp:114-130 | a cancelled offer goes, its bet returns to its owner, who has one open offer less, and nothing else changes; exactly for an unmatched offer whose bet fits back |
| DiceEffects.KeyAboveAll | examples/dice/dice.cpp:37-43 | a new offer's key is one above the largest in the table, 0 in an empty one |
| DiceEffects.OfferAccounts | examples/dice/dice.cpp:46-110 | what an offer does to the accounts and the game counter: the player pays the bet; unmatched he has one open offer more; matched both players have one game more and the other one open offer less; no other account changes |
| DiceEffects.PaySettles | examples/dice/dice.hpp:158-181 | a payment goes through exactly when the winner can take twice the bet; then game and offers go, the winner has that more, both have one game less, the loser's account goes exactly when it is then empty, and no other account changes |
| DiceEffects.RevealPays | examples/dice/dice.cpp:150-164 | the second reveal of a game makes that payment to the winner of the draw |
| DiceEffects.ClaimPays | examples/dice/dice.cpp:183-202 | a claim makes it to the first seat if that one has revealed, and to the second otherwise |
| DiceEffects.NeedsGame | examples/dice/dice.cpp:133-146 | a reveal needs the right hash and an offer in a game, a claim a game |
| DiceState.AvailableKey | examples/dice/dice.cpp:37-43 | the new offer's key is not in use |
| DiceState.ByCommitment | examples/dice/dice.cpp:116-118 | the commitment index finds an offer with that commitment, the one with the smallest key |
| DiceState.LowerBound | examples/dice/dice.cpp:46-47 | the bet index finds the least (bet, key) with at least that bet |
| DiceContract.Dice.constructor | examples/dice/dice.hpp:36-43 | the tables start empty |
| DiceContract.Dice.OfferBet | examples/dice/dice.cpp:22-111 | the action on the table objects is one step of the state machine, with the same failures |
| DiceContract.Dice.MatchOffers | examples/dice/dice.cpp:60-110 | the matching branch, statement by statement, is the specified match |
| DiceContract.Dice.CancelOffer | examples/dice/dice.cpp:114-130 | the action is one step of the state machine, with the same failures |
| DiceContract.Dice.PayAndClean | examples/dice/dice.hpp:158-181 | the table changes in their order come to the specified payment, also when an account empties |
| DiceContract.Dice.Reveal | examples/dice/dice.cpp:133-180 | the action is one step of the state machine, with the same failures |
| DiceContract.Dice.ClaimExpired | examples/dice/dice.cpp:183-202 | the action is one step of the state machine, with the same failures |
| DiceContract.Dice.Deposit | examples/dice/dice.cpp:205-226 | the action is one step of the state machine, with the same failures |
| DiceContract.Dice.Withdraw | examples/dice/dice.cpp:229-252 | the action is one step of the state machine, with the same failures |
| DiceContract.Dice.AvailablePrimaryKey | examples/dice/dice.cpp:37-38 | a scan of the offers gives the next key |
| DiceContract.Dice.FindCommitment | examples/dice/dice.cpp:116-118 | a scan of the offers gives the index lookup |
| DiceContract.Dice.LowerBoundByBet | examples/dice/dice.cpp:46-47 | a scan of the offers gives the index lower bound |
| BetDice.RunKeeps | examples/uosbetdice/uosbetdice.cpp:11-396 | in every reachable state the liabilities counter is the sum of the active bets modulo 2^64, and every active bet has a roll between 2 and 96 and a valid amount |
| BetDice.StepKeeps | examples/uosbetdice/uosbetdice.cpp:79-307 | placing, resolving and suspending each keep that |
| BetDice.LiabilitiesExact | examples/uosbetdice/uosbetdice.cpp:358-396 | as long as the active bets sum below 2^64, the counter is exactly that sum |
| BetDice.SuspendWorks | examples/uosbetdice/uosbetdice.cpp:52-77 | in every reachable state a bet can be suspended exactly when it is active |
| BetDice.PlaceSettles | examples/uosbetdice/uosbetdice.cpp:79-177 | a bet is placed exactly when its amount is an asset amount of at least 1000 as a word, the roll is between 2 and 96, the number new, and the win, with an edge of 2%, or 1.5% with a referrer, within a 25th of what the balance leaves above the liabilities; then it is added with what was asked, and to the liabilities and the count |
| BetDice.HouseTransfers | examples/uosbetdice/uosbetdice.cpp:86-89 | a transfer of the contract or of the casino changes nothing |
| BetDice.BetSettles | examples/uosbetdice/uosbetdice.cpp:52-77 | a bet is resolved or suspended exactly when it is active and its amount an asset amount; then it, and no other, leaves the table, and its amount the liabilities; a resolved one adds to the two totals |
| BetDice.MultiplierExact | examples/uosbetdice/uosbetdice.cpp:445-448 | the multiplier is the whole part of (10000 - edge) * 100 / (roll_under - 1) |
| BetDice.PayoutIs | examples/uosbetdice/uosbetdice.cpp:227-239 | a losing roll pays nothing; a winning one the largest amount whose 10000-fold is at most the bet times that whole part, as a 64-bit word |
| BetDice.PayoutExact | examples/uosbetdice/uosbetdice.cpp:237-239 | the payout is the true quotient exactly when amount times multiplier fits in 64 bits |
| BetDice.WinPaysBet | examples/uosbetdice/uosbetdice.cpp:237-239 | a win without wrap-around never pays less than the bet |
| BetDice.MultiplierRange | examples/uosbetdice/uosbetdice.cpp:445-448 | the multiplier pays at least the bet back, and over all winning rolls no more than what the edge leaves |
| BetDice.PaidOverIs | examples/uosbetdice/uosbetdice.cpp:227-239 | over the first n rolls exactly the rolls below roll_under pay, all the same amount |
| BetDice.EdgeKept | examples/uosbetdice/uosbetdice.cpp:227-239 | over the 100 rolls the payouts never exceed 100 times the bet times one minus the edge, wrapped products included |
| BetDice.ResolvedAsChecked | examples/uosbetdice/uosbetdice.cpp:131-146 | a placed bet of a positive quantity is resolved for at most the payout that was checked, which is at most the bet and the win limit, wrapped products and differences included; for any quantity it wins exactly what was checked unless the referrer named is the casino itself |
| BetDice.PlacedEarlier | examples/uosbetdice/uosbetdice.cpp:79-177 | in every run each active bet was placed by a transfer of that run that passed its checks |
| BetDice.WinWithinLimit | examples/uosbetdice/uosbetdice.cpp:79-307 | in every run, for every roll, an active bet can be resolved, and if its quantity was positive it pays at most the bet and the win limit of the moment it was placed |
| BetDice.TotalsAre | examples/uosbetdice/uosbetdice.cpp:358-396 | in every run the three counters are the number of bets placed, the sum of the bets settled and the sum of the wins paid, modulo 2^64 |
| BetDice.BetAsAsked | examples/uosbetdice/uosbetdice.cpp:79-177 | in every run an active bet has the bettor, amount and roll of its transfer, and as referrer the account named if it exists and is neither the contract nor the bettor, and the casino otherwise; nobody refers himself |
| BetDice.LimitIs | examples/uosbetdice/uosbetdice.cpp:451-458 | the win limit is a 25th, rounded down, of what the balance leaves above the liabilities as a word |
| BetDice.NegativeQuantity | examples/uosbetdice/uosbetdice.cpp:90-146 | the positive quantity is needed: a transfer of -2000, which the checks let through, can be resolved for more than was checked |
| BetDice.Contract.constructor | examples/uosbetdice/uosbetdice.cpp:11-37 | before initcontract there are no counters and no bets |
| BetDice.Contract.InitContract | examples/uosbetdice/uosbetdice.cpp:8-38 | succeeds once, and sets the four counters to zero |
| BetDice.Contract.Place | examples/uosbetdice/uosbetdice.cpp:79-177 | the transfer action is one step of the state machine: checks, counters and the new bet |
| BetDice.Contract.ResolveBet | examples/uosbetdice/uosbetdice.cpp:201-307 | the action is one step of the state machine: payout, statistics, liabilities, and the bet removed |
| BetDice.Contract.SuspendBet | examples/uosbetdice/uosbetdice.cpp:52-77 | the action is one step of the state machine: liabilities down, the bet removed |
| BetDice.Contract.IncrementLiabilitiesBetId | examples/uosbetdice/uosbetdice.cpp:358-371 | the two counters change, modulo 2^64, and no other |
| BetDice.Contract.IncrementGameStats | examples/uosbetdice/uosbetdice.cpp:373-388 | the bet total always grows, the win total only for a win |
| BetDice.Contract.DecrementLiabilities | examples/uosbetdice/uosbetdice.cpp:390-396 | only the liabilities change, modulo 2^64 |
| HostDatabase.Database.Store | libraries/uosiolib/db.h:31-49 | stores a row under a new handle; a key in use is refused |
| HostDatabase.Database.Update | libraries/uosiolib/db.h:51-66 | replaces the row of a handle |
| HostDatabase.Database.Remove | libraries/uosiolib/db.h:68-86 | removes the row of a handle |
| HostDatabase.Database.Get | libraries/uosiolib/db.h:88-111 | the row of a handle |
| HostDatabase.Database.IndexStore | libraries/uosiolib/db.h:221-235 | adds an index entry under a new handle |
| HostDatabase.Database.IndexUpdate | libraries/uosiolib/db.h:237-249 | changes the secondary key of an entry and keeps its handle |
| HostDatabase.Database.IndexRemove | libraries/uosiolib/db.h:251-261 | removes the entry of a handle |
| HostDatabase.FindPrimary | libraries/uosiolib/db.h:158-176 | the handle of a key, negative when there is none |
| HostDatabase.LowerBound | libraries/uosiolib/db.h:323-339 | the first entry in (secondary, primary) order at or after a secondary key; negative exactly when there is none |
| HostDatabase.UpperBound | libraries/uosiolib/db.h:341-357 | the first entry after a secondary key; negative exactly when there is none |
| HostDatabase.Next | libraries/uosiolib/db.h:263-275 | the entry right after another; negative exactly at the end |
| HostDatabase.Previous | libraries/uosiolib/db.h:277-289 | the entry right before another; negative exactly at the beginning |
| HostDatabase.PreviousOfEnd | libraries/uosiolib/db.h:359-370 | the last entry; negative exactly for an empty table |
| HostDatabase.FirstIs | libraries/uosiolib/db.h:323-357 | the row at or after a secondary key is the one with the least secondary key that is not smaller, and the least primary key among those |
| HostDatabase.NeighboursAre | libraries/uosiolib/db.h:263-289 | the row after another has the next larger primary key for the same secondary key, and otherwise the next larger secondary key; the row before likewise |
| HostDatabase.LastIs | libraries/uosiolib/db.h:277-289 | the last row has the largest secondary key, and the largest primary key among those |
| MultiIndexTable.MultiIndex.constructor | libraries/uosiolib/multi_index.hpp:675-677 | a new object caches nothing and agrees with the tables |
| MultiIndexTable.MultiIndex.LoadObjectByPrimaryIterator | libraries/uosiolib/multi_index.hpp:583-625 | returns the cached item of a handle or loads it once; no key is ever cached twice, cached items stay as they were |
| MultiIndexTable.MultiIndex.Find | libraries/uosiolib/multi_index.hpp:1568-1580 | null exactly when no row has the key; otherwise an item equal to the stored row, whatever was cached |
| MultiIndexTable.MultiIndex.IndexIterator | libraries/uosiolib/multi_index.hpp:355-360 | the entry handle of an item in an index, looked up at first use and remembered, other indexes left alone |
| MultiIndexTable.MultiIndex.IndexItem | libraries/uosiolib/multi_index.hpp:473-486 | the item of an index entry, its handle remembered, from the cache or the table |
| MultiIndexTable.MultiIndex.IndexNext | libraries/uosiolib/multi_index.hpp:350-375 | `++` moves to the next row in (secondary, primary) order, to the end exactly when there is none |
| MultiIndexTable.MultiIndex.IndexPrevious | libraries/uosiolib/multi_index.hpp:377-405 | `--` moves to the row before, from the end to the last row, and fails exactly at the beginning |
| MultiIndexTable.MultiIndex.IndexLowerBound | libraries/uosiolib/multi_index.hpp:473-486 | the first row with at least the secondary key, the end exactly when there is none |
| MultiIndexTable.MultiIndex.IndexUpperBound | libraries/uosiolib/multi_index.hpp:491-504 | the first row above the secondary key, the end exactly when there is none |
| MultiIndexTable.MultiIndex.IndexFind | libraries/uosiolib/multi_index.hpp:438-446 | the end exactly when no row has the secondary key; otherwise the row with the smallest primary key among those that have it |
| MultiIndexTable.MultiIndex.PrimaryNext | libraries/uosiolib/multi_index.hpp:742-752 | the row with the next larger primary key |
| MultiIndexTable.MultiIndex.PrimaryPrevious | libraries/uosiolib/multi_index.hpp:753-769 | the row with the next smaller primary key, from the end the largest; fails exactly at the beginning |
| MultiIndexTable.MultiIndex.PrimaryLowerBound | libraries/uosiolib/multi_index.hpp:1052-1057 | the row with the least primary key that is at least the one given |
| MultiIndexTable.MultiIndex.AvailablePrimaryKey | libraries/uosiolib/multi_index.hpp:1132-1149 | a key above every key in use: on first use one above the largest, 0 in an empty table, and from then on the remembered one; refused exactly from the reserved values on |
| MultiIndexTable.NextAboveAdd | libraries/uosiolib/multi_index.hpp:1355-1356 | taking a key keeps the remembered one right: one above the largest key taken, or the reserved value |
| MultiIndexTable.MultiIndex.Emplace | libraries/uosiolib/multi_index.hpp:1330-1372 | adds exactly one row with an entry in every index, refused exactly for a foreign table or a key in use; the new item is cached and all the others stay; a larger key moves the next automatic key one above it, and a smaller one leaves it |
| MultiIndexTable.MultiIndex.StoreIndexes | libraries/uosiolib/multi_index.hpp:1358-1362 | each index gets one entry for the row, and its handle |
| MultiIndexTable.MultiIndex.Modify | libraries/uosiolib/multi_index.hpp:1461-1514 | replaces exactly one row and the changed index entries; succeeds exactly when the table is own and the primary key stays; the next automatic key stays unless the row's is not below it |
| MultiIndexTable.MultiIndex.UpdateIndexes | libraries/uosiolib/multi_index.hpp:1498-1513 | an entry is rewritten only where the secondary key changed, and afterwards every index holds the row's keys, by known or looked-up handle |
| MultiIndexTable.MultiIndex.Erase | libraries/uosiolib/multi_index.hpp:1681-1710 | removes exactly one row, its cached item and its entry in every index |
| MultiIndexTable.MultiIndex.RemoveIndexes | libraries/uosiolib/multi_index.hpp:1699-1709 | each index loses the entry of the row, its handle looked up where it was not known |
| MultiIndexRuns.PreviousUndoesNext | libraries/uosiolib/multi_index.hpp:350-405 | the row before the row after a row is that row, and no other |
| MultiIndexRuns.LastHasNoNext | libraries/uosiolib/multi_index.hpp:377-405 | the row with nothing after it is the last one, to which `--` from the end returns |
| MultiIndexRuns.NextThenPrevious | libraries/uosiolib/multi_index.hpp:350-405 | `++` and then `--` on any item, the last included, gives back the same item, with whatever mix of rows was cached |
| MultiIndexRuns.BackTo | libraries/uosiolib/multi_index.hpp:377-405 | `--` from the row after a row, or from the end after the last one, gives that row |
| MultiIndexRuns.VisitAll | libraries/uosiolib/multi_index.hpp:350-426 | iterating an index from begin to end visits every row exactly once, in (secondary, primary) order |
| MultiIndexRuns.ListedLength | libraries/uosiolib/multi_index.hpp:350-426 | a strictly ordered list of exactly the rows has as many members as the table |
| MultiIndexRuns.ListedUpward | libraries/uosiolib/multi_index.hpp:350-426 | the list of an iteration goes up by the secondary keys, and by the primary keys among equals |
| MultiIndexRuns.PerformOne | libraries/uosiolib/multi_index.hpp:1132-1710 | each operation succeeds exactly when the plain map from keys to rows, and the keys taken since the first automatic one, allow it, has the same effect on them, and gives the row, the list of rows or the key that they do; the cache and all tables stay in agreement |
| MultiIndexRuns.Perform | libraries/uosiolib/multi_index.hpp:1132-1710 | so does every sequence of emplace, modify, erase, find, find by secondary key, iteration and automatic key, with every answer; an automatic key is one above the largest key the table held at the first call for one or got since |
| MultiIndexRuns.Remembered | libraries/uosiolib/multi_index.hpp:1132-1149 | what any object remembers is right for some keys taken; a new one knows of none |
| MultiIndexRuns.TakenGrows | libraries/uosiolib/multi_index.hpp:1132-1149 | the keys taken only grow, rows erased included, so no automatic key is given twice once used |
| FloatIntrinsics.F32Ceil | libraries/native/intrinsics.cpp:412-433 | for every finite pattern, the float whose value is the mathematical ceiling, sign of zero included; other patterns come back unchanged (section 5.9 of IEEE 754-2008) |
| FloatIntrinsics.F32Floor | libraries/native/intrinsics.cpp:434-454 | the same for the floor |
| FloatIntrinsics.F32Trunc | libraries/native/intrinsics.cpp:455-468 | the same for truncation toward zero |
| FloatIntrinsics.F64Trunc | libraries/native/intrinsics.cpp:623-636 | the same for doubles |
| FloatRounding.MagRoundOk | libraries/native/intrinsics.cpp:412-468 | clearing the fraction bits, or clearing them after adding the mask, gives the multiple of one just below or just above, the carry into the exponent included |
| FloatRounding.RoundPatternOk | libraries/native/intrinsics.cpp:412-468 | so the pattern with its sign is the value rounded down, up or toward zero |
| FloatRounding.NormalValue | libraries/native/intrinsics.cpp:412-468 | with t fraction bits and bias b, exponent e and fraction f stand for (1 + f / 2^t) * 2^(e - b) |
| FloatConvert.ClzTi | libraries/rt/int_t.h:45-52 | 128 minus the number of binary digits |
| FloatConvert.RoundTo53 | libraries/rt/floatuntidf.c:31-70 | the shifts, ors and increments leave the 53-bit significand rounded half to even, and the exponent, raised when the round-up carries |
| FloatConvert.FloatUnTiDf | libraries/rt/floatuntidf.c:26-76 | the packed bits are those of the rounded significand and exponent |
| FloatConvert.FloatTiDf | libraries/rt/floattidf.c:26-79 | the same for signed integers, the most negative one included |
| FloatConvert.FinishRounds | libraries/rt/floatuntidf.c:54-57 | or-ing P into R, adding one and dropping two bits is rounding half to even |
| FloatConvert.ShiftedIs | libraries/rt/floatuntidf.c:43-53 | the three cases of the shift keep two extra bits, the last one sticky |
| FloatNearest.UnsignedNearest | libraries/rt/floatuntidf.c:26-76 | for every unsigned 128-bit integer no finite double is nearer than the result, and when another is as near the result's significand is even (section 4.3.1 of IEEE 754-2008) |
| FloatNearest.SignedNearest | libraries/rt/floattidf.c:26-79 | the same for every signed 128-bit integer |
| FloatNearest.MonotoneUnsigned | libraries/rt/floatuntidf.c:26-76 | the conversion is monotone |
| FloatNearest.Monotone | libraries/rt/floattidf.c:26-79 | so is the signed one |
| FloatNearest.NearestMonotone | libraries/rt/floatuntidf.c:26-76 | any nearest-even rounding is monotone |
| FloatNearest.FloatValue | libraries/rt/floatuntidf.c:26-76 | the value of the result: the integer itself up to 53 digits, the rounded multiple beyond |
| FloatFix.UnsignedTruncates | libraries/rt/fixunsdfti.c:15-37 | truncation toward zero clamped to 0 and 2^128 - 1 for every finite double, and saturation for infinities and NaNs |
| FloatFix.SignedTruncates | libraries/rt/fixdfti.c:16-41 | truncation clamped to the signed range exactly when the exponent is not 127 or the value is -2^127: there the saturation test, written for exponent 128, comes too late |
| FloatFix.UnsignedRoundTrip | libraries/rt/fixunsdfti.c:15-37 | to double and back moves an unsigned integer by at most half a unit in the last place, by nothing up to 2^53, and 2^128 saturates |
| FloatFix.SignedRoundTrip | libraries/rt/fixdfti.c:16-41 | the same for signed integers exactly when they are negative or round to less than 2^127; at 2^127 the result is -2^127 |
| FloatFix.HalfUlp | libraries/rt/floatuntidf.c:26-76 | rounding moves an integer by at most half a unit in the last place |
| SerialRoundTrip.RoundTrip | libraries/uosiolib/datastream.hpp:348-1282 | for every schema and value, decoding the encoding followed by any bytes gives the value and leaves exactly those bytes |
| SerialRoundTrip.AllBack | libraries/uosiolib/datastream.hpp:957-1087 | the same for the elements of vectors, sets and maps, read into a container that has the earlier ones |
| SerialRoundTrip.FieldsBack | libraries/uosiolib/datastream.hpp:398-422 | the same for the fields of pairs, tuples and records |
| SerialRoundTrip.PackedUniquely | libraries/uosiolib/datastream.hpp:1302-1353 | no encoding is a prefix of another: equal streams have equal values and equal rests |
| SerialRoundTrip.DecodeTyped | libraries/uosiolib/datastream.hpp:356-1282 | whatever bytes are decoded, the result is a value of the schema (sets and maps in order, without duplicates) and the rest is an end of the input |
| SerialRoundTrip.Settles | libraries/uosiolib/datastream.hpp:1302-1353 | what was decoded from any bytes, once encoded, decodes to the same value |
| SerialFormat.CmpEqual | libraries/uosiolib/datastream.hpp:1013-1087 | the order of set and map keys tells any two different values apart |
| SerialFormat.CmpOpposite | libraries/uosiolib/datastream.hpp:1013-1087 | it is antisymmetric |
| SerialFormat.CmpTransitive | libraries/uosiolib/datastream.hpp:1013-1087 | it is transitive |
| SerialBytes.CmpNumbers | libraries/uosiolib/datastream.hpp:1033-1087 | numbers are ordered by size, alternatives by index and then by value |
| SerialBytes.CmpLists | libraries/uosiolib/datastream.hpp:1033-1087 | lists are in dictionary order: a proper beginning first, and otherwise by the first place where they differ |
| SerialBytes.CmpKeys | libraries/uosiolib/datastream.hpp:1077-1087 | a map is ordered by its keys alone |
| SerialFormat.InsertSorted | libraries/uosiolib/datastream.hpp:1033-1087 | inserting keeps a set or map in strict order and invents no element |
| SerialBytes.InsertKeeps | libraries/uosiolib/datastream.hpp:1033-1087 | inserting keeps every element and adds the new one exactly when no element has its key |
| SerialFormat.InsertLast | libraries/uosiolib/datastream.hpp:1033-1087 | elements that arrive in order are appended |
| SerialFormat.IntegerBack | libraries/uosiolib/datastream.hpp:1263-1282 | a little-endian integer of any width, signed or not, is read back |
| SerialFormat.DecodeVarBack | libraries/uosiolib/varint.hpp:193-221 | every 32-bit number is read back from its base-128 code, and nothing after it is touched (section 7.6 of DWARF 4) |
| SerialBytes.VarByte | libraries/uosiolib/varint.hpp:193-202 | byte i of a varint has the bits n / 128^i mod 128, and its top bit set exactly when another follows |
| SerialBytes.VarLength | libraries/uosiolib/varint.hpp:193-202 | a varint has at most l bytes exactly when n < 128^l, for every l from 1: as few as possible |
| SerialBytes.VarShortest | libraries/uosiolib/varint.hpp:185-221 | whatever bytes are read as a number, its own varint is not longer |
| SerialBytes.VarRead | libraries/uosiolib/varint.hpp:212-221 | any bytes are read as the low seven bits of each byte up to the first one without the top bit, put together modulo 2^32, when that is one of the first five |
| SerialBytes.VarUnread | libraries/uosiolib/varint.hpp:212-221 | bytes that all have the top bit are read as no number |
| SerialBytes.IntegerBytes | libraries/uosiolib/datastream.hpp:1263-1282 | byte i of an integer is n / 256^i mod 256, rounded down, for negative ones as well |
| SerialBytes.IntegerRead | libraries/uosiolib/datastream.hpp:1263-1282 | any bytes of the width are read as the integer that is written with them |
| SerialFormat.ZigZagBack | libraries/uosiolib/varint.hpp:408-437 | every signed 32-bit number comes back from its zig-zag code |
| SerialFormat.UnZigZagRange | libraries/uosiolib/varint.hpp:428-437 | and every 32-bit code is the code of the signed number it is read as |
| SerialBytes.ZigZagOrder | libraries/uosiolib/varint.hpp:408-417 | the codes of signed numbers go outward from zero: 0, -1, 1, -2, 2 and so on |
| SerialBytes.BooleanFlag | libraries/uosiolib/datastream.hpp:676-697 | a bool is one byte, 1 for true; any byte but 0 is read as true |
| SerialBytes.OptionalFlag | libraries/uosiolib/datastream.hpp:434-443 | an optional is 0 alone, or 1 and the value |
| SerialBytes.FlagRead | libraries/uosiolib/datastream.hpp:455-463 | any flag but 0 announces a value |
| SerialBytes.ContainerBytes | libraries/uosiolib/datastream.hpp:957-1087 | a vector, set or map is the varint of its length and then its elements, each where the ones before it end, and nothing else |
| SerialBytes.FieldsBytes | libraries/uosiolib/datastream.hpp:398-422 | a pair, tuple or struct is its fields, each where the ones before it end, and nothing else |
| SerialBytes.VariantBytes | libraries/uosiolib/datastream.hpp:348-356 | an alternative is the varint of its index and then the value |
| SerialStream.Datastream.Write | libraries/uosiolib/datastream.hpp:84-89 | appends the bytes exactly when they fit, otherwise fails without moving |
| SerialStream.WriteCheck | libraries/uosiolib/datastream.hpp:84-89 | the check of a write, with its cast to int32_t, is the check that the bytes fit exactly for less than 2^31 bytes or when they fit |
| SerialStream.Datastream.Read | libraries/uosiolib/datastream.hpp:70-75 | takes the next bytes exactly when there are that many |
| SerialStream.Datastream.Get | libraries/uosiolib/datastream.hpp:121-127 | takes the next byte exactly when there is one |
| SerialStream.Datastream.PutVar | libraries/uosiolib/varint.hpp:193-202 | the writing loop appends the base-128 code, whose bytes SerialBytes.VarByte and SerialBytes.VarLength give one by one |
| SerialStream.Datastream.GetVar | libraries/uosiolib/varint.hpp:212-221 | the reading loop returns what decoding returns, with the same failures |
| SerialStream.Datastream.Put | libraries/uosiolib/datastream.hpp:348-1266 | writing a value into a buffer succeeds exactly when its encoding fits, and appends it |
| SerialStream.Datastream.PutOptional | libraries/uosiolib/datastream.hpp:434-440 | the flag byte, and the value when there is one |
| SerialStream.Datastream.PutContainer | libraries/uosiolib/datastream.hpp:957-1063 | the length and the elements |
| SerialStream.Datastream.PutVariant | libraries/uosiolib/datastream.hpp:348-353 | the index of the alternative and its value |
| SerialStream.Datastream.PutAll | libraries/uosiolib/datastream.hpp:957-1063 | the elements in their order |
| SerialStream.Datastream.PutFields | libraries/uosiolib/datastream.hpp:398-402 | the fields in their order |
| SerialStream.Datastream.GetValue | libraries/uosiolib/datastream.hpp:356-1282 | reading succeeds exactly when the remaining bytes decode, gives that value, and leaves the same rest |
| SerialStream.Datastream.GetAll | libraries/uosiolib/datastream.hpp:993-1087 | the same for the elements of a container |
| SerialStream.Datastream.GetFields | libraries/uosiolib/datastream.hpp:415-422 | the same for fields |
| SerialStream.SizeStream.Write | libraries/uosiolib/datastream.hpp:206-223 | counts what a stream would write |
| SerialStream.SizeStream.PutVar | libraries/uosiolib/varint.hpp:193-202 | counts the bytes of the base-128 code |
| SerialStream.SizeStream.Put | libraries/uosiolib/datastream.hpp:206-248 | counts exactly the bytes of the encoding, for every schema |
| SerialStream.SizeStream.PutAll | libraries/uosiolib/datastream.hpp:206-248 | the same for elements |
| SerialStream.SizeStream.PutFields | libraries/uosiolib/datastream.hpp:206-248 | the same for fields |
| SerialStream.PackSize | libraries/uosiolib/datastream.hpp:1331-1335 | the size is the number of bytes that pack writes |
| SerialStream.Pack | libraries/uosiolib/datastream.hpp:1346-1353 | a buffer of exactly that size always suffices, and holds exactly the encoding |
| SerialStream.Unpack | libraries/uosiolib/datastream.hpp:1302-1307 | succeeds exactly when the buffer decodes, with that value |
| NameFormat.NameOrder | libraries/uosiolib/name.hpp:241-243 | numeric order of names is dictionary order of their strings, and equal strings are equal names |
| NameFormat.StringRoundTrip | libraries/uosiolib/name.hpp:68-91 | encoding a valid string and writing it back removes only trailing dots |
| NameFormat.TrimmedIs | libraries/uosiolib/name.hpp:189-205 | what that means: a prefix that does not end in a dot, followed by dots only |
| NameFormat.WordRoundTrip | libraries/uosiolib/name.hpp:189-205 | every 64-bit word is the name of its own string |
| NameFormat.CharBack | libraries/uosiolib/name.hpp:99-110 | value and character are inverse to each other |
| NameFormat.CharOrder | libraries/uosiolib/name.hpp:190-200 | the order of values is the order of characters |
| NameFormat.TextShape | libraries/uosiolib/name.hpp:189-205 | the string is the digits of the word up to the last one that is not a dot |
| NameFormat.AfterLastDotIs | libraries/uosiolib/name.hpp:135-163 | the text after the last dot: an end of the string without dots, preceded by a dot unless it is the whole |
| NameFormat.SuffixText | libraries/uosiolib/name.hpp:135-163 | the digits after the last dot that something follows spell that text |
| NameMethods.FromString | libraries/uosiolib/name.hpp:68-91 | accepts exactly the strings of at most 13 allowed characters with a small 13th, and gives the number whose base-32 digits they are |
| NameMethods.WriteAsString | libraries/uosiolib/name.hpp:189-205 | writes exactly the string into the buffer, or nothing when 13 characters do not fit, and leaves the rest alone |
| NameMethods.Length | libraries/uosiolib/name.hpp:115-130 | the length of the string that is written |
| NameMethods.BitsAfterLastDot | libraries/uosiolib/name.hpp:136-151 | the loop finds the last dot that something follows |
| NameMethods.Suffix | libraries/uosiolib/name.hpp:135-163 | the name whose string is the text after the last dot |
| NameMethods.StringToName | tools/include/uosio/utils.hpp:28-45 | the digits of the first 12 characters and the low bits of the 13th, whatever the string |
| NameMethods.EncodersAgree | tools/include/uosio/utils.hpp:28-45 | on every valid string the tool's encoder and the library's give the same number |
| NameMethods.AllCharacters | tools/include/uosio/utils.hpp:85-90 | the thirteen characters of a word, filled in from the back |
| NameMethods.LastNotDot | tools/include/uosio/utils.hpp:66-72 | the trimmed length: what is kept does not end in a dot, and what goes is dots |
| NameMethods.NameToString | tools/include/uosio/utils.hpp:81-99 | the library's string for every word but zero, which gives thirteen dots |
| NameMethods.ValidateName | tools/include/uosio/utils.hpp:48-79 | accepts exactly the valid strings that survive the library's round trip |
| FixedBytes.Key.constructor | libraries/uosiolib/fixed_bytes.hpp:116 | all words zero |
| FixedBytes.Key.SetFromWordSequence | libraries/uosiolib/fixed_bytes.hpp:61-89 | the loop fills the words with the packed sequence and leaves the words after it as they were |
| FixedBytes.Key.StoreLast | libraries/uosiolib/fixed_bytes.hpp:84-88 | the partly filled last word is stored shifted by 8 bits for each missing sub-word |
| FixedBytes.Key.ExtractAsByteArray | libraries/uosiolib/fixed_bytes.hpp:226-250 | the first Size bytes of the words, highest byte first |
| FixedBytes.Key.WriteWord | libraries/uosiolib/fixed_bytes.hpp:242-245 | the inner loop writes a word from its last byte and touches no other byte |
| FixedBytes.PackedBytes | libraries/uosiolib/fixed_bytes.hpp:61-89 | the stored bytes are the bytes of the sequence followed by zeros exactly when the sub-words are bytes, fill the last word, miss one of it, or are all zero in it |
| FixedBytes.PartialShift | libraries/uosiolib/fixed_bytes.hpp:84-87 | the shift of the partial word is the right one exactly in those cases |
| FixedBytes.FullWord | libraries/uosiolib/fixed_bytes.hpp:68-83 | a full word holds its sub-words in order |
| FixedBytes.PartialWord | libraries/uosiolib/fixed_bytes.hpp:84-88 | a partial word shifted by its missing bytes holds its sub-words and then zeros |
| FixedBytes.BytesRoundTrip | libraries/uosiolib/fixed_bytes.hpp:61-89 | for every byte string, the bytes of the packed words are the string and its padding zeros |
| FixedBytes.RoundTrip | libraries/uosiolib/fixed_bytes.hpp:226-250 | building a key from any bytes and extracting them returns them |
| FixedBytes.WordOrder | libraries/uosiolib/fixed_bytes.hpp:317-320 | comparing word arrays is comparing their bytes |
| FixedBytes.KeyOrder | libraries/uosiolib/fixed_bytes.hpp:317-320 | the order of keys built from bytes is the dictionary order of the bytes |
| FixedBytes.ExtractedOrder | libraries/uosiolib/fixed_bytes.hpp:279-346 | comparing any two keys with zero padding is comparing the extracted bytes |
| FixedBytes.PackedFits | libraries/uosiolib/fixed_bytes.hpp:101-109 | a sequence of at most Size bytes fits into the words, and a full one fills them |

## Left out

Contracts stated weaker than the code's whole behaviour:

- BrainFCompiler.BrainF.Parse: does not model 32-bit wrap-around of a run longer than 2^31 commands or a negative tape size; a call to abort() is the result `false`; the text of the LLVM module, register names and the driver program are not modelled.
- BrainFCorrect.CompilerCorrect: an address is an unbounded offset into the tape, so pointer arithmetic that wraps around the address space is not modelled.
- MallocHeap.Memory.ReallocInPlace: shrinking marks a header inside the block's own payload and keeps the block's old size, as the code does; the space is not given back.
- MallocHeap.Memory.Malloc: a wrapped request of a fully carved heap writes its header behind the heap, which is outside the modelled words; after a wrapped request nothing further is stated of that heap.
- MallocManager.MemoryManager.Spill: the copy to a wrapped request is modelled as far as the heap reaches; what it overwrites behind the heap is not.
- MallocManager.MemoryManager.Malloc: memory stays below 2 GiB, so that no address has the allocated bit.
- MallocManager.MemoryManager.NextActiveHeap: where a failed sbrk goes unseen, the code sets up a heap at address 0xFFFFFFFF; the model stops there (`stray`). Nobody else moves the break, so there are never more than two heaps.
- MallocManager.MemoryManager.Free: only live pointers are freed; a pointer inside a block or into no heap is not modelled.
- BumpAllocator.DsMalloc.Alloc: assumes that nobody else grows the memory and that the heap base lies in the memory at the start; the calloc, realloc and free of that file are left out (its realloc does not copy).
- DiceInvariants.RunKeeps: one token; a new account starts with zero of it (in the code its asset starts with symbol 0, and the first `+=` fails the symbol check at libraries/uosiolib/asset.hpp:115). Runs are shorter than 2^32 actions, so that no counter wraps. Authority checks and the transfers that go with deposits and withdrawals are left out.
- DiceOutcomes.ClaimPaysRevealer: needs nonzero sources and a deadline that does not wrap to zero; `DiceOutcomes.ClaimAfterReveal` shows what a zero source does.
- BetDice.Contract.Place: parsing the memo and hashing the seeds become parameters (roll, referrer, bet number), and so does the token balance behind the win limit.
- BetDice.WinWithinLimit: for positive quantities, which a token transfer has; the contract itself lets negative ones through, and `BetDice.NegativeQuantity` shows what follows.
- MultiIndexTable.MultiIndex.Emplace: a row is its primary key, its secondary keys and abstract contents; packing it to bytes, payers, RAM and the 16 compile-time index types (here a count) are left out. Keys are natural numbers, so that floating-point secondary keys and the difference between `memcmp` and equality are not modelled.
- MultiIndexTable.MultiIndex.Modify: after a failed modify, which aborts the whole transaction, only the table is stated to be unchanged; the object is not used again.
- MultiIndexTable.MultiIndex.Erase: whether a caller still holds the erased object is not modelled.
- MultiIndexTable.MultiIndex.constructor: tables that exist already are assumed to be in agreement.
- HostDatabase.Database.Store: the host is modelled by what its comments promise; errors of the host other than a missing or repeated key are left out.
- FloatIntrinsics.F32Ceil: NaN payloads are returned as they are and not compared.
- SerialStream.Datastream.Write: a write that passes the check of the code without fitting, which `SerialStream.WriteCheck` shows to take 2^31 bytes or more, fails here instead of running over the buffer's end.
- SerialStream.Datastream.GetVar: a varint that goes on after five bytes is a failure here; the code shifts on by 35 bits, which is undefined for a 32-bit word, and drops bits.
- SerialRoundTrip.RoundTrip: strings and `vector<char>` are vectors of one-byte integers rather than one block, so a string key compares by unsigned bytes; floating-point values, `T[N]` arrays with their length check, public keys, signatures, symbols and ignored fields are left out.
- FixedBytes.Key.SetFromWordSequence: words beyond the sequence keep what they held, as in the code, which leaves them unset on a fresh object.

Not modelled at all:

- `fixsfti`, `fixtfti` and their unsigned forms: the same shape as the double versions.
- `f64_ceil`, `f64_floor` and the `nearest` functions: they call softfloat, which is not part of this model.
- uosbetdice: `refundbet` behind its early return, `newrandkey`, airdrops, receipts, and solvency, as liabilities do not count potential wins.
- calloc in libraries/uosiolib/malloc.cpp: malloc and a memset.
- Dispatching, printing, the ABI and code generators, the test runner, and the other examples: input and output, text rewriting or thin wrappers.
