# Emulator core: models and proofs

This project models the parts of a Wii U emulator that are plain state and arithmetic once the host's own
libraries are cut away, and proves what they promise. `dafny verify dfyconfig.toml` checks all of it.

## What is modelled

- **JIT against interpreter.** `PowerPc` holds the guest's branches and the reference interpreter, `JitMachine`
  the host code that a branch compiles to, `JitCompiler` block discovery and code generation, `Jit` the
  assembler, the compiler with its entry cache and the outer loop as they update their fields, and
  `JitSimulation` the proof that both engines reach the callback address with the same registers. Every
  instruction that is not a branch is one arbitrary state function shared by both engines, as the JIT's fallback
  calls the interpreter's handler.
- **Expanded heap.** `ExpHeap` keeps the block headers in a map from guest addresses, in which a write of one
  header destroys those it overlaps, with the two sorted, doubly linked lists relinked in place. `HeapTiles` is
  what the lists mean: a row of blocks that tiles the data range.
- **Host heap.** `TeenyHeap` has the unordered free list in which used up blocks stay as empty ones, and the
  recursive merge.
- **R600 tiling.** `Tiling` is the address map of 2D-tiled colour surfaces with its inverse, `TilingNumbers` what
  its bits amount to; `Untile` is the copy of a tiled BC1 or BC3 surface into rows.
- **coreinit synchronisation.** `Mutex` (with condition variables), `MessageQueue` and `SpinLock` are state
  machines over every interleaving. For the first two a step is the code between two points where the scheduler
  lock may be dropped, for the third a single memory access. Sleeping threads may be resumed at any time.
  `IntrusiveQueue` has the doubly linked queues, and the classes in `Mutex` and `MessageQueue` are the steps on
  their real fields. `RunQueue` is the priority queue of fibers.
- **Shader structuring.** `Blockify` builds the tree of blocks, with lists named by their order of creation and
  blocks by list and position, as the code's pointers do. What the tree means is a text with brackets.
- **Tables and index code.** `InstructionTable` (decode trie, `isA`, `encode`), `Loader` (REL24 relocation with
  trampolines), `Crc32` and `Carry` (add and subtract with carry). `Words` has 32-bit arithmetic and
  `Wrappers` the optional value.

## Where the code is right only in part

Each of these is an exact condition, proved in both directions; where a member has further premises they are
named here.

- Compiled `bc` ignores its absolute bit and compiled `bclr` with the link bit jumps to the address it has just
  put in LR: `JitMachine.AgreesExactly`.
- An allocation size close to 2^32 wraps when header and alignment are added, and a block that is too small is
  handed out: `HeapTiles.PayloadFitsExactlyWhen` (for blocks with `t.size + alignment < TWO_32`). An allocation
  from the top that absorbs a small rest adds it to the size of its block without moving the block's start. Through
  a run in which no search from the top goes astray, the heap stays tiled exactly when no handed out block ends
  before its aligned pointer and no such rest is absorbed: `HeapTiles.RunKeepsRowExactlyWhen`, with the inputs
  `HeapTiles.WrappedRequestBreaksRow` and `HeapTiles.AbsorbedRestBreaksRow`.
- Taking the first block off a list leaves the next one linked to it, and a search from the top follows that link
  into memory that is in use. It stays in the free list exactly when the link is missing or a first fit stops it:
  `ExpHeap.SearchStaysExactlyWhen` (for a tiled heap), with the run `HeapTiles.RunLeavesStaleLink`, after which the
  search picks a block in use: `ExpHeap.StaleSearchFindsUsed`.
- Tiling overlaps elements when a group is smaller than an element: `Tiling.BijectionExactlyWhen`.
- The absolute form of a trampoline is used up to 0x03fffffc, but the branch sign-extends from 0x02000000 on:
  `Loader.TrampolineReaches`, `Loader.AbsoluteMisses`. A branch that is already absolute is patched as if it were
  relative: `Loader.PatchedReaches`, `Loader.AbsoluteBranchMisses`. For a whole pass, over sites and symbols at
  word addresses: `Loader.PassArrivesExactlyWhen`, and for relative branches to symbols outside the trampoline
  area `Loader.PassArrives`.
- The host heap takes a block for big enough when alignment passes over its end, as the difference wraps, and an
  entry of size 0 stays when its place is allocated again: `TeenyHeap.AllocTilesExactlyWhen` (sizes and alignments
  below 2^63 together, powers of two), `TeenyHeap.AlignmentPassesBlock`, `TeenyHeap.ShrinkToZeroLosesBytes`. Over
  runs: `TeenyHeap.RunWholeExactlyWhen`.
- An encoded instruction is itself only if its opcodes agree where their fields overlap:
  `InstructionTable.EncodedIsA`, `InstructionTable.OverlapEncodesAnother`.
- Decoding goes past an instruction to the field maps behind it and does not come back. With at most one field map
  at every entry a word is found exactly when it is a definition that no other extends:
  `InstructionTable.Table.Decode` (for any word that does not fork) with `InstructionTable.SingleMapsNoFork`; and
  `InstructionTable.ExtendedIsLost`.
- A spinlock release by a thread that does not hold it is refused only while the lock is not nested. It is safe
  exactly when that thread does not find the recursion word positive: `SpinLock.RunSafeExactlyWhen`, where safe
  means that exclusion holds after an event and after its thread's next two accesses. A whole release that runs
  alone, while no thread is in the lock's code, harms exactly a nested lock: `SpinLock.StrangerHarmsExactlyWhen`;
  `SpinLock.StrangerLeadsToTwoHolders` and, from the free lock, `SpinLock.StrangerBreaksExclusion` end with two
  holders.

## Model

| member | source | states |
|---|---|---|
| JitSimulation.JitSimulatesInterpreter | src/cpu/jit/jit.cpp:392-403 | from the outer loop or inside any cached block, the JIT ends with a result exactly when the interpreter ends with it, with the same registers, LR, CTR and CR, and no lookup of the JIT's own run fails; for images in which `bc` is relative and `bclr` does not link |
| JitMachine.AgreesExactly | src/cpu/jit/jit_branch.cpp:51-122 | a compiled instruction computes what the interpreter computes, for all registers, exactly when it is not an absolute `bc` away from address 0 and not a linking `bclr` |
| JitSimulation.JitSound | src/cpu/jit/jit.cpp:392-403 | a JIT run that ends at the callback address has a matching interpreter run |
| JitSimulation.JitComplete | src/cpu/interpreter/interpreter.cpp:51-86 | when an interpreter run ends at the callback address, the JIT ends there with the same registers or one of its lookups fails |
| JitSimulation.RunInstr | src/cpu/jit/jit.cpp:120-211 | the host code of one instruction, run from its start, leaves the block or stands at the code of the next instruction, with the state the instruction means |
| JitSimulation.NeverFallsThrough | src/cpu/jit/jit.cpp:195-196 | in a block found by discovery no instruction runs into the trailing exit |
| JitSimulation.GetKeepsCache | src/cpu/jit/jit.cpp:332-363 | a lookup leaves only right entries in the cache, caches a failure only for an address that does not compile, and finds an entry for every address that does |
| JitCompiler.IdentClosed | src/cpu/jit/jit.cpp:213-330 | when discovery succeeds away from address wrap the block is not empty, ends in an unconditional return, no non-linking direct branch in it leads to its end or beyond, and the scan is bounded |
| JitCompiler.DiscoveryExactlyWhen | src/cpu/jit/jit.cpp:213-330 | discovery from a word address other than 0 finds the function that ends behind an instruction exactly when that is the first unconditional return behind every non-linking direct jump before it, within 20000 instructions that all have handlers |
| JitCompiler.CompilesExactlyWhen | src/cpu/jit/jit.cpp:332-363 | with such an end the address compiles exactly when the handler of every other instruction up to it succeeds |
| JitCompiler.NoEndNoCode | src/cpu/jit/jit.cpp:213-330 | without such an end it does not compile |
| JitCompiler.PieceAt | src/cpu/jit/jit.cpp:120-211 | the code of every instruction of a block sits at its offset with its fail label bound behind it |
| JitMachine.RunBranch | src/cpu/jit/jit_branch.cpp:24-49 | the host code of `b` lands on the label of the target or leaves with it, with LR set when it links |
| JitMachine.RunBranchCond | src/cpu/jit/jit_branch.cpp:51-122 | the host code of a conditional branch lands where a taken branch goes, and otherwise falls through with CTR decremented when it is checked |
| Jit.Assembler.JitB | src/cpu/jit/jit_branch.cpp:24-49 | the buffer after `jit_b` is the old one followed by the operations of the branch |
| Jit.Assembler.BcGeneric | src/cpu/jit/jit_branch.cpp:51-122 | the buffer after `bcGeneric` is the old one followed by the tests, the link and the jump, with the fail label bound at its end |
| Jit.Compiler.IdentBlock | src/cpu/jit/jit.cpp:213-330 | the scan loops find the block end and the in-block targets, and fail, exactly as the specification `IdentSpec`, whose closure is IdentClosed |
| Jit.Compiler.Gen | src/cpu/jit/jit.cpp:120-211 | generation succeeds when every instruction emits; the entry and the target entries are those of the specified code |
| Jit.Compiler.Get | src/cpu/jit/jit.cpp:332-363 | the cache and the result of a lookup are those of the specification that GetKeepsCache is about |
| Jit.Execute | src/cpu/jit/jit.cpp:392-403 | the outer loop runs the JIT transition system from the given state and cache, to the callback address or to a failed assertion |
| Jit.ExecuteSub | src/cpu/jit/jit.cpp:405-413 | a finished guest call has the registers of an interpreter run that ends at the callback address, and the LR it was called with |
| PowerPc.ThreadState.B | src/cpu/interpreter/interpreter_branch.cpp:4-19 | the handler of `b` makes the state the next state of the reference semantics |
| PowerPc.ThreadState.BcGeneric | src/cpu/interpreter/interpreter_branch.cpp:38-86 | the shared handler of `bc`, `bcctr` and `bclr` makes the state the next state of the reference semantics, which BranchCondInNumbers gives in numbers |
| PowerPc.BranchCondInNumbers | src/cpu/interpreter/interpreter_branch.cpp:38-86 | a taken `bc` goes to its displacement as a signed 16-bit number, added to its own address unless it is absolute, a taken `bcctr` or `bclr` to the word that CTR or LR holds, any other to the next instruction; BO bits 2 and 4 drop the CTR and the CR test, 1 and 3 say what they want; CTR goes down by one, and LR is set, exactly when asked for and for LR when taken |
| PowerPc.BranchInNumbers | src/cpu/interpreter/interpreter_branch.cpp:4-19 | `b` goes to its displacement as a signed 26-bit number, added to its own address unless it is absolute, and sets LR to the next instruction exactly when it links |
| PowerPc.BackwardBranch | src/cpu/interpreter/interpreter_branch.cpp:72-76 | a taken relative `bc` with a displacement field of 0x2000 or more lands 0x10000 less four times the field before itself |
| PowerPc.ThreadState.Execute | src/cpu/interpreter/interpreter.cpp:51-86 | the interpreter loop runs the reference semantics and stays at the callback address; it fails only on a word that does not decode |
| PowerPc.ThreadState.ExecuteSub | src/cpu/interpreter/interpreter.cpp:89-97 | a guest call runs with LR at the callback address and puts LR back |
| HeapTiles.RunKeepsRowExactlyWhen | src/modules/coreinit/coreinit_expheap.cpp:190-347 | over any run of allocations of any 32-bit size, from the bottom or the top, in either fit mode, and frees of live pointers, in which no search from the top follows a stale link of the list head, the blocks tile the data range with no two free blocks touching after every call exactly when no allocation aligned its pointer past the end of the block carved for it or, from the top, added a rest below the minimum block size |
| HeapTiles.StepKeepsRowExactlyWhen | src/modules/coreinit/coreinit_expheap.cpp:190-347 | one call whose search does not follow a stale link keeps the tiling exactly when it is not such an allocation, and a stale link always leads below the first free block |
| HeapTiles.RunKeepsRow | src/modules/coreinit/coreinit_expheap.cpp:203-205 | after any run of bottom allocations whose 32-bit sums do not wrap and frees of live pointers, the blocks tile the data range with no two free blocks touching |
| HeapTiles.WrappedRequestBreaksRow | src/modules/coreinit/coreinit_expheap.cpp:203-205 | a request of 0xffffffec bytes is granted three bytes of the first block, and the heap is no longer tiled |
| HeapTiles.RunFreeingAllRestores | src/modules/coreinit/coreinit_expheap.cpp:308-347 | once everything is freed, in any order, after a run without such allocations and searches, the heap is the single initial free block again and its head has no link |
| HeapTiles.RunLeavesStaleLink | src/modules/coreinit/coreinit_expheap.cpp:48-53 | three allocations from the bottom and a free leave the head of the free list linked to a block in use, and the next nearest-fit search from the top follows that link |
| ExpHeap.SearchStaysExactlyWhen | src/modules/coreinit/coreinit_expheap.cpp:217-257 | on the linked list a search from the top reads free blocks only exactly when the head has no stale link or it is a first-fit search that finds a block |
| ExpHeap.StaleSearchFindsUsed | src/modules/coreinit/coreinit_expheap.cpp:244-257 | in that state the search picks the header of the block in use |
| HeapTiles.TotalsAddUp | src/modules/coreinit/coreinit_expheap.cpp:454-464 | free and used sizes add up to the data range |
| HeapTiles.AllocKeepsRowExactlyWhen | src/modules/coreinit/coreinit_expheap.cpp:265-304 | splitting or absorbing a block keeps the tiling exactly when the aligned pointer does not pass the end of the used block |
| HeapTiles.AllocKeepsRow | src/modules/coreinit/coreinit_expheap.cpp:265-304 | for a sum that does not wrap it keeps the tiling; the returned pointer is aligned and its payload lies in its block |
| HeapTiles.CarveInNumbers | src/modules/coreinit/coreinit_expheap.cpp:265-304 | a bottom allocation asks for its size, 19 bytes and its alignment, returns an aligned pointer from 19 bytes behind the block's start on and below 19 plus the alignment, and leaves a rest of 23 bytes or more free; a smaller one goes with the block |
| HeapTiles.PayloadFitsExactlyWhen | src/modules/coreinit/coreinit_expheap.cpp:203-205 | the block found for a request holds the payload exactly when the 32-bit sum of size, header and alignment does not wrap, for blocks whose size and alignment stay below 2^32 together |
| HeapTiles.AllocTopKeepsRowExactlyWhen | src/modules/coreinit/coreinit_expheap.cpp:282-304 | an allocation from the top keeps the tiling exactly when it takes the whole block or leaves at least the minimum block size, and its pointer does not pass the end of the used block |
| HeapTiles.AllocTopLists | src/modules/coreinit/coreinit_expheap.cpp:282-304 | it moves exactly the carved block to the used list |
| HeapTiles.CarveTopInNumbers | src/modules/coreinit/coreinit_expheap.cpp:282-304 | from the top the block starts that much below the end, the pointer is aligned in the same way, and a rest of up to 22 bytes is added to the size |
| HeapTiles.AbsorbedRestBreaksRow | src/modules/coreinit/coreinit_expheap.cpp:282-291 | 60 bytes from the top of a block of 100 leave a rest of 17 that is added to the size, and the used block ends beyond the heap |
| HeapTiles.FreeKeepsRow | src/modules/coreinit/coreinit_expheap.cpp:308-347 | two-sided coalescing keeps the tiling with no touching free blocks |
| HeapTiles.FreeUseds | src/modules/coreinit/coreinit_expheap.cpp:320-324 | a free takes exactly its own block from the used blocks |
| HeapTiles.CoalesceFrees | src/modules/coreinit/coreinit_expheap.cpp:330-346 | the free list after a free is the old one with the block joined to the neighbours it touches |
| HeapTiles.AllocLists | src/modules/coreinit/coreinit_expheap.cpp:265-304 | an allocation moves exactly the carved block from the free list to the used list |
| HeapTiles.AllocatableIsExact | src/modules/coreinit/coreinit_expheap.cpp:474-501 | a positive reported size can be allocated in both modes, it is at most 994 MB, and below that one byte more cannot be allocated |
| ExpHeap.GuestMemory.InsertBlock | src/modules/coreinit/coreinit_expheap.cpp:64-94 | in-place insertion gives the address-sorted doubly linked list with the block added, and relinks only its nodes |
| ExpHeap.GuestMemory.EraseBlock | src/modules/coreinit/coreinit_expheap.cpp:48-61 | in-place removal gives the doubly linked list without the block, relinks only its nodes, and leaves a new head linked to the block |
| ExpHeap.GuestMemory.ReplaceBlock | src/modules/coreinit/coreinit_expheap.cpp:97-115 | in-place replacement gives the doubly linked list with the new block in the old place |
| ExpHeap.ExpandedHeap.constructor | src/modules/coreinit/coreinit_expheap.cpp:136-158 | a new heap is one free block over its data range |
| ExpHeap.ExpandedHeap.FindFreeBlock | src/modules/coreinit/coreinit_expheap.cpp:207-263 | the search finds the first or the nearest large enough free block as the mode says, or there is none |
| ExpHeap.ExpandedHeap.Alloc | src/modules/coreinit/coreinit_expheap.cpp:190-305 | a bottom allocation that keeps the tiling does to the linked lists and to the link of their head what the row model does, wrapped sum or not, as a step of its runs; null means that no free block is large enough; the pointer is aligned and inside its block, and so is the payload when the sum does not wrap; the header in front of it names the heap's group and the bottom |
| ExpHeap.ExpandedHeap.FindFreeBlockTop | src/modules/coreinit/coreinit_expheap.cpp:217-257 | a search from the top that stays in the list finds the last or the highest nearest large enough free block as the mode says, or there is none |
| ExpHeap.ExpandedHeap.AllocTop | src/modules/coreinit/coreinit_expheap.cpp:190-305 | an allocation from the top whose search stays in the list and that keeps the tiling does to the linked lists and the link of their head what the row model does, as a step of its runs, and the header names the group and the top |
| ExpHeap.ExpandedHeap.Release | src/modules/coreinit/coreinit_expheap.cpp:308-347 | a free of a live pointer on the linked lists does to them and to the link of their head what the row model does; null changes nothing |
| ExpHeap.ExpandedHeap.TotalFreeSize | src/modules/coreinit/coreinit_expheap.cpp:454-464 | the reported free size is the data range less what is used |
| ExpHeap.ExpandedHeap.AllocatableSize | src/modules/coreinit/coreinit_expheap.cpp:474-501 | the reported size is the one that AllocatableIsExact is about |
| ExpHeap.ExpandedHeap.UserWrite | src/modules/coreinit/coreinit_expheap.cpp:296-304 | writes of the program inside its own blocks leave the heap as it is |
| Tiling.BijectionExactlyWhen | src/gpu/mesa_r600_tiling.cpp:179-321 | for surfaces of whole macro tiles, elements have disjoint bytes exactly when an element is no larger than a group, and then they fill the surface exactly |
| Tiling.ElementOfOffset | src/gpu/mesa_r600_tiling.cpp:179-321 | the element can be read back from its offset |
| Tiling.OffsetOfElement | src/gpu/mesa_r600_tiling.cpp:179-321 | every multiple of the element size inside the surface is the offset of the element computed from it |
| Tiling.OffsetInside | src/gpu/mesa_r600_tiling.cpp:306-320 | an element lies inside the surface at a multiple of its size |
| Tiling.StepsInSurface | src/gpu/mesa_r600_tiling.cpp:271-320 | the macro tile offset, the total offset and each term of an element's address are at most the size of the surface, so that below 2 GiB none of them wraps in 32 bits |
| Tiling.DistinctOffsets | src/gpu/mesa_r600_tiling.cpp:179-321 | different elements are at least an element size apart |
| Tiling.SmallGroupOverlaps | src/gpu/mesa_r600_tiling.cpp:313-319 | with a group smaller than an element, elements of neighbouring channels overlap |
| Tiling.OffsetIsInterleave | src/gpu/mesa_r600_tiling.cpp:291-318 | the shifts and masks of the offset spread group numbers over channels and banks |
| Tiling.SeparateInterleave | src/gpu/mesa_r600_tiling.cpp:313-319 | offset, bank and channel can be separated again |
| Tiling.InterleaveSeparate | src/gpu/mesa_r600_tiling.cpp:313-319 | every offset is spread from exactly the parts it separates into |
| Tiling.TileOfMix | src/gpu/mesa_r600_tiling.cpp:224-268 | bank and channel, which BankIs and ChannelIs give in numbers, determine the tile within a macro tile |
| Tiling.MixOfTile | src/gpu/mesa_r600_tiling.cpp:224-268 | the tile computed for a bank and channel has that bank and channel |
| Tiling.PixelOfNumber | src/gpu/mesa_r600_tiling.cpp:45-92 | the micro tile numbering has an inverse |
| Tiling.NumberOfPixel | src/gpu/mesa_r600_tiling.cpp:45-92 | every number below 64 is the number of a pixel |
| TilingNumbers.OffsetInNumbers | src/gpu/mesa_r600_tiling.cpp:179-321 | for every configuration of 2, 4 or 8 channels and 4 or 8 banks the offset of an element is its group number spread over channels and banks, with bank, channel and place in the micro tile given as sums of parities and quotients of the coordinates |
| TilingNumbers.BankIs | src/gpu/mesa_r600_tiling.cpp:244-268 | the bank is made of parities of tile columns and rows of macro tiles, and the term of the bank operation is there only with the bank operation on |
| TilingNumbers.ChannelIs | src/gpu/mesa_r600_tiling.cpp:224-242 | the channel is made of parities of tile columns and tile rows |
| TilingNumbers.PixelIs | src/gpu/mesa_r600_tiling.cpp:45-92 | for each element size, how many of the 64 elements of a micro tile come before the one at a coordinate |
| TilingNumbers.BankOperation | src/gpu/mesa_r600_tiling.cpp:244-268 | the bank operation changes exactly the top bit of the bank, and only in odd columns of macro tiles |
| TilingNumbers.MacroColumnsExactlyWhen | src/gpu/mesa_r600_tiling.cpp:271-320 | the same place a number of macro tile columns further on is that many macro tiles of bytes further on exactly when the number is even, or the bank operation is off and it is not four banks with eight channels |
| TilingNumbers.ColumnOne | src/gpu/latte_tiling.cpp:31-52 | in the configuration that is used, element (32, 0) of a BC1 surface 256 elements wide is at offset 4096 |
| Tiling.RunLog2 | src/gpu/mesa_r600_tiling.cpp:168-176 | the loop computes the floor of the binary logarithm |
| Tiling.Log2IsFloor | src/gpu/mesa_r600_tiling.cpp:168-176 | the logarithm is the exponent of the largest power of two not above its argument |
| Untile.UntileInvertsTile | src/gpu/latte_tiling.cpp:55-62 | untiling an image that stores rows at their tiled offsets gives back the rows byte for byte over the visible elements, and leaves the other bytes |
| Untile.TiledStores | src/gpu/mesa_r600_tiling.cpp:350-365 | the tiled image of rows holds every element at its tiled offset |
| Untile.UntileSurface | src/gpu/latte_tiling.cpp:6-65 | the nested copy loops copy each visible element once, row by row, and then every byte is that of the specified untiled image: the visible elements from their tiled offsets, which UntiledInNumbers gives in numbers, all else as it was |
| Untile.UntiledInNumbers | src/gpu/latte_tiling.cpp:31-62 | every byte of every visible element comes from the offset of the element with 2 channels, 4 banks, groups of 256 bytes and no bank operation, written out in numbers of its coordinates |
| Untile.CopyBytes | src/gpu/latte_tiling.cpp:60-60 | a copy replaces exactly the bytes of its target range |
| Blockify.Shader.Blockify | src/gpu/latte_blockify.cpp:230-341 | for labels that nest, the text of the tree is the structured text that code and labels stand for, and the active list ends at the root |
| Blockify.CodeOrder | src/gpu/latte_blockify.cpp:230-341 | the structured text holds exactly the instructions that are not loop starts, loop ends, elses or eliminated, in code order |
| Blockify.RemainingOnce | src/gpu/latte_blockify.cpp:230-341 | each remaining instruction is listed once, in ascending order |
| Blockify.LoopStarted | src/gpu/latte_blockify.cpp:250-264 | a loop start opens a loop at the end of the text so far |
| Blockify.LoopEnded | src/gpu/latte_blockify.cpp:265-275 | a loop end closes the innermost loop and returns to the list it was in |
| Blockify.ConditionalStarted | src/gpu/latte_blockify.cpp:276-290 | a conditional start opens a conditional on its instruction at the end of the text so far |
| Blockify.ElseStarted | src/gpu/latte_blockify.cpp:291-300 | an else goes on in the second part of the innermost conditional |
| Blockify.ConditionalEnded | src/gpu/latte_blockify.cpp:301-315 | a conditional end closes the innermost conditional, with an empty second part if there was no else |
| Blockify.NewCode | src/gpu/latte_blockify.cpp:327-336 | an instruction without an active code block starts one at the end of the text |
| Blockify.MoreCode | src/gpu/latte_blockify.cpp:336-336 | an instruction joins the active code block at the end of the text |
| Blockify.BeforeSame | src/gpu/latte_blockify.cpp:230-341 | what is in front of the active list does not change while the active list grows |
| Blockify.Shader.Process | src/gpu/latte_blockify.cpp:245-325 | one label adds to the text what the label means, and says whether its instruction is still to be inserted |
| Blockify.Shader.Insert | src/gpu/latte_blockify.cpp:327-336 | an instruction is added to the end of the text |
| Mutex.RunKeeps | src/modules/coreinit/coreinit_mutex.cpp:36-114 | over every interleaving a mutex has an owner exactly when its count is positive and is on exactly its owner's queue |
| Mutex.StepKeeps | src/modules/coreinit/coreinit_mutex.cpp:36-153 | every step keeps that; an assertion fails exactly when a thread unlocks or waits with a mutex it does not own |
| Mutex.UnlockKeeps | src/modules/coreinit/coreinit_mutex.cpp:96-114 | unlocking fails exactly for a thread that is not the owner, and the erased mutex is always on the queue |
| Mutex.OnlyOwnerChanges | src/modules/coreinit/coreinit_mutex.cpp:36-153 | no step of another thread changes a mutex that is held |
| Mutex.HeldThroughRun | src/modules/coreinit/coreinit_mutex.cpp:36-153 | what a thread holds stays held with the same count through any run in which it takes no step |
| Mutex.NestingRun | src/modules/coreinit/coreinit_mutex.cpp:36-153 | over every run the nesting of a thread in a mutex is its locks less its unlocks, condition waits changing nothing, and at zero the thread does not own it |
| Mutex.NestingStep | src/modules/coreinit/coreinit_mutex.cpp:36-153 | a step changes the nesting of any thread by exactly the lock and unlock calls that finish in it |
| Mutex.LockGivenExactlyWhen | src/modules/coreinit/coreinit_mutex.cpp:36-58 | a lock is given, with the count one up, exactly when the mutex has no owner or the caller is its owner; any other call goes to sleep and changes no mutex |
| Mutex.TryLockAnswers | src/modules/coreinit/coreinit_mutex.cpp:61-84 | a try answers true exactly when the mutex has no owner or the caller is its owner, exactly when the nesting of the caller has gone up by one, and changes nothing when it answers false |
| Mutex.WaitEndsExactlyWhen | src/modules/coreinit/coreinit_mutex.cpp:42-58 | a sleeper that is resumed, in a lock call or a condition wait, leaves the operation with the mutex, at count 1 or at the count it had, exactly when the mutex has no owner; otherwise no mutex changes |
| Mutex.HandedOver | src/modules/coreinit/coreinit_mutex.cpp:36-109 | a run in which a mutex goes from its owner to a thread that sleeps on it |
| Mutex.WaitCondRestores | src/modules/coreinit/coreinit_mutex.cpp:130-153 | a condition wait returns with the caller as owner and the recursion count it was entered with, whatever ran in between |
| Mutex.ExitedOwnerForever | src/modules/coreinit/coreinit_mutex.cpp:27-34 | a thread cancelled while it owns a mutex owns it in every later state |
| Mutex.Kernel.TakeMutex | src/modules/coreinit/coreinit_mutex.cpp:53-58 | taking a mutex on the linked queues is the taking step of the state machine |
| Mutex.Kernel.LockMutex | src/modules/coreinit/coreinit_mutex.cpp:42-58 | one test of the wait loop: it is left with the mutex exactly when the mutex has no owner or the caller is its owner, and else the thread sleeps |
| Mutex.Kernel.ResumeLock | src/modules/coreinit/coreinit_mutex.cpp:42-50 | a turn of the wait loop after a sleep, with the waited-for mutex forgotten and tested again, is the resuming step of the state machine |
| Mutex.Kernel.ResumeRelock | src/modules/coreinit/coreinit_mutex.cpp:148-150 | a turn of the wait loop of a relock is that step too |
| Mutex.Kernel.TryLockMutex | src/modules/coreinit/coreinit_mutex.cpp:61-84 | the answer is true exactly when the old owner is none or the caller, and exactly when the caller's nesting has gone up by one; then owner and count are the caller and one more, otherwise nothing has changed |
| Mutex.Kernel.UnlockMutex | src/modules/coreinit/coreinit_mutex.cpp:96-109 | unlocking on the linked queues is the unlocking step of the state machine |
| Mutex.Kernel.WaitCondUnlock | src/modules/coreinit/coreinit_mutex.cpp:139-142 | the forced unlock of a condition wait gives the mutex up whatever its count, and returns the count |
| Mutex.Kernel.WaitCondRelock | src/modules/coreinit/coreinit_mutex.cpp:148-150 | the relock of a condition wait sleeps, or restores owner and count |
| Mutex.Kernel.SleepOnCond | src/modules/coreinit/coreinit_mutex.cpp:144-146 | going to sleep on the condition is the step of the state machine |
| Mutex.Kernel.ResumeCond | src/modules/coreinit/coreinit_mutex.cpp:148-150 | so is waking from the condition and relocking |
| Mutex.Kernel.Exit | src/modules/coreinit/coreinit_mutex.cpp:27-34 | and exiting, which leaves the mutex queue as it is |
| IntrusiveQueue.Queue.Append | src/modules/coreinit/coreinit_queue.h:54-68 | the queue gets the item at its back |
| IntrusiveQueue.Queue.Erase | src/modules/coreinit/coreinit_queue.h:72-98 | the queue loses exactly the item, at the head, the tail or in the middle |
| IntrusiveQueue.Queue.PopFront | src/modules/coreinit/coreinit_queue.h:102-120 | the first item is returned and taken off; an empty queue gives null |
| IntrusiveQueue.Queue.Clear | src/modules/coreinit/coreinit_queue.h:37-50 | the queue is empty and every item is unlinked and names no queue |
| MessageQueue.RunConserves | src/modules/coreinit/coreinit_messagequeue.cpp:33-135 | over every interleaving each accepted message is queued as it was accepted or was delivered as it was accepted, never both and never twice, and the ring stays in bounds |
| MessageQueue.FirstInFirstOut | src/modules/coreinit/coreinit_messagequeue.cpp:33-135 | without jams the deliveries followed by the queue are the accepted messages in order |
| MessageQueue.SendsExactlyWhen | src/modules/coreinit/coreinit_messagequeue.cpp:34-102 | a send or jam that begins or goes on is accepted, at the back or at the front, exactly when there is room, and otherwise changes nothing but that a blocking caller sleeps |
| MessageQueue.ReceivesExactlyWhen | src/modules/coreinit/coreinit_messagequeue.cpp:105-135 | a receive delivers and removes the first message exactly when there is one, and otherwise changes nothing but that a blocking caller sleeps |
| MessageQueue.SendAppends | src/modules/coreinit/coreinit_messagequeue.cpp:52-56 | sending appends to the queued messages |
| MessageQueue.JamPrepends | src/modules/coreinit/coreinit_messagequeue.cpp:85-94 | jamming prepends to the queued messages |
| MessageQueue.DropTakesFirst | src/modules/coreinit/coreinit_messagequeue.cpp:123-127 | receiving reads and removes the first message |
| MessageQueue.OSMessageQueue.SendMessage | src/modules/coreinit/coreinit_messagequeue.cpp:34-64 | accepted when there is room, else asleep when blocking and refused otherwise; the contents change only when accepted |
| MessageQueue.OSMessageQueue.JamMessage | src/modules/coreinit/coreinit_messagequeue.cpp:67-102 | the same at the front |
| MessageQueue.OSMessageQueue.ReceiveMessage | src/modules/coreinit/coreinit_messagequeue.cpp:105-135 | delivers and removes the first message, else asleep when blocking and refused otherwise |
| MessageQueue.OSMessageQueue.PeekMessage | src/modules/coreinit/coreinit_messagequeue.cpp:138-154 | shows the first message and changes nothing |
| Loader.PassArrivesExactlyWhen | src/loader.cpp:473-567 | after a successful pass every site, relative or absolute, arrives at its symbol, with LR as its lk bit says, exactly when it lands on the symbol or on a trampoline that jumps there; an absolute branch lands on its displacement |
| Loader.PassArrives | src/loader.cpp:473-567 | for relative branches to symbols outside the trampoline area that is exactly when the symbol is in reach of the site, in relative range of its trampoline, or below 0x02000000 |
| Loader.RelocatedArrives | src/loader.cpp:514-536 | the interpreter arrives from one relocated relative branch at its symbol under that condition, when the symbol is not itself a trampoline |
| Loader.AbsoluteMisses | src/loader.cpp:196-205 | a trampoline at 0x08000000 to 0x02000000 jumps to 0xfe000000 |
| Loader.AbsoluteBranchMisses | src/loader.cpp:534-534 | an absolute branch patched to reach 0x2000 from 0x1000 jumps to 0x1000 |
| Loader.TrampolineReaches | src/loader.cpp:188-205 | a trampoline arrives exactly when its target is in relative range or below 0x02000000 |
| Loader.PatchedReaches | src/loader.cpp:534-534 | a patched branch in range reaches its target exactly when it is relative or sits at address 0 |
| Loader.PatchedFields | src/loader.cpp:534-534 | patching sets the displacement field and leaves opcode, aa and lk |
| Loader.RelocationPass.GetTrampAddress | src/loader.cpp:174-214 | an earlier trampoline of the target, or the next word when there is room for one and the target is less than 0x1fffffc away or below 0x3fffffc; otherwise it fails; at most the one trampoline is new and every trampoline keeps its word |
| Loader.RelocationPass.Relocate | src/loader.cpp:514-536 | succeeds exactly for a `b` whose symbol, or whose symbol's trampoline, is at most 0x1fffffc bytes away; the site is patched to the symbol if that is in reach, without a new trampoline, and else to the trampoline, and nothing outside the site and new trampolines changes |
| Loader.RelocationPass.ProcessRelocations | src/loader.cpp:473-567 | after a list of separate sites each of them is relocated, or all up to one that cannot be; no trampoline was overwritten and all other words are as before |
| Loader.SequentialMemoryTracker.Get | src/loader.cpp:44-59 | memory is handed out at the next address aligned to a power of two, or refused when there is no room |
| TeenyHeap.RunConserves | src/teenyheap.h:21-120 | with alignments that are powers of two and divide one unit, after any run of allocations, frees and shrinking reallocations of positive multiples of it the live allocations and free blocks are disjoint and cover the buffer, no free blocks touch, and when all is freed one block is left |
| TeenyHeap.AllocTilesExactlyWhen | src/teenyheap.h:21-59 | an allocation aligned to a power of two keeps the tiling exactly when alignment does not carry it past the end of the block it is taken from and no entry of size 0 is left at its place; one of size 0, exactly when its block starts aligned |
| TeenyHeap.FreeWholeExactlyWhen | src/teenyheap.h:89-99 | a free keeps the tiling exactly when its entry has bytes or its place is strictly inside no free block and no allocation |
| TeenyHeap.ShrinkWhole | src/teenyheap.h:61-87 | a shrinking reallocation keeps the tiling, to size 0 as well |
| TeenyHeap.RunWholeExactlyWhen | src/teenyheap.h:21-120 | over any run with sizes of any kind and power-of-two alignments of any kind the live allocations and free blocks are disjoint and cover the buffer after every call exactly when every call meets its condition |
| TeenyHeap.NoneLeft | src/teenyheap.h:21-120 | when no allocation with bytes is left the free list is one block again |
| TeenyHeap.AlignmentPassesBlock | src/teenyheap.h:27-43 | four bytes aligned to 8 are taken from the block of bytes 4 and 5, which is left starting behind its end |
| TeenyHeap.ShrinkToZeroLosesBytes | src/teenyheap.h:80-84 | after a reallocation to size 0 the next allocation at the same place keeps the size 0, and its bytes are neither free nor used |
| TeenyHeap.AllocOnUnit | src/teenyheap.h:21-59 | with one alignment unit no allocation passes over its block |
| TeenyHeap.BigEnoughExactly | src/teenyheap.h:27-27 | the unsigned comparison means what it says only for a block that the aligned start does not pass over |
| TeenyHeap.NeverErased | src/teenyheap.h:44-45 | the test for a used up block never holds for a positive size, so that an empty block stays |
| TeenyHeap.ReleaseKeeps | src/teenyheap.h:106-120 | releasing adds exactly the block's bytes and leaves no two free blocks touching |
| TeenyHeap.FreeTiles | src/teenyheap.h:89-99 | a free gives exactly its bytes back |
| TeenyHeap.ShrinkTiles | src/teenyheap.h:61-87 | a shrinking reallocation gives exactly the cut off bytes back |
| TeenyHeap.AllFree | src/teenyheap.h:21-120 | with nothing allocated the free list is one block, the whole buffer |
| TeenyHeap.TeenyHeap.Alloc | src/teenyheap.h:21-59 | null exactly when no block passes the test; otherwise the aligned start of the first that does, and the heap stays tiled exactly under the condition above |
| TeenyHeap.TeenyHeap.Realloc | src/teenyheap.h:61-87 | asserts a live pointer, a size that does not grow and matching alignment; the tiling is kept, for size 0 too |
| TeenyHeap.TeenyHeap.Free | src/teenyheap.h:89-99 | asserts a live pointer; the tiling is kept exactly under the condition above |
| TeenyHeap.TeenyHeap.ReleaseBlock | src/teenyheap.h:106-120 | the loop with its recursive merge ends and computes the release that ReleaseKeeps is about |
| RunQueue.RunFromInitial | src/processor.cpp:216-226 | from the empty queue on, while no queued priority changes, the queue is sorted by priority and by arrival among equals over every run |
| RunQueue.RunValid | src/processor.cpp:216-226 | every run keeps the queue sorted from any sorted queue on |
| RunQueue.QueuedSorted | src/processor.cpp:216-226 | queueing puts the newcomer behind its equals and keeps the others |
| RunQueue.PickIsBest | src/processor.cpp:262-281 | the pick comes before every other eligible fiber, by priority and then by arrival |
| RunQueue.DispatchEntersBest | src/processor.cpp:97-105 | a dispatch enters a fiber that may run on the core, with the lowest priority number of those that may and the earliest of those with that number, and leaves no copy of it queued |
| RunQueue.EntersExactlyWhen | src/processor.cpp:97-105 | a core enters a fiber exactly when a queued one is ready, not suspended and has the core in its affinity; otherwise nothing changes |
| RunQueue.LeavesExactlyWhen | src/processor.cpp:137-154 | a core leaves its fiber exactly when its thread is suspended or not running, or a queued fiber that is ready, not suspended and has the core in its affinity has a lower priority number, for a yield one at most as high; otherwise nothing changes |
| RunQueue.LeavingQueues | src/processor.cpp:156-162 | a fiber that is left is queued once more, ready if it was running, and no other fiber changes |
| RunQueue.RescheduleValid | src/processor.cpp:123-179 | rescheduling keeps the queue sorted |
| RunQueue.Processor.QueueNoLock | src/processor.cpp:216-226 | the insertion point found by bisection is the specified one |
| RunQueue.Processor.PeekNextFiberNoLock | src/processor.cpp:262-281 | the loop finds the specified pick |
| RunQueue.Processor.EnterNextFiber | src/processor.cpp:97-105 | the dispatch step on the fiber vector is the specified one, and a fiber is entered exactly under the condition of EntersExactlyWhen |
| RunQueue.Processor.Reschedule | src/processor.cpp:123-168 | the core leaves exactly under the condition of LeavesExactlyWhen, with its fiber queued once more; otherwise nothing changes |
| SpinLock.RunSafeExactlyWhen | src/modules/coreinit/coreinit_spinlock.cpp:8-79 | over every interleaving of single accesses, each event and its thread's next two accesses keep exclusion exactly when no thread that does not hold the lock finds the recursion word positive in a release, and then exclusion holds at the end |
| SpinLock.SafeExactlyWhen | src/modules/coreinit/coreinit_spinlock.cpp:8-79 | the same for one event in any state such a run reaches |
| SpinLock.HarmBreaks | src/modules/coreinit/coreinit_spinlock.cpp:70-72 | after such a look at the recursion word the same thread's next two accesses always break exclusion |
| SpinLock.NextSteady | src/modules/coreinit/coreinit_spinlock.cpp:8-79 | every other access of every thread keeps the invariant |
| SpinLock.OneHolder | src/modules/coreinit/coreinit_spinlock.cpp:8-79 | in a run without such an access at most one thread holds the lock, `owner` is the holder and `recursion` its nesting depth less one |
| SpinLock.HeldThroughRun | src/modules/coreinit/coreinit_spinlock.cpp:8-79 | accesses of others leave a holder its lock and its depth |
| SpinLock.StrangerHarmsExactlyWhen | src/modules/coreinit/coreinit_spinlock.cpp:70-79 | a release that runs alone by a thread that does not hold the lock changes nothing when the holder has not nested, and breaks exclusion when it has |
| SpinLock.StrangerLeadsToTwoHolders | src/modules/coreinit/coreinit_spinlock.cpp:70-79 | when no thread is in the lock's code, harmless releases and a lock call lead from there to two holders |
| SpinLock.StrangerBreaksExclusion | src/modules/coreinit/coreinit_spinlock.cpp:70-79 | two threads get there from the free lock |
| InstructionTable.Table.Decode | src/cpu/instructiontable.cpp:140-162 | decoding ends where the word's path ends and returns what is there; a definition it returns matches the word and is extended by no other; in a trie with all definitions and for a word that does not fork it finds one exactly when the word is such a definition, and then every such definition has the same opcodes |
| InstructionTable.SingleMapsNoFork | src/cpu/instructiontable.cpp:140-162 | with at most one field map at every entry of a trie with all definitions no word forks |
| InstructionTable.ExtendedIsLost | src/cpu/instructiontable.cpp:153-158 | a word that is a definition which another one extends, and not the longer one, is found by neither |
| InstructionTable.EncodedIsHit | src/cpu/instructiontable.cpp:215-230 | an instruction encoded from disjoint fields that no other extends is one that decode finds |
| InstructionTable.EncodedIsA | src/cpu/instructiontable.cpp:196-230 | an encoded instruction matches its definition exactly when no opcode sets a bit in another's field that the other leaves clear |
| InstructionTable.OverlapEncodesAnother | src/cpu/instructiontable.cpp:215-230 | two overlapping opcodes encode to a word that is not the instruction |
| InstructionTable.DisjointAgree | src/cpu/instructiontable.cpp:196-230 | with disjoint opcode fields an encoded instruction matches its definition |
| InstructionTable.TableAdded | src/cpu/instructiontable.cpp:23-32 | a new field map keeps every entry at the end of its opcode path |
| InstructionTable.InstructionAdded | src/cpu/instructiontable.cpp:15-21 | an instruction stored at the end of its own opcodes keeps that |
| InstructionTable.PathMatches | src/cpu/instructiontable.cpp:147-156 | following a field's value keeps the path matched by the word |
| InstructionTable.Table.InitTable | src/cpu/instructiontable.cpp:240-260 | building the trie from the definitions keeps every instruction at the end of its opcode path, and then following the opcodes of any definition leads to an instruction |
| InstructionTable.Table.AddInstruction | src/cpu/instructiontable.cpp:243-259 | following the definition's opcodes leads to an instruction, and no entry loses its instruction or a field map |
| InstructionTable.Encode | src/cpu/instructiontable.cpp:215-230 | the loop or-s the shifted opcode values |
| InstructionTable.MatchesByBits | src/cpu/instructiontable.cpp:196-212 | masking and shifting compares exactly the bits of the field |
| Crc32.Crc32 | src/crc32.cpp:91-100 | the table-driven loop computes bit-serial division of the message, lowest bit first, by 0xedb88320 from a register of ones, complemented |
| Crc32.CrcContinues | src/crc32.cpp:91-100 | the CRC of a concatenation continues from the complement of the first part's |
| Crc32.CheckValue | src/crc32.cpp:91-100 | the CRC of the digits from 1 to 9 is 0xcbf43926 |
| Crc32.TableDivides | src/crc32.cpp:45-89 | each of the 256 table entries is eight places of division of its index |
| Crc32.TableStepDivides | src/crc32.cpp:96-97 | one table step divides by the eight bits of a byte |
| Crc32.Shift8Linear | src/crc32.cpp:96-97 | division distributes over exclusive or |
| Crc32.DivideAppend | src/crc32.cpp:91-100 | dividing a concatenation divides by one part and then the other |
| Carry.AddChain | src/cpu/interpreter/interpreter_integer.cpp:131-141 | for every word count and whatever else happens between the instructions, addc and then adde compute the sum of the words they read modulo the radix, with CA the carry out, as long as nothing but the chain changes CA |
| Carry.SubtractChain | src/cpu/interpreter/interpreter_integer.cpp:754-764 | in the same way, subfc and then subfe compute the difference modulo the radix, with CA meaning no borrow |
| Carry.RunIsChain | src/cpu/interpreter/interpreter_integer.cpp:58-123 | instructions run one after another are such a chain, whatever registers they use |
| Carry.AddInRegisters | src/cpu/interpreter/interpreter_integer.cpp:131-141 | numbers held in separate registers are added in place of the target registers, with CA the carry out |
| Carry.SubtractInRegisters | src/cpu/interpreter/interpreter_integer.cpp:754-764 | and subtracted, with CA meaning no borrow |
| Carry.ChainAdds | src/cpu/interpreter/interpreter_integer.cpp:131-141 | a chain of extended instructions of any length adds its numbers and the carry into it |
| Carry.CarryTest | src/cpu/interpreter/interpreter_integer.cpp:104-104 | the comparison of result and operands is the carry out of the word, with or without a carry in |
| Carry.OverflowTest | src/cpu/interpreter/interpreter_integer.cpp:105-105 | the top bit of the exclusive ors is signed overflow, with or without a carry in |
| Carry.IntegerState.AddGeneric | src/cpu/interpreter/interpreter_integer.cpp:58-123 | every instance leaves the sum in rD, CA when it left the word, OV and SO when it left the signed range, and CR0 of the result |
| Carry.AddAndSubtractInNumbers | src/cpu/interpreter/interpreter_integer.cpp:126-129 | add and subf leave sum and difference modulo 2^32, do not change CA, and with oe set OV exactly when the signed result leaves the signed range |
| Carry.ImmediatesInNumbers | src/cpu/interpreter/interpreter_integer.cpp:143-165 | the forms with an immediate operand add it, or subtract from it, as a signed 16-bit number, addis 65536 times that, addi and addis to 0 for register 0, and CA is set by addic, addic. and subfic only |
| Carry.ConstantsInNumbers | src/cpu/interpreter/interpreter_integer.cpp:167-177 | addze, addme, subfze and subfme in numbers, with CA |
| Carry.RecordInNumbers | src/cpu/interpreter/interpreter_integer.cpp:8-27 | CR0 is 8 for a negative result, 4 for a positive one and 2 for zero, with 1 for SO; it changes only when recorded, OV and SO only with oe, and an overflow stays in SO |
| Carry.FirstIsExtended | src/cpu/interpreter/interpreter_integer.cpp:131-141 | addc is adde with no carry in, subfc is subfe with a carry in |

## Left out

- Jit.Execute: takes a bound on the number of steps, because a guest program need not end; the theorems about
  JIT and interpreter quantify over runs of every length.
- Jit.ExecuteSub: has the same bound.
- PowerPc.ThreadState.Execute: takes a bound on the number of instructions, for the same reason.
- PowerPc.ThreadState.ExecuteSub: has the same bound.
- JitSimulation.JitSimulatesInterpreter: is for images with relative `bc` and non-linking `bclr`, in which the
  addresses 0, 0xfffffffc and CALLBACK_ADDR hold no instruction and that do not change while they run;
  `JitMachine.AgreesExactly` shows why the branch forms are excluded.
- HeapTiles.RunKeepsRowExactlyWhen: says nothing of what follows a search from the top that has left the free list.
- ExpHeap.ExpandedHeap.Alloc: is for alignments that are powers of two and requests that do not break the tiling;
  the memory after one that does is not modelled.
- ExpHeap.ExpandedHeap.AllocTop: is for such requests too, and for searches that stay in the free list.
- `MEMResizeForMBlockExpHeap` and `MEMAdjustExpHeap`, and alignments of 0.
- Tiling.BijectionExactlyWhen: is over unbounded integers; `Tiling.StepsInSurface` shows that the 32-bit steps do
  not wrap for surfaces below 2 GiB, and larger ones are not modelled.
- Untile.UntileSurface: takes a surface padded to whole macro tiles, and only the formats and the tile mode that
  do not trap.
- Blockify.Shader.Blockify: takes labels in code order, one per instruction, with linked pairs that nest;
  `labelify`, which sorts them with an unstable sort, is not modelled.
- Mutex.RunKeeps: counts are unbounded, so that a recursion deeper than a 32-bit count is not modelled.
- MessageQueue.RunConserves: messages are taken as they are when they are copied in; what their words mean, and
  sizes beyond the address space, are not modelled.
- Loader.RelocationPass.ProcessRelocations: starts from site and symbol addresses; sections, the other relocation
  types and unimplemented imports are not modelled. Sites are separate from each other and from the trampolines.
- TeenyHeap.RunConserves: is for positive sizes; `TeenyHeap.RunWholeExactlyWhen` is for all.
- TeenyHeap.TeenyHeap.Alloc: is for alignments that are powers of two, as masking bits off does not align to
  anything else.
- TeenyHeap.TeenyHeap.Realloc: is for such alignments.
- Loader.SequentialMemoryTracker.Get: is for such alignments; a section that names another is not modelled.
- RunQueue.RunValid: is about runs in which the priority of a queued thread does not change; std::upper_bound is
  not specified for a queue that is no longer sorted.
- SpinLock.RunSafeExactlyWhen: no thread nests deeper than the recursion word counts, atomics are sequentially
  consistent, and callers without a thread, for whom nothing is locked, are not modelled.
- InstructionTable.Table.Decode: which definition is found, if any, is not stated for a word that goes along with
  two definitions which part at different fields; aliases are not modelled.
- Mutex, message queue and spinlock: liveness and fairness of waiters; the thread queues that waiters sleep on.
- Interrupts, tracing and debugger breakpoints in the interpreter loop, and the JIT's single-instruction mode.
- Host code of instructions other than branches, and the assembler library.
- The field and opcode tables; the trie is over arbitrary ones.
- 1D tiling, depth and stencil surfaces.
- Fiber creation and destruction, host-thread races at a fiber switch, alarms, events, semaphores, frame heap.
