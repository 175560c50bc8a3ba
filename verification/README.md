# Verified model of the SWPP optimising back end

The repository compiles LLVM IR to a small register machine: sixteen 64-bit registers, a stack below address 10240, a
heap from 20480 on, and an interpreter that defines what every instruction does and costs. This project models five
parts of it and proves what each is for.

| files | part |
|---|---|
| `Words`, `Interp`, `Arithmetic`, `Casts` | words, bitwise operators, the interpreter's arithmetic and cost table, the emitted cast sequences |
| `RegisterAllocation`, `Programs`, `Simulation`, `Tracking`, `UseQueues`, `AllocationFacts`, `BlockState`, `BlockExit`, `FinalUseAnalysis`, `Backend`, `Depromotion`, `TypedValues` | block-level register allocation, spilling and phi lowering, and narrow sign extensions |
| `Bytes`, `Heap`, `HeapCalls`, `MemoryMachine` | the interpreter's memory: bytes, first-fit heap, head position |
| `Ir`, `Scheduling`, `Reordering`, `Clashes`, `ClashingBlocks`, `ResetPointers` | the two passes that follow the head of the memory: instruction scheduling and head resets |
| `Packing`, `PackingInfos`, `WeirdArithmetics`, `HybridAllocation` | argument packing, strength reduction, guarded stack allocation |

Costs are exact integers in units of PER_BYTE = 0.0004, so RESET and STACK are 5000, HEAP is 10000, and one byte of
head movement is 1.

## Main results

- **Depromotion.** `Depromotion.Depromote` translates every block of an SSA function and returns a program that, in every
  environment and after any number of blocks, produces the same events, errors, branch decisions and return value as
  the SSA function. The environment is arbitrary: a function from the history of loads, stores and calls to the next
  answer or a runtime error. Phis of a block are assigned simultaneously in the source meaning, so cyclic phis of a loop
  header are covered.
- **Heap.** After any sequence of calls the blocks partition the heap and the counters are right; malloc succeeds
  exactly when a long enough unallocated run exists and takes the lowest; giving everything back in any order restores
  the initial free block. Free blocks never touch; an exact fit leaves an empty one behind, which the invariant allows.
- **Scheduling.** The scheduling loop terminates, emits every instruction once, keeps every dependency and the leading
  phis, changes from one region to the other only when nothing outside that region is ready, and otherwise takes the
  first instruction that is; there is only one such order (`Scheduling.OnlyOneSchedule`). If accesses classified
  as stack touch only bytes of stack objects, and accesses classified as heap and blocks of malloc touch none of them,
  the reordered block ends in the same registers, memory, live blocks, stack pointer and call trace, for every meaning of
  calls and pure operations, unless it exchanges two instructions that clash. Global variables count as heap wherever
  the back end puts them. Which pairs clash is known exactly (`Clashes.CommuteIff`).
- **Head resets.** The inserted resets change nothing but the head, and each saves at least 5240 units; the bound is
  attained.
- **Packing.** Greedy packing places every argument once, packs come first, and the callee recovers every argument
  while no multiplication overflows.
- **Strength reduction, casts and hybrid allocation**, each with the exact condition under which it is right.

## Where the code falls short of its intent

Each point has an input on which it happens and the condition under which it cannot.

- Scheduling orders an access it cannot classify with a later access only if that is unclassified too, and a malloc,
  free or alloca_bytes with nothing but its operands and users. Of the pairs left unordered, exactly the clashing ones fail
  to commute in some rightly classified state (`Clashes.CommuteIff`): an unclassified access before a classified one;
  malloc or free beside a call, a malloc, or an access not known to be on the stack; alloca_bytes beside itself or a call.
  Two frees commute. On `StoreBlock` every schedule moves a stack load in front of the store it should read
  (`ClashingBlocks.UnclassifiedStoreIsPassed`), because blocking looks through the load of the pointer and the dependency
  test does not; on `FreeingBlock` every schedule moves a free in front of a load of its block (`FreeIsMovedUp`). A block in
  which a chain of dependencies links every clashing pair, which can be seen before the pass, is safe
  (`Reordering.LinkedKeeps` with `ReorderKeepsRun`).
- `and x, N` with x a `shl`: when filling the low mask bits gives a mask with every bit of the type, the rewrite emits a
  remainder by zero. `WeirdArithmetics.RewriteKeepsValueIff` shows this is the only such case, `RewrittenRunIff` the same
  for a whole block, and `FullMaskTraps` gives the input `(x << 4) & 0xF0` on bytes. The default pipeline runs
  InstCombine first, which folds such masks (src/core/main.cpp:201-202), so the pass meets them only without it.
- The guard in front of a stack allocation admits sizes above sp + 2^63 because the subtraction wraps (`StackGuardIff`).
  The allocation keeps live blocks apart and the stack's reserve if and only if the size does not wrap
  (`HybridAllocation.AllocKeepsIff`); with 2^64 - 8 bytes, which malloc refuses, the stack pointer ends at 10248
  (`WrappedSizeIsAdmitted`).
- The guard `ptr >= 10240` in front of a converted free is a signed comparison, so a heap block at 2^63 or above is not
  given back (`HeapGuardIff`, `HighBlockIsKept`). As long as the requests of a run add up to at most 2^63 - 20480 bytes,
  the guard is right for every live block (`HybridAllocation.ModestRunsRelease`). More than that is possible only in
  the interpreter's address arithmetic: it takes blocks no host's calloc grants.
- The sign extension of a bw-bit value to fewer than 64 bits leaves the upper bits set: the result is a zero-extended
  w-bit value only if w is 64 or the sign bit is clear (`Casts.SExtCanonicalIff`). `Depromotion` takes `sext` as
  extension to the whole register, which is what the code does. Against the typed meaning, an instruction agrees if and
  only if its sign extension fits (`TypedValues.FitsIff`), runs whose sign extensions all fit are refined
  (`TypedRefines`), and extending the byte 0xFF to 32 bits returns 64 ones (`NarrowSExtDiffers`).
- A call does not protect its operands while they are fetched. With all registers taken, fetching one operand takes the
  register of another if and only if that one is the root of the active heap, for instance because it is next used last
  of all (`RegisterAllocation.FetchUnprotected`); on `OperandOverwritten` both operands of a call end up in the same
  register. It cannot happen in a block in which at most sixteen values occur: `Depromotion.Depromote` covers calls with any
  number of operands there (`Programs.FewValues`).

## Model

| member | source | states |
|---|---|---|
| Words.BitwiseSplit | interpreter/src/stmt.cpp:286-294 | and, or and xor of words work separately on the bits above and below any position |
| Words.LowMaskTest | src/passes/WeirdArithmetic.cpp:31-34 | `(n & (n + 1)) == 0` holds exactly for the masks 2^k - 1 |
| Words.AndFilledMask | src/passes/WeirdArithmetic.cpp:25-30 | filling the low k mask bits does not change the `and` of an operand that is a multiple of 2^k |
| Arithmetic.UnsignedComparisons | interpreter/src/stmt.cpp:232-356 | eq, ne, ult, ule, ugt and uge compare the low bits as unsigned numbers |
| Arithmetic.SignedComparisons | interpreter/src/stmt.cpp:232-356 | slt, sle, sgt and sge compare the low bits as two's-complement numbers |
| Arithmetic.SumsAndProducts | interpreter/src/stmt.cpp:232-356 | add, sub and mul are sum, difference and product of whole words modulo 2^w |
| Arithmetic.UnsignedDivision | interpreter/src/stmt.cpp:232-356 | udiv and urem are quotient and remainder of the low bits, a division by zero traps |
| Arithmetic.SignedDivision | interpreter/src/stmt.cpp:232-356 | sdiv and srem truncate towards zero, the remainder has the sign of the dividend |
| Arithmetic.Shifts | interpreter/src/stmt.cpp:232-356 | shl multiplies, lshr and ashr divide the unsigned or signed value by 2 to the amount modulo the width |
| Arithmetic.BitwiseOperations | interpreter/src/stmt.cpp:286-294 | and, or and xor of the low bits |
| Arithmetic.BitByBit | interpreter/src/stmt.cpp:286-294 | each bit of the result is both, either or exactly one of the operands' bits |
| Casts.SExtCodeExtends | src/core/Backend.cpp:572-583 | for every register content, mul by 2^(64-bw) then ashr by 64-bw is two's-complement extension of the low bw bits |
| Casts.OldSExtAgrees | src/test/SimpleBackend.cpp:443-455 | the older and/sub/or sequence gives the same result on every zero-extended input |
| Casts.TruncIsURem | src/core/Backend.cpp:591-597 | urem by 2^w keeps exactly the low w bits, as the older and-mask does |
| Casts.CopyIsIdentity | src/core/Backend.cpp:584-590 | the emitted `mul x, 1` copies a register unchanged |
| Casts.SExtCanonicalIff | src/core/Backend.cpp:572-583 | the extended value is a zero-extended w-bit value if and only if w is 64 or the sign bit is clear |
| RegisterAllocation.MakeHeap | src/core/RegisterAllocator.cpp:105-114 | rebuilding gives a max-heap on NextAdvent with the same allocations |
| RegisterAllocation.PopHeap | src/core/RegisterAllocator.cpp:54-60 | the root goes behind the heap, the rest is a heap again, nothing is lost |
| RegisterAllocation.Extract | src/core/RegisterAllocator.cpp:145-169 | emptying and refilling the stack finds the wanted id and leaves all others |
| RegisterAllocation.WithoutOne | src/core/RegisterAllocator.cpp:145-169 | taking one id out keeps the order of the other free registers |
| RegisterAllocation.RegisterAllocator.constructor | src/core/RegisterAllocator.cpp:69-75 | all sixteen registers are free, register 1 on top, nothing is active, no user is protected |
| RegisterAllocation.RegisterAllocator.AllocateNewRegister | src/core/RegisterAllocator.cpp:36-41 | takes the top of the free stack, zero exactly when it is empty |
| RegisterAllocation.RegisterAllocator.Get | src/core/RegisterAllocator.cpp:81-86 | the register that holds the source, zero exactly when none does |
| RegisterAllocation.RegisterAllocator.Request | src/core/RegisterAllocator.cpp:92-102 | a new allocation with key 0 on the top free register; the heap order and the partition of the registers are kept; fails exactly when no register is free |
| RegisterAllocation.RegisterAllocator.Update | src/core/RegisterAllocator.cpp:105-114 | only the use information of the source changes, the active set is a heap again |
| RegisterAllocation.RegisterAllocator.GetVictim | src/core/RegisterAllocator.cpp:43-66 | the allocation of the wanted register, or one with the greatest NextAdvent among those not last used by the current user |
| RegisterAllocation.RegisterAllocator.Evict | src/core/RegisterAllocator.cpp:120-131 | removes such an allocation, puts its register on top of the free stack and keeps heap, partition and distinct sources |
| RegisterAllocation.RegisterAllocator.RequestAnyTempRegister | src/core/RegisterAllocator.cpp:135-141 | moves the top free register to the temp set, zero exactly when none is free |
| RegisterAllocation.RegisterAllocator.RequestTempRegister | src/core/RegisterAllocator.cpp:145-169 | moves the wanted register to the temp set exactly when it is free, in either case keeping the order of the others |
| RegisterAllocation.RegisterAllocator.GiveUpTempRegister | src/core/RegisterAllocator.cpp:171-176 | the temp register becomes the top of the free stack |
| RegisterAllocation.TakeTempRegister | src/core/Backend.cpp:155-163 | a request that fails succeeds after the matching eviction, also for a specific register |
| RegisterAllocation.SomeVictim | src/core/Backend.cpp:137-146 | with sixteen registers and at most two operands protected there is always something to evict |
| RegisterAllocation.FetchUnprotected | src/core/RegisterAllocator.cpp:43-66 | without a protected user and with all registers taken, fetching an operand takes the register of another one if and only if that is the root of the active heap |
| RegisterAllocation.OperandOverwritten | src/core/Backend.cpp:610-642 | sixteen active values and a call: the second operand fetched gets the register of the first |
| RegisterAllocation.SomeFree | src/core/RegisterAllocator.cpp:92-102 | while fewer than sixteen values are active a register is free |
| Backend.DepromoteRegisters.ReportUse | src/core/Backend.cpp:123-128 | the use queue of the source advances and the allocator learns its next use |
| BlockState.KeyIsNextUse | src/core/Backend.cpp:123-128 | the key of an active value is the time of its next use in the block: of the present instruction if that has not fetched it yet, otherwise of the first later one that uses it; NO_MORE_ADVENT if there is none |
| Backend.DepromoteRegisters.EvictOne | src/core/Backend.cpp:137-146 | the value that loses its register is one not used again, or one whose next use is no earlier than that of any unprotected value; it is spilled if need be and nothing else changes |
| Backend.DepromoteRegisters.Evict | src/core/Backend.cpp:129-136 | emits a store exactly when the value must be spilled; the simulation relation holds without the allocation |
| Backend.DepromoteRegisters.RequestRegister | src/core/Backend.cpp:137-146 | a free register with nothing else changed, or the register of the unprotected value used farthest away; the protected operands stay where they are |
| Backend.DepromoteRegisters.GetRegister | src/core/Backend.cpp:147-154 | the value is in the register returned; nothing is emitted if it was in one, one load if a register was free |
| Backend.DepromoteRegisters.ClearRA | src/core/Backend.cpp:164-167 | every register is given up and every value still needed is stored |
| Backend.DepromoteRegisters.TranslateSrcOperandToTgt | src/core/Backend.cpp:173-204 | the emitted operand names the source operand's value and the use is counted |
| Backend.DepromoteRegisters.TranslateProtected | src/core/Backend.cpp:406-512 | all operands are fetched and each still matches after the others were, because the visitor reported itself as the user |
| Backend.DepromoteRegisters.EmitResult | src/core/Backend.cpp:459-470 | the destination register is requested and holds the instruction's value after the emitted code |
| Backend.DepromoteRegisters.VisitInst | src/core/Backend.cpp:386-645 | one instruction is translated and the relation for the longer prefix of the block holds |
| Backend.DepromoteRegisters.ProcessPHIsInSuccessor | src/core/Backend.cpp:692-717 | every phi of the successor has its operand for this edge in its phi slot |
| Backend.DepromoteRegisters.VisitPHINode | src/core/Backend.cpp:720-726 | the phi's value is loaded from its phi slot into a register |
| Backend.DepromoteRegisters.VisitTerminator | src/core/Backend.cpp:646-690 | phi operands of all edges are stored, the condition is fetched, and no register is live in a block that continues |
| Backend.DepromoteRegisters.BuildAdventMap | src/core/Backend.cpp:335-363 | each value's queue lists the timesteps of its uses in the block, phi operands of successors counted at the terminator |
| Backend.DepromoteRegisters.VisitBasicBlock | src/core/Backend.cpp:297-367 | translation of a block starts with the relation at its first phi, given an allocator with nothing active |
| Backend.DepromoteRegisters.DepromoteBlock | src/core/Backend.cpp:297-726 | for every state it may be entered in, the emitted block has the effects, result and successor of the source block, and leaves every needed slot right, with instructions of the machine on its sixteen registers only |
| Simulation.SimEvict | src/core/Backend.cpp:129-136 | giving up a register after the conditional spill keeps every value recoverable |
| Simulation.SimFill | src/core/Backend.cpp:147-154 | loading a value's slot puts the SSA value into the register |
| Simulation.SimOp | src/core/Backend.cpp:406-645 | the emitted operation computes the SSA result, with the same event or the same runtime error |
| BlockExit.AssignPhisLookup | src/core/Backend.cpp:692-717 | simultaneous assignment: every phi has the value its operand had before any phi changed, everything else is unchanged |
| BlockExit.SlotsOnExit | src/core/Backend.cpp:129-136 | when a block has been left, every value some other block needs is in its own slot |
| BlockExit.LeaveCorrect | src/core/Backend.cpp:646-717 | the emitted terminator takes the same edge and the state meets the entry condition of the next block |
| FinalUseAnalysis.Visit | src/core/Backend.cpp:859-881 | the analysis lists a value for a block exactly when it is used there in a return block or occurs in no other block |
| FinalUseAnalysis.FinalUsesAreSound | src/core/Backend.cpp:853-882 | no value that another block needs is listed for a block that continues, so skipping its spill is sound |
| Depromotion.OperandsInRegisters | src/core/Backend.cpp:406-512 | whenever operands have been fetched, each instruction operand is in the register named for it and holds its SSA value |
| Depromotion.RunsAgree | src/core/Backend.cpp:36-726 | over runs of any length from matching states, source and emitted program agree block by block |
| Depromotion.SpillIff | src/core/Backend.cpp:129-136 | giving up a register emits a store exactly if the value is defined in the block and is used again there, or was never used, or occurs elsewhere and not finally in a returning block |
| Depromotion.DeadIsNotSpilled | src/core/Backend.cpp:853-882 | a value that occurs in one block only, has been used and has no use left is given up without a store |
| Depromotion.Depromote | src/core/Backend.cpp:36-726 | the emitted program refines the SSA function in every environment, whatever registers and slots hold at first, and consists of instructions the machine has, without casts, on registers 1 to 16; calls may have several instruction operands where at most sixteen values occur in the block |
| TypedValues.FitsIff | src/core/Backend.cpp:572-583 | the typed meaning of an instruction and its whole-register meaning agree if and only if its sign extension goes to 64 bits or extends a clear sign bit |
| TypedValues.TypedRefines | src/core/Backend.cpp:36-726 | on every run whose sign extensions fit, the emitted program computes what the typed source program does |
| TypedValues.NarrowSExtDiffers | src/core/Backend.cpp:572-583 | returning the byte 0xFF extended to 32 bits: the typed program returns 32 ones, the emitted one 64 |
| Bytes.LoadLittleEndian | interpreter/src/memory.cpp:31-42 | the loop returns the number the bytes denote, least significant first |
| Bytes.StoreLittleEndian | interpreter/src/memory.cpp:58-65 | the loop leaves the low bytes of the value |
| Bytes.LoadOfStore | interpreter/src/memory.cpp:31-65 | loading what a store of n bytes left returns the value modulo 256^n |
| Bytes.NarrowLoad | interpreter/src/memory.cpp:31-65 | a narrower load returns the matching bytes of the stored value |
| Heap.RunInOneBlock | interpreter/src/memory.cpp:199-218 | because coalesced free blocks never touch, a run of unallocated bytes lies in one of them |
| Heap.TakeFree | interpreter/src/memory.cpp:165-175 | taking the front of a free block keeps the partition of the heap |
| Heap.GiveBack | interpreter/src/memory.cpp:199-218 | freeing with two-sided coalescing keeps the partition, and free blocks still never touch |
| HeapCalls.MallocFirstFit | interpreter/src/memory.cpp:159-182 | malloc succeeds if and only if a long enough run of unallocated bytes exists, and returns the lowest one |
| HeapCalls.MallocSeesBlocks | interpreter/src/memory.cpp:159-182 | what malloc does depends on the allocated bytes only, not on how the free list came about |
| HeapCalls.MallocOk | interpreter/src/memory.cpp:153-183 | malloc keeps partition, alignment, size counter and maximum |
| HeapCalls.FreeOk | interpreter/src/memory.cpp:185-221 | free keeps partition, alignment, size counter and maximum |
| HeapCalls.FreeSucceedsIff | interpreter/src/memory.cpp:186-191 | free succeeds if and only if an allocated block starts at the address |
| HeapCalls.FreeUndoesMalloc | interpreter/src/memory.cpp:153-221 | freeing what a malloc has just returned restores the allocated blocks |
| HeapCalls.RunOk | interpreter/src/memory.cpp:153-221 | after any calls the invariant holds, the size counter is the total, lies between 0 and the size of the heap, and the maximum is its running maximum |
| HeapCalls.AllGivenBack | interpreter/src/memory.cpp:185-221 | whenever nothing is allocated after a run, the free list is the single initial block |
| HeapCalls.FreeEverything | interpreter/src/memory.cpp:185-221 | after any run, freeing the live blocks in any order restores the single initial free block |
| MemoryMachine.FindBlockFinds | interpreter/src/memory.cpp:16-29 | the lookup finds the block holding the address exactly when there is one |
| MemoryMachine.AlignedInside | interpreter/src/memory.cpp:49-56 | an aligned access whose first byte is found lies wholly inside that block |
| MemoryMachine.AccessIff | interpreter/src/memory.cpp:93-151 | an access completes if and only if it is aligned and the machine has all its bytes; each error by address and alignment |
| MemoryMachine.AccessPrice | interpreter/src/memory.cpp:93-151 | the price by address: the base price of the region plus one unit per byte the head moves, nothing from nowhere |
| MemoryMachine.LoadAfterStore | interpreter/src/memory.cpp:93-151 | a load of stored bytes, or of part of them, returns the matching part of the stored value |
| MemoryMachine.LoadElsewhere | interpreter/src/memory.cpp:93-151 | a load of bytes a store did not cover finds what it found before |
| MemoryMachine.MallocBytes | interpreter/src/memory.cpp:166-175 | malloc makes its block readable as zeros and changes no other byte |
| MemoryMachine.FreeBytes | interpreter/src/memory.cpp:193-197 | free makes its block unreadable and changes no other byte |
| MemoryMachine.Memory.constructor | interpreter/src/memory.cpp:8-14 | a zeroed stack, one free block, the head nowhere |
| MemoryMachine.Memory.ExecLoad | interpreter/src/memory.cpp:93-121 | completes exactly if aligned and all bytes are there; the bytes at the address with the price of the head movement, and the head moves there; otherwise the error and nothing changes |
| MemoryMachine.Memory.ExecStore | interpreter/src/memory.cpp:123-151 | completes exactly if aligned and all bytes are there; then exactly the low bytes of the value are written and the head moved; otherwise the error and nothing changes |
| MemoryMachine.Memory.ExecMalloc | interpreter/src/memory.cpp:153-183 | the outcome and new heap of first fit, with the memory's invariant |
| MemoryMachine.Memory.ExecFree | interpreter/src/memory.cpp:185-221 | the outcome and new heap of freeing with coalescing, with the memory's invariant |
| MemoryMachine.Memory.ReturnBlock | interpreter/src/memory.cpp:199-218 | the block merged with the free neighbours it touches on both sides |
| MemoryMachine.Memory.ExecResetStack | interpreter/src/memory.cpp:223-226 | the head goes to the stack's end at the reset price |
| MemoryMachine.Memory.ExecResetHeap | interpreter/src/memory.cpp:228-231 | the head goes to the heap's start at the reset price |
| Scheduling.ObjectDecides | src/passes/ReorderMemAccess.cpp:37-106 | the object a pointer is derived from by casts and address arithmetic decides the region of an access: stack for an alloca or alloca_bytes, heap for a malloc or a global, in the blocking and in the dependency test |
| Scheduling.BlockedIff | src/passes/ReorderMemAccess.cpp:37-66 | blocked with the stack is exactly what goes back to a stack object through casts, address arithmetic, loads and stores, with the heap what goes back to malloc, free or a global; nothing else is blocked |
| Scheduling.KnownIff | src/passes/ReorderMemAccess.cpp:67-89 | the region the dependency test knows of a pointer that is no sum is that of the object it is derived from, and no other |
| Scheduling.SumRegion | src/passes/ReorderMemAccess.cpp:67-89 | the dependency test looks through a sum to the operand that has a region, the left one first; the blocking does not |
| Scheduling.RegionsAgree | src/passes/ReorderMemAccess.cpp:37-106 | where the dependency test knows the region of an access through no sum, the blocking uses the same |
| Scheduling.OrderedIff | src/passes/ReorderMemAccess.cpp:108-121 | what must stay in front: operands; of two instructions with effects, calls, accesses of the same region, and any access before one of unknown region |
| Scheduling.CheckDominance | src/passes/ReorderMemAccess.cpp:143-149 | the table lists every dependency, and each counter counts what must come first |
| Scheduling.ZeroCount | src/passes/ReorderMemAccess.cpp:165-171 | a counter is zero exactly when everything that must come first is out |
| Scheduling.LeastIsReady | src/passes/ReorderMemAccess.cpp:151-178 | the least unused instruction never waits, so a round that emits nothing is followed by one that does |
| Scheduling.Schedule | src/passes/ReorderMemAccess.cpp:151-183 | terminates with every instruction exactly once, in an order keeping all dependencies, the leading unblocked ones first; it changes from one region to the other only when every other instruction left outside that region must wait; and always the first instruction that neither waits nor is blocked is emitted |
| Scheduling.OnlyOneSchedule | src/passes/ReorderMemAccess.cpp:151-178 | these properties leave one order only, so they say exactly what the loop returns |
| Scheduling.PhaseEmit | src/passes/ReorderMemAccess.cpp:159-178 | while one region is blocked, an emitted instruction of the other region either continues that region or was the only kind that could be emitted |
| Scheduling.PhisLead | src/passes/ReorderMemAccess.cpp:151-178 | leading phis are among the leading unblocked instructions, so they stay in front in their order |
| Scheduling.ReorderBlock | src/passes/ReorderMemAccess.cpp:123-196 | the new block is the scheduled instructions followed by the same terminator, a permutation of the old block |
| Ir.BlocksComeAndGo | interpreter/src/memory.cpp:153-221 | malloc adds a live block of zero bytes where its placement says, free takes a live block with its bytes away, and nothing else changes |
| Reordering.UnorderedKinds | src/passes/ReorderMemAccess.cpp:108-121 | two unordered instructions clash exactly when both touch memory or call, not both are loads, they do not access the two different regions, and neither is an allocation call the other does not depend on |
| Reordering.StepsCommute | src/passes/ReorderMemAccess.cpp:108-121 | unordered instructions that do not clash commute: same registers, memory, blocks, stack pointer and trace, or the same failure |
| Reordering.OrderSound | src/passes/ReorderMemAccess.cpp:151-183 | any order that keeps the dependencies and the clashing pairs runs like the original order |
| Reordering.ReorderKeepsRun | src/passes/ReorderMemAccess.cpp:123-196 | if stack-classified accesses touch only bytes of some set and heap-classified ones and malloc's blocks none of it, a scheduled block that exchanges no clashing pair ends with the registers, memory, blocks, stack pointer and call trace of the original; where the original traps it traps too or breaks the classification |
| Reordering.LinkedKeeps | src/passes/ReorderMemAccess.cpp:108-121 | if a chain of dependencies links every pair that clashes, no schedule exchanges one |
| Clashes.ClashDiffers | src/passes/ReorderMemAccess.cpp:108-121 | for every clashing pair there is a rightly classified state, malloc, free and alloca_bytes dealing in blocks and in the stack pointer as the machine does, in which, for some placement of malloc's blocks and some meaning of other calls, the two orders do not end the same |
| Clashes.CommuteIff | src/passes/ReorderMemAccess.cpp:108-121 | a pair the pass leaves unordered may be exchanged in every state if and only if it does not clash |
| ClashingBlocks.AllocationEdges | src/passes/ReorderMemAccess.cpp:90-121 | malloc, free and alloca_bytes are ordered exactly with their operands and users |
| ClashingBlocks.UnclassifiedStoreIsPassed | src/passes/ReorderMemAccess.cpp:123-196 | on a rightly classified block every order the scheduler can return makes a stack load read the byte before the store instead of after it |
| ClashingBlocks.FreeIsMovedUp | src/passes/ReorderMemAccess.cpp:123-196 | on a block that runs, every order the scheduler can return frees a block before it is loaded from, and the load fails |
| ResetPointers.ObjectDecides | src/passes/ResetPointer.cpp:12-58 | the object a pointer is derived from decides the region of an access; a constant address does by its value |
| ResetPointers.KnownIff | src/passes/ResetPointer.cpp:12-43 | the region the pass knows of a pointer that is no sum, exactly |
| ResetPointers.EffectIff | src/passes/ResetPointer.cpp:44-58 | accesses have the region of their pointer, calls count as calls unless they allocate, nothing else has an effect |
| ResetPointers.CollectResets | src/passes/ResetPointer.cpp:66-88 | lists exactly the accesses to one region whose last preceding instruction with an effect is an access to the other |
| ResetPointers.ResetPointer | src/passes/ResetPointer.cpp:60-100 | the instructions in their order, the matching reset directly in front of each that enters its region from the other one, and no other reset |
| ResetPointers.ResetsAreRight | src/passes/ResetPointer.cpp:66-99 | the same of the specification, by positions |
| ResetPointers.PricedAsMachine | interpreter/src/memory.cpp:93-151 | whenever the interpreter's memory completes an access, the priced step completes, costs the same and leaves the head at the same place |
| ResetPointers.ResetSaves | src/passes/ResetPointer.cpp:77-86 | reset and access together cost at least 5240 units less than the access alone |
| ResetPointers.SavingIsTight | interpreter/src/memory.cpp:93-151 | going from the heap's first byte to the stack's first byte saves exactly 5240 units |
| ResetPointers.StepWithReset | src/passes/ResetPointer.cpp:69-87 | one instruction with its reset has the same effect and keeps the pass's state true of the head |
| ResetPointers.ResetsPay | src/passes/ResetPointer.cpp:60-100 | for every run the resets change no register, memory or call, and the cost falls by at least 5240 units per reset |
| WeirdArithmetics.RunPass | src/passes/WeirdArithmetic.cpp:10-68 | collecting and then replacing in place rewrites exactly the instructions a rule applies to; no `sub 0, x`, shift by a constant, `and` with a mask of low bits or one-bit `and` is left |
| WeirdArithmetics.NoneIsLeft | src/passes/WeirdArithmetic.cpp:14-63 | every instruction a rule is meant for is rewritten, and no rewriting makes one |
| WeirdArithmetics.NegateRule | src/passes/WeirdArithmetic.cpp:16-20 | `sub 0, x` equals `mul x, -1` at every width |
| WeirdArithmetics.ShiftRule | src/passes/WeirdArithmetic.cpp:39-55 | shl and lshr by n below the width equal mul and udiv by 2^n |
| WeirdArithmetics.OneBitRule | src/passes/WeirdArithmetic.cpp:56-60 | one-bit `and` equals one-bit `mul` |
| WeirdArithmetics.LowMaskRule | src/passes/WeirdArithmetic.cpp:31-37 | `and x, 2^k - 1` equals `urem x, 2^k` for k below the width |
| WeirdArithmetics.FillRule | src/passes/WeirdArithmetic.cpp:25-30 | the filled mask gives the same result on a multiple of 2^m |
| WeirdArithmetics.MaskRuleIff | src/passes/WeirdArithmetic.cpp:21-38 | the mask rewrite keeps the value unless the filled mask has every bit; then it divides by zero |
| WeirdArithmetics.RewriteKeepsValueIff | src/passes/WeirdArithmetic.cpp:14-63 | an instruction keeps its value if and only if its filled mask does not have every bit of the type |
| WeirdArithmetics.ShiftsStayKnown | src/passes/WeirdArithmetic.cpp:25-30 | along a run every register defined by `shl ?, m` holds a multiple of 2^m |
| WeirdArithmetics.RewrittenRunIff | src/passes/WeirdArithmetic.cpp:10-68 | the rewritten block gives every register its old value, or traps where the original traps, if and only if the original traps or no filled mask has every bit; with such a mask it traps in any case |
| WeirdArithmetics.FullMaskTraps | src/passes/WeirdArithmetic.cpp:21-38 | `x << 4` and `& 0xF0` on bytes run for every x, and the rewritten block divides by zero |
| WeirdArithmetics.RewriteIsCheaper | src/passes/WeirdArithmetic.cpp:10-68 | the static cost falls by at least 500 units (0.2) per rewritten instruction |
| Packing.PackFromCaller | src/passes/PackRegisters.cpp:229-264 | emits the zero extensions and the merging chain from the last argument to the first |
| Packing.PackFromCallee | src/passes/PackRegisters.cpp:121-155 | emits the dividing chain and notes where each argument is found |
| Packing.CallerRuns | src/passes/PackRegisters.cpp:229-264 | the merging chain computes the mixed-radix number of the arguments; xor is addition and no multiplication overflows |
| Packing.CalleeRuns | src/passes/PackRegisters.cpp:121-155 | after each argument what remains is the number formed by the others |
| Packing.ArgumentBits | src/passes/PackRegisters.cpp:229-264 | in the packed value the bits of each argument start where those of the arguments before it end, argument 0 lowest |
| Packing.PackingRoundTrip | src/passes/PackRegisters.cpp:121-264 | the callee recovers every argument from what the caller passes, with nothing trapping or overflowing |
| PackingInfos.WindowCount | src/passes/PackRegisters.cpp:42-48 | a window that cannot grow is too short to pack exactly when its first three arguments do not fit |
| PackingInfos.StaysTooWide | src/passes/PackRegisters.cpp:31-70 | on sorted widths, once three arguments do not fit the next three do not either |
| PackingInfos.ArgumentPackingInfo.constructor | src/passes/PackRegisters.cpp:14-77 | terminates; every argument has exactly one new position; packs have at least three arguments and at most 64 bits, the narrowest type that holds them, could not grow, and come before all single arguments; no single argument starts three that fit |
| PackingInfos.NoThreeFit | src/passes/PackRegisters.cpp:42-70 | nothing more could be packed: no three of the arguments left single fit together |
| PackingInfos.ChosenPackFits | src/passes/PackRegisters.cpp:47-59 | every chosen pack meets the conditions of the round trip, whatever the argument values |
| HybridAllocation.CollectModule | src/passes/MemUseOptimization.cpp:49-78 | converts if and only if every free of the module is in main outside loops and main has a malloc outside loops, and then lists exactly the mallocs and frees there |
| HybridAllocation.StackGuardIff | src/passes/MemUseOptimization.cpp:91-100 | the emitted guard admits exactly the sizes that leave 5120 bytes, and those that make the subtraction wrap |
| HybridAllocation.HeapGuardIff | src/passes/MemUseOptimization.cpp:136-141 | the emitted guard holds exactly for addresses from 10240 up to but not including 2^63 |
| HybridAllocation.AllocKeepsIff | src/passes/MemUseOptimization.cpp:84-126 | an allocation keeps live blocks disjoint and the stack pointer at 5120 or above if and only if no guard meets a size that wraps around |
| HybridAllocation.AllocGoes | src/passes/MemUseOptimization.cpp:84-126 | a guarded request that leaves 5120 bytes goes right below the stack pointer, any other that does not wrap to the lowest run of heap bytes, or fails if there is none |
| HybridAllocation.WrappedSizeIsAdmitted | src/passes/MemUseOptimization.cpp:91-110 | 2^64 - 8 bytes: malloc fails, the guard admits the size, and the stack pointer ends above the stack |
| HybridAllocation.ReleaseSucceeds | src/passes/MemUseOptimization.cpp:128-154 | for a live block the guard calls free exactly if the block is on the heap below 2^63, and that free succeeds |
| HybridAllocation.ReleaseGoes | src/passes/MemUseOptimization.cpp:128-154 | a release forgets one live block; exactly the bytes of a heap block below 2^63 are given back, and nothing else changes |
| HybridAllocation.ReleaseFailsIff | src/passes/MemUseOptimization.cpp:128-154 | a release fails exactly if the guard holds and no allocated block starts at the address |
| HybridAllocation.ReleaseKeeps | src/passes/MemUseOptimization.cpp:128-154 | a release keeps the other live blocks in place and disjoint |
| HybridAllocation.HybridRunOk | src/passes/MemUseOptimization.cpp:84-154 | over every run of requests that do not wrap and frees of live blocks, live blocks are disjoint, the stack reserve is kept and no free of a live block fails |
| HybridAllocation.ModestRunsRelease | src/passes/MemUseOptimization.cpp:128-154 | as long as the requests of a run add up to at most 2^63 - 20480 bytes, the guard calls free exactly for the live blocks on the heap |
| HybridAllocation.HighBlockIsKept | src/passes/MemUseOptimization.cpp:136-141 | in the interpreter's address arithmetic, a run in which the release of a heap block at 2^63 or above gives nothing back |

## Left out

- LLVM itself: types, names, constant folding, attributes, function cloning and the object graph; instructions are records with ids and operands.
- Assembly printing and parsing, command-line handling and I/O; only the meaning of the emitted instructions is used.
- Depromotion.Depromote: does not cover a call with several instruction operands in a block of more than sixteen values, nor getelementptr; blocks laid out after a return block, which are translated without emptying the registers; the reserved register r16 of the reference stack pointer.
- Reading an undefined value (a use its definition does not reach) counts as stuck; the emitted program may then do anything.
- Reordering.ReorderKeepsRun: a block that exchanges a clashing pair may still run right when later instructions hide the difference; exactness is proved for pairs (Clashes.CommuteIff), not for whole blocks.
- Clashes.CommuteIff: two stores are left out if they write the same value operand, or if both write one of the two pointers they write through, because at one address such stores leave the same bytes; access widths are the machine's 1, 2, 4 and 8.
- MemoryMachine.Memory.ExecLoad: requires that address plus size is not exactly 2^64, where the interpreter's range test wraps around; the same for ExecStore.
- MemoryMachine.Memory.ExecMalloc: the host's own out-of-memory failure is not modelled, and the zeroed bytes of a block are part of the value of the block rather than a separate array.
- Floating-point rounding of costs: costs are exact integers.
- Signed division of the least integer by -1, which the host leaves undefined.
- WeirdArithmetics.RewriteKeepsValueIff: shift amounts at or above the width are excluded, because they are undefined in the source language.
- The order in which std::sort leaves arguments of equal width: any order sorted by width is allowed.
- The splitting of blocks around converted mallocs and frees; the model evaluates the emitted guards and follows the branches.
- Zero initialisation of memory across the conversion from malloc to stack: only the heap clears its blocks.
- The effect of the hybrid allocation on when the heap runs out of memory.
- How few spills or how small a packing could be: the code promises no optimum.
