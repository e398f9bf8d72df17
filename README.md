# SpiderMonkey 38 move emitter and shape table, modelled in Dafny

This project models two pieces of the SpiderMonkey 38 engine bundled with MongoDB and proves properties of them.

**The x86/x64 move emitter** (`MoveEmitterX86`) turns a resolved, linearized list of moves into instructions. The register allocator meant those moves to happen all at once, and cycles are marked by begin/end flags. The model has these parts:

- `MoveOps` describes move lists: operands, move types, the target, when a list is well formed, and the list's step-by-step reference meaning. Plain moves copy in order; a cycle-begin move saves the value it overwrites, and the matching cycle-end move, which reads the begin move's destination, stores that saved value.
- `MoveParallel` gives the meaning the register allocator intends: one parallel assignment, every destination receiving what its source held before any move. It proves that the step-by-step meaning is that assignment on lists in the resolver's order, and that a single chained, closed cycle is in that order.
- `MoveMachine` is an abstract machine that executes the emitted instructions. Stack cells are addressed from a fixed top of stack, and the stack pointer sits `framePushed` bytes below it.
- `MoveEmitterSpec` has one function per emitter routine. Each gives the instructions the routine appends and the new emitter state.
- `MoveEmitterImpl` holds the routines as classes that mutate an assembler's instruction log and `framePushed`. The emitter fields are `pushedAtStart`, `pushedAtCycle` and `inCycle`. Each method is proved to append exactly what its specification function says. For `EmitGeneralMove` that function, `GeneralMoveCode`, carries the displacement correction of the Findings: it differs from MoveEmitter-x86-shared.cpp:418-420 as written, whose code is `GeneralMoveCodeAsWritten`.
- `MoveEmitterProofs` proves the emitted code correct, with that correction. On every well-formed move list, running `emit` and then `finish` leaves every user-visible cell holding what the list means (its parallel assignment when the list is in the resolver's order), reserves the cycle slot at most once, and returns the stack to its starting depth. The code as written differs only on x86 with no scratch register, for an address relative to the stack pointer moved to memory while the emitter has pushed bytes: there it stores the wrong address.
- `MoveEmitterFindings` exhibits a displacement error in `emitGeneralMove` (see Findings).

**The shape table** (`ShapeTable`) is the open-addressed hash table that maps property ids to shapes for a dictionary-mode object or a long property lineage. The model has these parts:

- `ShapeHash` gives the primary and secondary hash codes with explicit 32-bit wrap-around. It proves that the secondary hash is odd and that the probe sequence reaches every slot.
- `ShapeEntries` works on entry sequences. It defines the three entry states (free, removed, live with a collision bit), the table invariants, and what a search returns. Its lemmas cover insertion, removal and the keep-the-youngest rule of `init`.
- `ShapeTableImpl` has the sizing arithmetic of `init`, and a `ShapeTable` class whose `search`, `init`, `change`, `grow` and removal bookkeeping update the hash shift, the counts and the entry array in place.

Both parts follow the code where it differs from the documented design. For example, `addPropertyInternal` reuses a removed entry without decrementing `removedCount_`. The model therefore maintains only upper bounds: live entries ≤ `entryCount` and removed entries ≤ `removedCount`.

## Model

| member | source | states |
|---|---|---|
| MoveEmitterImpl.MoveEmitterX86.constructor | src/third_party/mozjs-38/extract/js/src/jit/shared/MoveEmitter-x86-shared.cpp:12-18 | emission starts at the assembler's current depth, with no cycle open and no cycle slot reserved |
| MoveEmitterImpl.CharacterizeCycle | src/third_party/mozjs-38/extract/js/src/jit/shared/MoveEmitter-x86-shared.cpp:24-66 | the loop computes exactly this: if every destination of the cycle up to its first end move is a register of one class, and each move reads what the next overwrites with the last reading what the first overwrites, the result is the hop count to that end move; otherwise it is -1 with both flags false |
| MoveEmitterImpl.MoveEmitterX86.MaybeEmitOptimizedCycle | src/third_party/mozjs-38/extract/js/src/jit/shared/MoveEmitter-x86-shared.cpp:71-95 | emits code exactly when the cycle is general registers with at most two swaps or float registers with one swap; then it appends the xchg chain or XOR swap, otherwise nothing; the stack depth never changes |
| MoveEmitterProofs.OptimizedCorrect | src/third_party/mozjs-38/extract/js/src/jit/shared/MoveEmitter-x86-shared.cpp:71-95 | when the optimization applies, its code performs the whole cycle as the move list means it, without touching the stack |
| MoveEmitterProofs.XchgOneCorrect | src/third_party/mozjs-38/extract/js/src/jit/shared/MoveEmitter-x86-shared.cpp:74-80 | one xchg performs a two-register cycle |
| MoveEmitterProofs.XchgTwoCorrect | src/third_party/mozjs-38/extract/js/src/jit/shared/MoveEmitter-x86-shared.cpp:74-80 | two chained xchgs perform a three-register cycle |
| MoveEmitterProofs.XorSwapCorrect | src/third_party/mozjs-38/extract/js/src/jit/shared/MoveEmitter-x86-shared.cpp:83-92 | the three vxorpd instructions perform a two-float-register cycle |
| MoveMachine.XorSwap | src/third_party/mozjs-38/extract/js/src/jit/shared/MoveEmitter-x86-shared.cpp:88-90 | the XOR swap of two distinct registers exchanges their contents and changes nothing else in the machine |
| MoveEmitterImpl.MoveEmitterX86.Emit | src/third_party/mozjs-38/extract/js/src/jit/shared/MoveEmitter-x86-shared.cpp:98-160 | the loop leaves the emitter and assembler in the state the step-by-step specification of `emit` gives for the whole list |
| MoveEmitterImpl.MoveEmitterX86.EmitAt | src/third_party/mozjs-38/extract/js/src/jit/shared/MoveEmitter-x86-shared.cpp:106-159 | one loop iteration: an end move completes the cycle; a begin move is characterized, then either optimized (skipping past the cycle) or broken before its own move; any other move is emitted plainly |
| MoveEmitterProofs.EmitCorrect | src/third_party/mozjs-38/extract/js/src/jit/shared/MoveEmitter-x86-shared.cpp:98-160 | for every well-formed list on every machine, `emit` then `finish` leaves each user cell with the value the step-by-step meaning gives and, for a list in the resolver's order, with the value its source held before any move (the parallel assignment); the code holds at most one stack reservation, ends with no cycle open and restores the starting stack depth |
| MoveEmitterProofs.EmitFromReservedOnce | src/third_party/mozjs-38/extract/js/src/jit/shared/MoveEmitter-x86-shared.cpp:168-177 | over the whole loop the code holds at most one stack reservation, and none until the slot's depth is recorded |
| MoveEmitterProofs.StepReservedOnce | src/third_party/mozjs-38/extract/js/src/jit/shared/MoveEmitter-x86-shared.cpp:106-159 | one loop iteration adds a reservation only when no slot is recorded yet, and records it |
| MoveEmitterProofs.BreakCycleReserves | src/third_party/mozjs-38/extract/js/src/jit/shared/MoveEmitter-x86-shared.cpp:231-289 | `breakCycle` reserves at most once, only while no slot is recorded, and then records the slot |
| MoveEmitterProofs.CompleteCycleReserves | src/third_party/mozjs-38/extract/js/src/jit/shared/MoveEmitter-x86-shared.cpp:292-361 | `completeCycle` reserves at most once, only while no slot is recorded, and then records the slot |
| MoveParallel.EndReadsBegin | src/third_party/mozjs-38/extract/js/src/jit/shared/MoveEmitter-x86-shared.cpp:56-62 | in a well-formed list every end move closes the cycle opened by the last begin move, is that cycle's first end move, and reads the begin move's destination |
| MoveParallel.RestoredValue | src/third_party/mozjs-38/extract/js/src/jit/shared/MoveEmitter-x86-shared.cpp:292-361 | the value a cycle-end move stores is what its source held just before the cycle began, whatever the moves inside the cycle did |
| MoveParallel.RunIsParallel | src/third_party/mozjs-38/extract/js/src/jit/shared/MoveEmitter-x86-shared.cpp:98-160 | on a well-formed list in the resolver's order, performing the moves one after another is the parallel assignment, and an open cycle's saved value is its begin destination's value before any move |
| MoveParallel.CycleInResolverOrder | src/third_party/mozjs-38/extract/js/src/jit/shared/MoveEmitter-x86-shared.cpp:24-66 | a single cycle whose moves are chained and closed, with distinct destinations, is in the resolver's order |
| MoveParallel.CycleIsParallel | src/third_party/mozjs-38/extract/js/src/jit/shared/MoveEmitter-x86-shared.cpp:24-66 | such a cycle, performed in turn with its saved value restored, is its parallel assignment |
| MoveParallel.ParallelWritten | src/third_party/mozjs-38/extract/js/src/jit/shared/MoveEmitter-x86-shared.cpp:98-160 | in the parallel assignment the last move writing a destination gives it its source's value before any move |
| MoveParallel.ParallelUntouched | src/third_party/mozjs-38/extract/js/src/jit/shared/MoveEmitter-x86-shared.cpp:98-160 | in the parallel assignment a cell no move writes keeps its value |
| MoveEmitterProofs.StepCorrect | src/third_party/mozjs-38/extract/js/src/jit/shared/MoveEmitter-x86-shared.cpp:106-159 | each loop iteration keeps the machine in step with the reference meaning of the moves it has consumed, including the value saved for an open cycle |
| MoveEmitterProofs.AssertionsHold | src/third_party/mozjs-38/extract/js/src/jit/shared/MoveEmitter-x86-shared.cpp:110-119 | the debug assertions hold on well-formed input: an end move finds a cycle open and a begin move finds none; the value to restore is on the stack or in a reserved slot large enough for its type (including those completeCycle checks) |
| MoveEmitterImpl.MoveEmitterX86.CycleSlot | src/third_party/mozjs-38/extract/js/src/jit/shared/MoveEmitter-x86-shared.cpp:168-177 | the first call reserves 16 bytes and records that depth; every call returns the slot's address at the current depth |
| MoveEmitterSpec.ToAddress | src/third_party/mozjs-38/extract/js/src/jit/shared/MoveEmitter-x86-shared.cpp:180-189 | a non-stack base passes through unchanged; a stack-pointer displacement is shifted by the bytes pushed since emission began, so the address still names the cell the allocator meant |
| MoveEmitterSpec.ToOperand | src/third_party/mozjs-38/extract/js/src/jit/shared/MoveEmitter-x86-shared.cpp:195-204 | registers pass through and other operands name the intended cell at the current depth |
| MoveEmitterSpec.ToPopOperand | src/third_party/mozjs-38/extract/js/src/jit/shared/MoveEmitter-x86-shared.cpp:209-228 | the operand names the intended cell once the pop has released one pointer-sized slot |
| MoveEmitterImpl.MoveEmitterX86.BreakCycle | src/third_party/mozjs-38/extract/js/src/jit/shared/MoveEmitter-x86-shared.cpp:231-289 | appends the save code for the cycle's type: a push for pointer-width values (and 32-bit values on x86), a store into the cycle slot otherwise |
| MoveEmitterProofs.BreakCycleCorrect | src/third_party/mozjs-38/extract/js/src/jit/shared/MoveEmitter-x86-shared.cpp:231-289 | after the break, the first destination's old value is on top of the stack or in the cycle slot, and no user cell has changed |
| MoveEmitterImpl.MoveEmitterX86.CompleteCycle | src/third_party/mozjs-38/extract/js/src/jit/shared/MoveEmitter-x86-shared.cpp:292-361 | appends the restore code for the cycle's type: a pop for pushed values, a load from the cycle slot otherwise |
| MoveEmitterProofs.CompleteCycleCorrect | src/third_party/mozjs-38/extract/js/src/jit/shared/MoveEmitter-x86-shared.cpp:292-361 | the saved value reaches the cycle's last destination, what the break pushed is released, and no other user cell changes |
| MoveEmitterImpl.MoveEmitterX86.EmitInt32Move | src/third_party/mozjs-38/extract/js/src/jit/shared/MoveEmitter-x86-shared.cpp:364-384 | appends the 32-bit move's code without changing the depth |
| MoveEmitterProofs.Int32MoveCorrect | src/third_party/mozjs-38/extract/js/src/jit/shared/MoveEmitter-x86-shared.cpp:364-384 | the code copies the source value into the destination; other user cells and the emitter's own stack area are unchanged |
| MoveEmitterImpl.MoveEmitterX86.EmitGeneralMove | src/third_party/mozjs-38/extract/js/src/jit/shared/MoveEmitter-x86-shared.cpp:387-424 | appends the pointer-width move's code (with the displacement correction below) without changing the depth |
| MoveEmitterProofs.GeneralMoveAsWrittenCorrect | src/third_party/mozjs-38/extract/js/src/jit/shared/MoveEmitter-x86-shared.cpp:387-413 | the code as written is correct on every path except an address source stored to memory without a scratch register |
| MoveEmitterProofs.GeneralMoveCorrect | src/third_party/mozjs-38/extract/js/src/jit/shared/MoveEmitter-x86-shared.cpp:387-424 | with the displacement translated, every path stores the intended value or address and leaves everything else alone |
| MoveEmitterImpl.MoveEmitterX86.EmitFloatClassMove | src/third_party/mozjs-38/extract/js/src/jit/shared/MoveEmitter-x86-shared.cpp:427-496 | appends the float32, double or SIMD move's code, bouncing memory-to-memory moves through the class's scratch register, without changing the depth |
| MoveEmitterProofs.FloatClassMoveCorrect | src/third_party/mozjs-38/extract/js/src/jit/shared/MoveEmitter-x86-shared.cpp:427-496 | the code copies the source into the destination; only the float scratch register may additionally change |
| MoveEmitterImpl.MoveEmitterX86.EmitMove | src/third_party/mozjs-38/extract/js/src/jit/shared/MoveEmitter-x86-shared.cpp:136-158 | dispatches on the move type to the matching routine |
| MoveEmitterProofs.MoveCodeCorrect | src/third_party/mozjs-38/extract/js/src/jit/shared/MoveEmitter-x86-shared.cpp:136-158 | every plain move performs exactly that move and leaves the emitter's stack area alone |
| MoveEmitterImpl.MoveEmitterX86.Finish | src/third_party/mozjs-38/extract/js/src/jit/shared/MoveEmitter-x86-shared.cpp:505-510 | with no cycle open, frees everything pushed since emission began |
| MoveEmitterProofs.FinishCorrect | src/third_party/mozjs-38/extract/js/src/jit/shared/MoveEmitter-x86-shared.cpp:505-510 | after `finish` the stack is back at its starting depth and no user cell has changed |
| MoveEmitterFindings.SlotOutlivesCycle | src/third_party/mozjs-38/extract/js/src/jit/shared/MoveEmitter-x86-shared.cpp:168-177 | on `Example`, the double cycle broken through the slot leaves the slot reserved, so the move after it is emitted 16 bytes deeper than the start |
| MoveEmitterFindings.AsWrittenMissesPushedBytes | src/third_party/mozjs-38/extract/js/src/jit/shared/MoveEmitter-x86-shared.cpp:415-422 | in that state, the code as written stores an address 16 bytes below the one the move list means |
| MoveEmitterFindings.CorrectedStoresAddress | src/third_party/mozjs-38/extract/js/src/jit/shared/MoveEmitter-x86-shared.cpp:415-422 | with the displacement translated, the same move stores the intended address |
| ShapeHash.Hash1 | src/third_party/mozjs-38/extract/js/src/vm/Shape.cpp:176-180 | the primary hash is a valid index into a table of `HashBits - shift` address bits |
| ShapeHash.Hash2 | src/third_party/mozjs-38/extract/js/src/vm/Shape.cpp:182-186 | the secondary hash is odd and smaller than the table size |
| ShapeHash.ProbeReaches | src/third_party/mozjs-38/extract/js/src/vm/Shape.cpp:172-186 | with an odd step, the wrapped 32-bit probe sequence visits every slot within one table's worth of steps |
| ShapeHash.ProbeClosedForm | src/third_party/mozjs-38/extract/js/src/vm/Shape.cpp:231-232 | the wrapped subtract-and-mask steps equal `hash1 - k * hash2` taken modulo the table size |
| ShapeTableImpl.NextIndex | src/third_party/mozjs-38/extract/js/src/vm/Shape.cpp:231-233 | one probe step moves to the next index on the id's probe path |
| ShapeEntries.AtReaches | src/third_party/mozjs-38/extract/js/src/vm/Shape.cpp:230-254 | every index lies on every id's probe path, so a probe cannot miss a free entry |
| ShapeTableImpl.ShapeTable.Search | src/third_party/mozjs-38/extract/js/src/vm/Shape.cpp:188-257 | the probe stops at the first free entry or live entry of the id; the result is that entry, or, when adding past removed entries to a free one, the first removed entry; an adding search sets the collision bit of every live entry it passes and changes nothing else; the table invariant is kept |
| ShapeTableImpl.ShapeTable.ProbeLoop | src/third_party/mozjs-38/extract/js/src/vm/Shape.cpp:230-254 | the loop ends where the probe stops and returns the index `search` promises |
| ShapeTableImpl.ShapeTable.ProbeStep | src/third_party/mozjs-38/extract/js/src/vm/Shape.cpp:244-253 | passing a non-matching entry records the first removed one and flags a live one when adding |
| ShapeEntries.SearchFinds | src/third_party/mozjs-38/extract/js/src/vm/Shape.cpp:238-242 | when the id has a live entry, the search returns it whether adding or not, and every entry the probe passed has the collision bit (the debug check on a hit) |
| ShapeEntries.SearchMisses | src/third_party/mozjs-38/extract/js/src/vm/Shape.cpp:235-236 | when the id has no live entry, the probe stops at a free entry and the search returns an entry with no shape, which is a removed one only when adding |
| ShapeEntries.FlagPathEntries | src/third_party/mozjs-38/extract/js/src/vm/Shape.cpp:219-228 | after an adding search, exactly the entries on the probe path before the stop have been flagged |
| ShapeEntries.FlagsOnlyPreserves | src/third_party/mozjs-38/extract/js/src/vm/Shape.cpp:248-249 | setting collision bits changes no shape and no count, and keeps both table invariants |
| ShapeTableImpl.ShapeTable.constructor | src/third_party/mozjs-38/extract/js/src/vm/Shape.cpp:159 | a new table has the lineage's entry count, no removed entries and no storage yet |
| ShapeTableImpl.InitLog2Least | src/third_party/mozjs-38/extract/js/src/vm/Shape.cpp:40-46 | `init` picks the smallest table of at least the minimum size that stays below the 3/4 load limit |
| ShapeTableImpl.CeilingLog2 | src/third_party/mozjs-38/extract/js/src/vm/Shape.cpp:40 | the least `k` with `n <= 2^k` |
| ShapeTableImpl.ShapeTable.Init | src/third_party/mozjs-38/extract/js/src/vm/Shape.cpp:38-76 | a failed allocation returns false and changes nothing; otherwise the table has that size and capacity, is at least the minimum size, does not need to grow, and holds for each id the youngest shape of the lineage |
| ShapeTableImpl.ShapeTable.Allocate | src/third_party/mozjs-38/extract/js/src/vm/Shape.cpp:51-57 | a freshly zeroed array of the requested size with the matching hash shift holds no shapes and keeps the invariant |
| ShapeTableImpl.ShapeTable.PutAll | src/third_party/mozjs-38/extract/js/src/vm/Shape.cpp:59-68 | storing a lineage youngest first leaves the youngest shape of every id |
| ShapeTableImpl.ShapeTable.Put | src/third_party/mozjs-38/extract/js/src/vm/Shape.cpp:60-67 | a shape is added unless a shape with its id is already stored, with the collision bit kept; counts grow by at most one |
| ShapeEntries.Store | src/third_party/mozjs-38/extract/js/src/vm/Shape.cpp:60-67 | storing at the search result keeps both invariants and adds the shape exactly when its id is new |
| ShapeEntries.YoungestSnoc | src/third_party/mozjs-38/extract/js/src/vm/Shape.cpp:63-67 | extending the lineage by an older shape adds it only when no younger shape has its id |
| ShapeEntries.YoungestIds | src/third_party/mozjs-38/extract/js/src/vm/Shape.cpp:63-67 | an id occurs in the lineage if and only if a kept shape has it |
| ShapeTableImpl.ShapeTable.Change | src/third_party/mozjs-38/extract/js/src/vm/Shape.cpp:259-298 | a failed allocation changes nothing; otherwise the table has `2^(log2 + delta)` entries, no removed entries, the same shapes and the same entry count |
| ShapeTableImpl.ShapeTable.CopyLive | src/third_party/mozjs-38/extract/js/src/vm/Shape.cpp:284-291 | the new table ends up holding exactly the live shapes of the old array |
| ShapeTableImpl.ShapeTable.Reinsert | src/third_party/mozjs-38/extract/js/src/vm/Shape.cpp:286-289 | a shape with a new id lands on a free entry, adding exactly that shape and one live entry |
| ShapeEntries.Insert | src/third_party/mozjs-38/extract/js/src/vm/Shape.cpp:286-289 | inserting a new id at the search result keeps both invariants, adds exactly that shape, and consumes a removed entry only if one was reused |
| ShapeTableImpl.ShapeTable.Grow | src/third_party/mozjs-38/extract/js/src/vm/Shape.cpp:300-315 | doubles the table unless at least a quarter of it is removed entries, in which case it rebuilds at the same size; afterwards no removed entries remain and the table no longer needs to grow; a failed allocation is an error only when the table is one entry from full, and otherwise leaves the table as it was |
| ShapeTableImpl.ShapeTable.Vacate | src/third_party/mozjs-38/extract/js/src/vm/Shape.cpp:974-982 | the entry becomes removed when its collision bit is set and free otherwise, nothing else in the array changes, and the counts follow |
| ShapeEntries.Remove | src/third_party/mozjs-38/extract/js/src/vm/Shape.cpp:974-982 | vacating a live entry keeps both invariants, drops exactly its shape, and adds a removed entry only when the collision bit was set |
| ShapeTableImpl.ShapeTable.RemoveEntry | src/third_party/mozjs-38/extract/js/src/vm/Shape.cpp:972-1010 | the shape is dropped and the counts follow; above the minimum size with at most a quarter live, the table halves and its removed entries go; otherwise the array stays and is only vacated |

## Left out

- The macro assembler is not part of this model. `MoveEmitterImpl.Assembler` keeps only the log of emitted instructions and `framePushed`, and `MoveMachine` gives those instructions a meaning.
- Machine values are opaque integers. Only pointer addition and XOR are computed. Floating point, SIMD lanes, 32-bit truncation of `load32`/`store32`, alignment of the SIMD loads and stores, and the FLAGS register that `addPtr` clobbers are not modelled.
- Heap cells are keyed by base register and displacement. Two different operands that alias the same heap memory are not modelled.
- The DEBUG-only clobber of the scratch register at the start of `emit`, and `MOZ_CRASH` on an unknown move type, are left out. The type enumeration is closed, so the crash is unreachable.
- `assertDone` and the destructor are represented by `Finish`'s precondition that no cycle is open.
- `characterizeCycle` returns `size_t`, so its -1 is `SIZE_MAX`. The model uses the integer -1, which `maybeEmitOptimizedCycle` never compares against.
- x64's `Int32` cycle values go through the cycle slot and x86's through a push. The `JS_CODEGEN_X64` conditional is the `x64` field of the target.
- Move lists are assumed well formed: cycles do not nest, every cycle closes with a move of the announced type that reads the begin move's destination, and no address is a destination. That is what the move resolver produces; the resolver is not part of this model. The moves inside a cycle need not be chained, since the comment at MoveEmitter-x86-shared.cpp:46-48 admits other moves reading the same source there.
- `MoveEmitterProofs.EmitCorrect` ties the code to the parallel assignment only for lists in the resolver's order (`MoveParallel.ResolverOrder`: no move reads a cell an earlier move writes, a cycle-end move excepted). For other lists it promises the step-by-step meaning only. The order is what the resolver guarantees and is assumed here, not derived.
- `MoveEmitterImpl.MoveEmitterX86.EmitGeneralMove` models the corrected displacement, not MoveEmitter-x86-shared.cpp:418-420 as written. The written code is `MoveEmitterSpec.GeneralMoveCodeAsWritten`; for an address source relative to the stack pointer stored to memory without a scratch register, while bytes are pushed, it stores the wrong address (see Findings).
- The shape table's `HASH_BITS` is fixed at 32. `MIN_SIZE_LOG2`, and with it `MIN_SIZE`, is a parameter of the table, because the class header is not part of this model. `HashId` is the table's `hashOf` function.
- Shapes are abstracted to their property id and their identity in the property tree. Property attributes, slots and getters/setters are not modelled.
- Allocation is the boolean `allocOk`. Memory accounting, the OOM report of `grow`, and freeing the old array in `change` are left out; the old array is simply dropped.
- `ShapeTableImpl.ShapeTable.Change` requires that the new size stays within 32 bits, has room for the entries, and is not below the minimum (`minSizeLog2 <= Log2() + log2Delta`), and that `log2Delta` is -1, 0 or 1. The source asserts the first. Its callers guarantee the others: `grow` passes 0 or 1 (Shape.cpp:306), and `removeProperty` passes -1 only when the size is above `MIN_SIZE` (Shape.cpp:1009-1010).
- `ShapeTableImpl.ShapeTable.Grow` requires doubling to stay within 32 bits, as the assertion in `change` demands.
- `ShapeTableImpl.ShapeTable.RemoveEntry` models only the table part of `removeProperty`. The dictionary list, the slot freeing, the table handoff, the spare shape and the checks limited to DEBUG builds are left out.
- The count fields are kept as upper bounds on the live and removed entries, because `addPropertyInternal`, which is not part of this model, reuses removed entries without decrementing `removedCount_`.

## Findings

| source | as written | input that shows it | evidently intended | confidence | as-written member | corrected member |
|---|---|---|---|---|---|---|
| src/third_party/mozjs-38/extract/js/src/jit/shared/MoveEmitter-x86-shared.cpp:415-422 | An effective-address source moved to memory without a scratch register is computed by pushing the base register, popping it into the destination and adding `from.disp()` untranslated. For a stack-pointer base, this omits the bytes the emitter has pushed since it began, which `toAddress` adds everywhere else. | On x86 without a scratch register: a double cycle xmm0 ← xmm1 ← xmm2 ← xmm0, which is broken through the 16-byte cycle slot, followed by a general move of the address `0(sp)` into `0(r1)`. The slot is still reserved, so the stored address is 16 bytes too low. | Add the translated displacement, `disp + framePushed - pushedAtStart`, as `toAddress(from)` would give. | medium; not executed | MoveEmitterFindings.AsWrittenMissesPushedBytes | MoveEmitterFindings.CorrectedStoresAddress |
