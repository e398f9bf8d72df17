/** The move emitter as functions of its state: for each routine of the x86
    move emitter, the instructions it appends to the assembler's log and the
    new stack bookkeeping.  The classes in MoveEmitterImpl are proved to do
    exactly this; the lemmas in MoveEmitterProofs prove the code correct. */
module MoveEmitterSpec {
  import opened MoveMachine
  import opened MoveOps

  /** The emitter's state together with the assembler's: the instruction log,
      the assembler's `framePushed`, the emitter's `pushedAtStart`, its
      `pushedAtCycle` (-1 while no cycle slot is reserved) and `inCycle`. */
  datatype EmitState = EmitState(code: seq<Inst>, framePushed: int, pushedAtStart: int,
                                 pushedAtCycle: int, inCycle: bool)

  /** The state right after construction: nothing reserved, no cycle open. */
  function Initial(code: seq<Inst>, framePushed: int): EmitState
  {
    EmitState(code, framePushed, framePushed, -1, false)
  }

  // ----------------------------------------------------------------------
  // Operand translation

  /** `toAddress`: a memory or address operand as an assembler address at
      the current depth.  Stack-pointer displacements grow by the bytes
      pushed since emission began, so the address names the same cell. */
  function ToAddress(op: MoveOperand, framePushed: int, pushedAtStart: int): (a: Operand)
    requires op.Memory? || op.EffectiveAddress?
    requires op.base == StackPointer ==> op.disp >= 0
    ensures a.Mem? && a.base == op.base
    ensures op.base != StackPointer ==> a == Mem(op.base, op.disp)
    ensures op.Memory? ==> CellOf(a, framePushed) == LogicalCell(op, pushedAtStart)
  {
    if op.base != StackPointer then Mem(op.base, op.disp)
    else Mem(StackPointer, op.disp + (framePushed - pushedAtStart))
  }

  /** `toOperand`: registers pass through, memory is translated. */
  function ToOperand(op: MoveOperand, framePushed: int, pushedAtStart: int): (o: Operand)
    requires (op.Memory? || op.EffectiveAddress?) && op.base == StackPointer ==> op.disp >= 0
    ensures !op.EffectiveAddress? ==> CellOf(o, framePushed) == LogicalCell(op, pushedAtStart)
    ensures op.GeneralReg? ==> o == Reg(op.reg)
    ensures op.FloatReg? ==> o == FReg(op.freg)
  {
    match op
    case GeneralReg(r) => Reg(r)
    case FloatReg(f) => FReg(f)
    case _ => ToAddress(op, framePushed, pushedAtStart)
  }

  /** `toPopOperand`: like `toOperand`, but for the destination of a pop,
      whose address the processor computes after the pop has released one
      pointer-sized slot. */
  function ToPopOperand(t: Target, op: MoveOperand, framePushed: int, pushedAtStart: int): (o: Operand)
    requires !op.EffectiveAddress?
    requires op.Memory? && op.base == StackPointer ==> op.disp >= 0
    ensures CellOf(o, framePushed - PointerSize(t)) == LogicalCell(op, pushedAtStart)
    ensures op.Memory? && op.base != StackPointer ==> o == Mem(op.base, op.disp)
    ensures op.Memory? && op.base == StackPointer ==>
              o.Mem? && o.disp == ToAddress(op, framePushed, pushedAtStart).disp - PointerSize(t)
  {
    match op
    case Memory(b, d) =>
      if b != StackPointer then Mem(b, d)
      else Mem(StackPointer, d + (framePushed - PointerSize(t) - pushedAtStart))
    case GeneralReg(r) => Reg(r)
    case FloatReg(f) => FReg(f)
  }

  // ----------------------------------------------------------------------
  // The cycle slot

  /** `cycleSlot`'s bookkeeping: the first call reserves 128 bits of stack
      and records the depth reached; later calls change nothing. */
  function WithSlot(s: EmitState): EmitState
  {
    if s.pushedAtCycle == -1 then
      s.(framePushed := s.framePushed + Simd128DataSize, pushedAtCycle := s.framePushed + Simd128DataSize)
    else s
  }

  /** The instruction `cycleSlot` emits: the reservation, the first time. */
  function SlotReserveCode(s: EmitState): seq<Inst>
  {
    if s.pushedAtCycle == -1 then [ReserveStack(Simd128DataSize)] else []
  }

  /** `cycleSlot`'s result, for the state after the reservation: the slot's
      address at the current depth. */
  function SlotAddress(s: EmitState): Operand
  {
    Mem(StackPointer, s.framePushed - s.pushedAtCycle)
  }

  // ----------------------------------------------------------------------
  // Plain moves: the code each routine emits at depth `fp`

  /** The assembler operations one width class uses for register moves,
      loads and stores. */
  datatype ClassOps = ClassOps(move: Opcode, load: Opcode, store: Opcode)

  function OpsFor(kind: MoveType): ClassOps
  {
    match kind
    case Int32 => ClassOps(Move32, Load32, Store32)
    case General => ClassOps(Mov, LoadPtr, Mov)
    case Float32 => ClassOps(MoveFloat32, LoadFloat32, StoreFloat32)
    case Double => ClassOps(MoveDouble, LoadDouble, StoreDouble)
    case Int32x4 => ClassOps(MoveInt32x4, LoadAlignedInt32x4, StoreAlignedInt32x4)
    case Float32x4 => ClassOps(MoveFloat32x4, LoadAlignedFloat32x4, StoreAlignedFloat32x4)
  }

  function RegOperand(op: MoveOperand): Operand
    requires op.GeneralReg? || op.FloatReg?
  {
    if op.GeneralReg? then Reg(op.reg) else FReg(op.freg)
  }

  /** `emitInt32Move`.  The pop's operand is computed one push deeper. */
  function Int32MoveCode(t: Target, fp: int, start: int, from: MoveOperand, to: MoveOperand): seq<Inst>
    requires ValidSource(t, Int32, from) && ValidDest(t, Int32, to)
  {
    if from.GeneralReg? then
      [Copy(Move32, Reg(from.reg), ToOperand(to, fp, start))]
    else if to.GeneralReg? then
      [Copy(Load32, ToAddress(from, fp, start), Reg(to.reg))]
    else if t.scratch.Some? then
      [Copy(Load32, ToAddress(from, fp, start), Reg(t.scratch.value)),
       Copy(Move32, Reg(t.scratch.value), ToOperand(to, fp, start))]
    else
      [Push(ToOperand(from, fp, start)), Pop(ToPopOperand(t, to, fp + PointerSize(t), start))]
  }

  /** `emitGeneralMove` as written.  Without a scratch register, an address
      source is computed by pushing its base register, popping it into the
      destination and adding the untranslated displacement. */
  function GeneralMoveCodeAsWritten(t: Target, fp: int, start: int, from: MoveOperand, to: MoveOperand): seq<Inst>
    requires ValidSource(t, General, from) && ValidDest(t, General, to)
  {
    if from.GeneralReg? then
      [Copy(Mov, Reg(from.reg), ToOperand(to, fp, start))]
    else if to.GeneralReg? then
      if from.Memory? then [Copy(LoadPtr, ToAddress(from, fp, start), Reg(to.reg))]
      else [Lea(ToOperand(from, fp, start), to.reg)]
    else if from.Memory? then
      if t.scratch.Some? then
        [Copy(LoadPtr, ToAddress(from, fp, start), Reg(t.scratch.value)),
         Copy(Mov, Reg(t.scratch.value), ToOperand(to, fp, start))]
      else
        [Push(ToOperand(from, fp, start)), Pop(ToPopOperand(t, to, fp + PointerSize(t), start))]
    else if t.scratch.Some? then
      [Lea(ToOperand(from, fp, start), t.scratch.value),
       Copy(Mov, Reg(t.scratch.value), ToOperand(to, fp, start))]
    else
      [Push(Reg(from.base)), Pop(ToPopOperand(t, to, fp + PointerSize(t), start)),
       AddPtr(from.disp, ToOperand(to, fp, start))]
  }

  /** `emitGeneralMove`, with the displacement added on the push/pop path
      taken from the translated address (`toAddress(from)`); this differs
      from the written code only for a stack-pointer base. */
  function GeneralMoveCode(t: Target, fp: int, start: int, from: MoveOperand, to: MoveOperand): seq<Inst>
    requires ValidSource(t, General, from) && ValidDest(t, General, to)
  {
    if !from.EffectiveAddress? || to.GeneralReg? || t.scratch.Some? then
      GeneralMoveCodeAsWritten(t, fp, start, from, to)
    else
      [Push(Reg(from.base)), Pop(ToPopOperand(t, to, fp + PointerSize(t), start)),
       AddPtr(ToAddress(from, fp, start).disp, ToOperand(to, fp, start))]
  }

  /** `emitFloat32Move`, `emitDoubleMove`, `emitInt32X4Move` and
      `emitFloat32X4Move`: one shape, each with its own class's operations,
      bouncing memory-to-memory moves through the float scratch register. */
  function FloatClassMoveCode(t: Target, fp: int, start: int, from: MoveOperand, to: MoveOperand, ops: ClassOps): seq<Inst>
    requires (from.FloatReg? || from.Memory?) && (to.FloatReg? || to.Memory?)
    requires from.Memory? ==> ValidAddress(t, from.base, from.disp)
    requires to.Memory? ==> ValidAddress(t, to.base, to.disp)
  {
    if from.FloatReg? then
      if to.FloatReg? then [Copy(ops.move, FReg(from.freg), FReg(to.freg))]
      else [Copy(ops.store, FReg(from.freg), ToAddress(to, fp, start))]
    else if to.FloatReg? then
      [Copy(ops.load, ToAddress(from, fp, start), FReg(to.freg))]
    else
      [Copy(ops.load, ToAddress(from, fp, start), FReg(t.scratchFloat)),
       Copy(ops.store, FReg(t.scratchFloat), ToAddress(to, fp, start))]
  }

  /** The switch of `emit` over the move's type. */
  function MoveCode(t: Target, fp: int, start: int, m: MoveOp): seq<Inst>
    requires ValidMove(t, m)
  {
    match m.kind
    case Int32 => Int32MoveCode(t, fp, start, m.from, m.to)
    case General => GeneralMoveCode(t, fp, start, m.from, m.to)
    case _ => FloatClassMoveCode(t, fp, start, m.from, m.to, OpsFor(m.kind))
  }

  /** A plain move appends its code; a push it makes is popped again, so
      the depth is unchanged afterwards. */
  function EmitMoveF(t: Target, s: EmitState, m: MoveOp): EmitState
    requires ValidMove(t, m)
  {
    s.(code := s.code + MoveCode(t, s.framePushed, s.pushedAtStart, m))
  }

  // ----------------------------------------------------------------------
  // Breaking and completing cycles

  /** The scratch register a slot-saved class bounces memory through. */
  function ScratchFor(t: Target, kind: MoveType): Operand
    requires kind == Int32 ==> t.scratch.Some?
  {
    if kind == Int32 then Reg(t.scratch.value) else FReg(t.scratchFloat)
  }

  /** The code of `breakCycle`: save the value the cycle's first move will
      overwrite, by a push or into the cycle slot (reserving it first if
      need be). */
  function BreakCycleCode(t: Target, s: EmitState, to: MoveOperand, kind: MoveType): seq<Inst>
    requires ValidTarget(t) && ValidDest(t, kind, to)
  {
    var fp, start := s.framePushed, s.pushedAtStart;
    if UsesPush(t, kind) then [Push(ToOperand(to, fp, start))]
    else
      var ops := OpsFor(kind);
      var slot := SlotAddress(WithSlot(s));
      if to.Memory? then
        [Copy(ops.load, ToAddress(to, fp, start), ScratchFor(t, kind))] + SlotReserveCode(s)
        + [Copy(ops.store, ScratchFor(t, kind), slot)]
      else
        SlotReserveCode(s) + [Copy(ops.store, RegOperand(to), slot)]
  }

  /** `breakCycle`. */
  function BreakCycleF(t: Target, s: EmitState, to: MoveOperand, kind: MoveType): EmitState
    requires ValidTarget(t) && ValidDest(t, kind, to)
  {
    var s1 := if UsesPush(t, kind) then s.(framePushed := s.framePushed + PointerSize(t)) else WithSlot(s);
    s1.(code := s.code + BreakCycleCode(t, s, to, kind))
  }

  /** The code of `completeCycle`: move the saved value into the cycle's
      last destination, by a pop or out of the cycle slot. */
  function CompleteCycleCode(t: Target, s: EmitState, to: MoveOperand, kind: MoveType): seq<Inst>
    requires ValidTarget(t) && ValidDest(t, kind, to)
  {
    var fp, start := s.framePushed, s.pushedAtStart;
    if UsesPush(t, kind) then [Pop(ToPopOperand(t, to, fp, start))]
    else
      var ops := OpsFor(kind);
      var s1 := WithSlot(s);
      if to.Memory? then
        SlotReserveCode(s) + [Copy(ops.load, SlotAddress(s1), ScratchFor(t, kind)),
                              Copy(ops.store, ScratchFor(t, kind), ToAddress(to, s1.framePushed, start))]
      else
        SlotReserveCode(s) + [Copy(ops.load, SlotAddress(s1), RegOperand(to))]
  }

  /** `completeCycle`. */
  function CompleteCycleF(t: Target, s: EmitState, to: MoveOperand, kind: MoveType): EmitState
    requires ValidTarget(t) && ValidDest(t, kind, to)
  {
    var s1 := if UsesPush(t, kind) then s.(framePushed := s.framePushed - PointerSize(t)) else WithSlot(s);
    s1.(code := s.code + CompleteCycleCode(t, s, to, kind))
  }

  // ----------------------------------------------------------------------
  // Characterizing and optimizing cycles

  /** The result of `characterizeCycle`: the hop count (-1 when the cycle
      cannot be optimized) and the two uniform-class flags. */
  datatype CycleShape = CycleShape(swapCount: int, allGeneralRegs: bool, allFloatRegs: bool)

  /** Every move in positions [i, e] writes a general register. */
  predicate AllGeneralDest(moves: seq<MoveOp>, i: nat, e: nat)
    requires i <= e < |moves|
  {
    forall j | i <= j <= e :: moves[j].to.GeneralReg?
  }

  /** Every move in positions [i, e] writes a float register. */
  predicate AllFloatDest(moves: seq<MoveOp>, i: nat, e: nat)
    requires i <= e < |moves|
  {
    forall j | i <= j <= e :: moves[j].to.FloatReg?
  }

  /** What `characterizeCycle` computes, stated directly: for the cycle from
      `i` to the first later end move `e`, the hop count `e - i` if all
      destinations are of one register class and the moves form a closed
      chain; otherwise -1 and both flags false. */
  function CharacterizeSpec(moves: seq<MoveOp>, i: nat): (c: CycleShape)
    requires i < |moves| && HasEndFrom(moves, i + 1)
    ensures c.swapCount == -1 || c.swapCount == FirstEndFrom(moves, i + 1) - i
    ensures c.swapCount == -1 ==> !c.allGeneralRegs && !c.allFloatRegs
    ensures c.swapCount != -1 ==> c.allGeneralRegs || c.allFloatRegs
  {
    var e := FirstEndFrom(moves, i + 1);
    var gen := AllGeneralDest(moves, i, e);
    var flt := AllFloatDest(moves, i, e);
    if (gen || flt) && Chained(moves, i, e) then CycleShape(e - i, gen, flt)
    else CycleShape(-1, false, false)
  }

  /** The condition under which `maybeEmitOptimizedCycle` emits code. */
  predicate OptimizedApplies(allGeneralRegs: bool, allFloatRegs: bool, swapCount: int)
  {
    (allGeneralRegs && swapCount <= 2) || (allFloatRegs && swapCount == 1)
  }

  /** The exchanges between consecutive destinations i+k and i+k+1, k < n. */
  function XchgChain(moves: seq<MoveOp>, i: nat, n: nat): (code: seq<Inst>)
    requires i + n < |moves| && AllGeneralDest(moves, i, i + n)
    ensures |code| == n
    ensures forall k | 0 <= k < n :: code[k] == Xchg(moves[i + k].to.reg, moves[i + k + 1].to.reg)
  {
    if n == 0 then [] else XchgChain(moves, i, n - 1) + [Xchg(moves[i + n - 1].to.reg, moves[i + n].to.reg)]
  }

  /** The XOR swap of two float registers a and b. */
  function XorSwapCode(a: nat, b: nat): seq<Inst>
  {
    [Vxorpd(a, b, b), Vxorpd(b, a, a), Vxorpd(a, b, b)]
  }

  /** The code `maybeEmitOptimizedCycle` emits when it applies. */
  function OptimizedCode(moves: seq<MoveOp>, i: nat, c: CycleShape): seq<Inst>
    requires 0 <= c.swapCount && i + c.swapCount < |moves|
    requires OptimizedApplies(c.allGeneralRegs, c.allFloatRegs, c.swapCount)
    requires c.allGeneralRegs ==> AllGeneralDest(moves, i, i + c.swapCount)
    requires c.allFloatRegs ==> AllFloatDest(moves, i, i + c.swapCount)
  {
    if c.allGeneralRegs && c.swapCount <= 2 then XchgChain(moves, i, c.swapCount)
    else XorSwapCode(moves[i].to.freg, moves[i + 1].to.freg)
  }

  // ----------------------------------------------------------------------
  // The emission driver

  /** One iteration of `emit`'s loop at move `i`: where the loop goes on and
      the new state.  An optimized cycle is done in one go, and the loop
      resumes after its last move. */
  function EmitStep(t: Target, moves: seq<MoveOp>, i: nat, s: EmitState): (r: (nat, EmitState))
    requires ValidTarget(t) && i < |moves| && WellPlaced(t, moves, i)
    ensures i < r.0 <= |moves|
  {
    var m := moves[i];
    if m.cycleEnd then
      (i + 1, CompleteCycleF(t, s, m.to, m.kind).(inCycle := false))
    else if m.cycleBegin then
      var c := CharacterizeSpec(moves, i);
      if OptimizedApplies(c.allGeneralRegs, c.allFloatRegs, c.swapCount) then
        (i + c.swapCount + 1, s.(code := s.code + OptimizedCode(moves, i, c)))
      else
        (i + 1, EmitMoveF(t, BreakCycleF(t, s, m.to, m.endCycleType).(inCycle := true), m))
    else
      (i + 1, EmitMoveF(t, s, m))
  }

  /** `emit`, from position `i` on. */
  function EmitFrom(t: Target, moves: seq<MoveOp>, i: nat, s: EmitState): EmitState
    requires ValidTarget(t) && WellFormed(t, moves) && i <= |moves|
    decreases |moves| - i
  {
    if i == |moves| then s
    else
      assert WellPlaced(t, moves, i);
      var (j, s1) := EmitStep(t, moves, i, s);
      EmitFrom(t, moves, j, s1)
  }

  /** `finish`: release everything pushed since construction. */
  function FinishF(s: EmitState): EmitState
    requires s.framePushed >= s.pushedAtStart
  {
    s.(code := s.code + [FreeStack(s.framePushed - s.pushedAtStart)], framePushed := s.pushedAtStart)
  }
}
