/** The x86/x64 move emitter as a class over a macro assembler.  Every method
    changes the emitter and the assembler exactly as the corresponding
    function of MoveEmitterSpec says, so the correctness lemmas of
    MoveEmitterProofs apply to the code these methods produce. */
module MoveEmitterImpl {
  import opened MoveMachine
  import opened MoveOps
  import opened MoveEmitterSpec

  /** The macro assembler as the emitter sees it: the log of instructions it
      has been asked to emit and its count of bytes pushed.  `Push`, `Pop`,
      `reserveStack` and `freeStack` keep that count. */
  class Assembler {
    var code: seq<Inst>
    var framePushed: int
    const pointerSize: nat

    constructor(code0: seq<Inst>, framePushed0: int, pointerSize: nat)
      ensures code == code0 && framePushed == framePushed0 && this.pointerSize == pointerSize
    {
      code := code0;
      framePushed := framePushed0;
      this.pointerSize := pointerSize;
    }

    /** An instruction that leaves the stack depth alone. */
    method Append(inst: Inst)
      requires !inst.Push? && !inst.Pop? && !inst.ReserveStack? && !inst.FreeStack?
      modifies this
      ensures code == old(code) + [inst] && framePushed == old(framePushed)
    {
      code := code + [inst];
    }

    method Push(src: Operand)
      modifies this
      ensures code == old(code) + [Inst.Push(src)] && framePushed == old(framePushed) + pointerSize
    {
      code := code + [Inst.Push(src)];
      framePushed := framePushed + pointerSize;
    }

    method Pop(dst: Operand)
      modifies this
      ensures code == old(code) + [Inst.Pop(dst)] && framePushed == old(framePushed) - pointerSize
    {
      code := code + [Inst.Pop(dst)];
      framePushed := framePushed - pointerSize;
    }

    method ReserveStack(amount: nat)
      modifies this
      ensures code == old(code) + [Inst.ReserveStack(amount)] && framePushed == old(framePushed) + amount
    {
      code := code + [Inst.ReserveStack(amount)];
      framePushed := framePushed + amount;
    }

    method FreeStack(amount: nat)
      modifies this
      ensures code == old(code) + [Inst.FreeStack(amount)] && framePushed == old(framePushed) - amount
    {
      code := code + [Inst.FreeStack(amount)];
      framePushed := framePushed - amount;
    }
  }

  /** The loop of `characterizeCycle`: walks the cycle that starts at `i`,
      clearing a class flag at the first destination outside the class and
      giving up when neither class is left or a move does not feed the next;
      at the end move it checks that the cycle closes.  The flags start set,
      as the caller in `emit` initializes them. */
  method CharacterizeCycle(moves: seq<MoveOp>, i: nat) returns (swapCount: int, allGeneralRegs: bool, allFloatRegs: bool)
    requires i < |moves| && HasEndFrom(moves, i + 1)
    ensures CycleShape(swapCount, allGeneralRegs, allFloatRegs) == CharacterizeSpec(moves, i)
  {
    ghost var e := FirstEndFrom(moves, i + 1);
    allGeneralRegs, allFloatRegs := true, true;
    swapCount := 0;
    var j := i;
    while true
      invariant i <= j <= e && swapCount == j - i
      invariant allGeneralRegs == (forall k | i <= k < j :: moves[k].to.GeneralReg?)
      invariant allFloatRegs == (forall k | i <= k < j :: moves[k].to.FloatReg?)
      invariant allGeneralRegs || allFloatRegs
      invariant forall k | i <= k < j :: moves[k].from == moves[k + 1].to
      decreases e - j
    {
      var move := moves[j];
      if !move.to.GeneralReg? {
        allGeneralRegs := false;
      }
      if !move.to.FloatReg? {
        allFloatRegs := false;
      }
      if !allGeneralRegs && !allFloatRegs {
        assert !AllGeneralDest(moves, i, e) && !AllFloatDest(moves, i, e);
        return -1, allGeneralRegs, allFloatRegs;
      }
      if j != i && move.cycleEnd {
        break;
      }
      if move.from != moves[j + 1].to {
        assert !Chained(moves, i, e);
        return -1, false, false;
      }
      swapCount := swapCount + 1;
      j := j + 1;
    }
    assert j == e;
    if moves[i + swapCount].from != moves[i].to {
      assert !Chained(moves, i, e);
      return -1, false, false;
    }
    assert AllGeneralDest(moves, i, e) == allGeneralRegs && AllFloatDest(moves, i, e) == allFloatRegs;
  }

  class MoveEmitterX86 {
    const masm: Assembler
    const target: Target
    var inCycle: bool
    var pushedAtStart: int
    var pushedAtCycle: int

    /** The emitter's and the assembler's state together. */
    function State(): EmitState
      reads this, masm
    {
      EmitState(masm.code, masm.framePushed, pushedAtStart, pushedAtCycle, inCycle)
    }

    /** Records the depth emission starts at; no cycle slot, no open cycle. */
    constructor(masm: Assembler, target: Target)
      ensures this.masm == masm && this.target == target
      ensures State() == Initial(masm.code, masm.framePushed)
    {
      this.masm := masm;
      this.target := target;
      inCycle := false;
      pushedAtCycle := -1;
      pushedAtStart := masm.framePushed;
    }

    /** `maybeEmitOptimizedCycle`: a short cycle of one register class is
        done with exchanges or the XOR swap, and nothing else is emitted. */
    method MaybeEmitOptimizedCycle(moves: seq<MoveOp>, i: nat, allGeneralRegs: bool, allFloatRegs: bool,
                                   swapCount: int) returns (done: bool)
      requires i < |moves| && HasEndFrom(moves, i + 1)
      requires CycleShape(swapCount, allGeneralRegs, allFloatRegs) == CharacterizeSpec(moves, i)
      modifies masm
      ensures done == OptimizedApplies(allGeneralRegs, allFloatRegs, swapCount)
      ensures done ==> masm.code == old(masm.code) + OptimizedCode(moves, i, CharacterizeSpec(moves, i))
      ensures !done ==> masm.code == old(masm.code)
      ensures masm.framePushed == old(masm.framePushed)
    {
      if allGeneralRegs && swapCount <= 2 {
        for k := 0 to swapCount
          invariant masm.code == old(masm.code) + XchgChain(moves, i, k)
          invariant masm.framePushed == old(masm.framePushed)
        {
          masm.Append(Xchg(moves[i + k].to.reg, moves[i + k + 1].to.reg));
        }
        return true;
      }
      if allFloatRegs && swapCount == 1 {
        var a, b := moves[i].to.freg, moves[i + 1].to.freg;
        masm.Append(Vxorpd(a, b, b));
        masm.Append(Vxorpd(b, a, a));
        masm.Append(Vxorpd(a, b, b));
        return true;
      }
      return false;
    }

    /** `cycleSlot`: reserves the 128-bit slot on first use and yields its
        address at the current depth. */
    method CycleSlot() returns (slot: Operand)
      modifies this, masm
      ensures State() == WithSlot(old(State())).(code := old(masm.code) + SlotReserveCode(old(State())))
      ensures slot == SlotAddress(State())
    {
      if pushedAtCycle == -1 {
        masm.ReserveStack(Simd128DataSize);
        pushedAtCycle := masm.framePushed;
      }
      return Mem(StackPointer, masm.framePushed - pushedAtCycle);
    }

    /** `breakCycle` for the cycle's first destination `to` and the type of
        the cycle's last move. */
    method BreakCycle(to: MoveOperand, kind: MoveType)
      requires ValidTarget(target) && ValidDest(target, kind, to)
      requires masm.pointerSize == PointerSize(target)
      modifies this, masm
      ensures State() == BreakCycleF(target, old(State()), to, kind)
    {
      if UsesPush(target, kind) {
        masm.Push(ToOperand(to, masm.framePushed, pushedAtStart));
      } else {
        ghost var s0 := State();
        var ops := OpsFor(kind);
        if to.Memory? {
          masm.Append(Copy(ops.load, ToAddress(to, masm.framePushed, pushedAtStart), ScratchFor(target, kind)));
          var slot := CycleSlot();
          masm.Append(Copy(ops.store, ScratchFor(target, kind), slot));
          assert masm.code == s0.code + BreakCycleCode(target, s0, to, kind);
        } else {
          var slot := CycleSlot();
          masm.Append(Copy(ops.store, RegOperand(to), slot));
          assert masm.code == s0.code + BreakCycleCode(target, s0, to, kind);
        }
      }
    }

    /** `completeCycle` for the cycle's last destination `to`. */
    method CompleteCycle(to: MoveOperand, kind: MoveType)
      requires ValidTarget(target) && ValidDest(target, kind, to)
      requires masm.pointerSize == PointerSize(target)
      modifies this, masm
      ensures State() == CompleteCycleF(target, old(State()), to, kind)
    {
      if UsesPush(target, kind) {
        masm.Pop(ToPopOperand(target, to, masm.framePushed, pushedAtStart));
      } else {
        ghost var s0 := State();
        var ops := OpsFor(kind);
        var slot := CycleSlot();
        ghost var s1 := State();
        assert s1.framePushed == WithSlot(s0).framePushed && s1.code == s0.code + SlotReserveCode(s0);
        if to.Memory? {
          masm.Append(Copy(ops.load, slot, ScratchFor(target, kind)));
          masm.Append(Copy(ops.store, ScratchFor(target, kind), ToAddress(to, masm.framePushed, pushedAtStart)));
          assert masm.code == s0.code + CompleteCycleCode(target, s0, to, kind);
        } else {
          masm.Append(Copy(ops.load, slot, RegOperand(to)));
          assert masm.code == s0.code + CompleteCycleCode(target, s0, to, kind);
        }
      }
    }

    /** `emitInt32Move`. */
    method EmitInt32Move(from: MoveOperand, to: MoveOperand)
      requires ValidSource(target, Int32, from) && ValidDest(target, Int32, to)
      requires masm.pointerSize == PointerSize(target)
      modifies masm
      ensures masm.code == old(masm.code) + Int32MoveCode(target, old(masm.framePushed), pushedAtStart, from, to)
      ensures masm.framePushed == old(masm.framePushed)
    {
      if from.GeneralReg? {
        masm.Append(Copy(Move32, Reg(from.reg), ToOperand(to, masm.framePushed, pushedAtStart)));
      } else if to.GeneralReg? {
        masm.Append(Copy(Load32, ToAddress(from, masm.framePushed, pushedAtStart), Reg(to.reg)));
      } else if target.scratch.Some? {
        var reg := target.scratch.value;
        masm.Append(Copy(Load32, ToAddress(from, masm.framePushed, pushedAtStart), Reg(reg)));
        masm.Append(Copy(Move32, Reg(reg), ToOperand(to, masm.framePushed, pushedAtStart)));
      } else {
        masm.Push(ToOperand(from, masm.framePushed, pushedAtStart));
        masm.Pop(ToPopOperand(target, to, masm.framePushed, pushedAtStart));
      }
    }

    /** `emitGeneralMove`, with the displacement of an address source taken
        from its translated address on the path without a scratch register. */
    method EmitGeneralMove(from: MoveOperand, to: MoveOperand)
      requires ValidSource(target, General, from) && ValidDest(target, General, to)
      requires masm.pointerSize == PointerSize(target)
      modifies masm
      ensures masm.code == old(masm.code) + GeneralMoveCode(target, old(masm.framePushed), pushedAtStart, from, to)
      ensures masm.framePushed == old(masm.framePushed)
    {
      if from.GeneralReg? {
        masm.Append(Copy(Mov, Reg(from.reg), ToOperand(to, masm.framePushed, pushedAtStart)));
      } else if to.GeneralReg? {
        if from.Memory? {
          masm.Append(Copy(LoadPtr, ToAddress(from, masm.framePushed, pushedAtStart), Reg(to.reg)));
        } else {
          masm.Append(Lea(ToOperand(from, masm.framePushed, pushedAtStart), to.reg));
        }
      } else if from.Memory? {
        if target.scratch.Some? {
          var reg := target.scratch.value;
          masm.Append(Copy(LoadPtr, ToAddress(from, masm.framePushed, pushedAtStart), Reg(reg)));
          masm.Append(Copy(Mov, Reg(reg), ToOperand(to, masm.framePushed, pushedAtStart)));
        } else {
          masm.Push(ToOperand(from, masm.framePushed, pushedAtStart));
          masm.Pop(ToPopOperand(target, to, masm.framePushed, pushedAtStart));
        }
      } else if target.scratch.Some? {
        var reg := target.scratch.value;
        masm.Append(Lea(ToOperand(from, masm.framePushed, pushedAtStart), reg));
        masm.Append(Copy(Mov, Reg(reg), ToOperand(to, masm.framePushed, pushedAtStart)));
      } else {
        var disp := ToAddress(from, masm.framePushed, pushedAtStart).disp;
        masm.Push(Reg(from.base));
        masm.Pop(ToPopOperand(target, to, masm.framePushed, pushedAtStart));
        masm.Append(AddPtr(disp, ToOperand(to, masm.framePushed, pushedAtStart)));
      }
    }

    /** `emitFloat32Move`, `emitDoubleMove`, `emitInt32X4Move` and
        `emitFloat32X4Move`, with the class's operations `ops`. */
    method EmitFloatClassMove(from: MoveOperand, to: MoveOperand, ops: ClassOps)
      requires (from.FloatReg? || from.Memory?) && (to.FloatReg? || to.Memory?)
      requires from.Memory? ==> ValidAddress(target, from.base, from.disp)
      requires to.Memory? ==> ValidAddress(target, to.base, to.disp)
      modifies masm
      ensures masm.code == old(masm.code) + FloatClassMoveCode(target, old(masm.framePushed), pushedAtStart, from, to, ops)
      ensures masm.framePushed == old(masm.framePushed)
    {
      if from.FloatReg? {
        if to.FloatReg? {
          masm.Append(Copy(ops.move, FReg(from.freg), FReg(to.freg)));
        } else {
          masm.Append(Copy(ops.store, FReg(from.freg), ToAddress(to, masm.framePushed, pushedAtStart)));
        }
      } else if to.FloatReg? {
        masm.Append(Copy(ops.load, ToAddress(from, masm.framePushed, pushedAtStart), FReg(to.freg)));
      } else {
        masm.Append(Copy(ops.load, ToAddress(from, masm.framePushed, pushedAtStart), FReg(target.scratchFloat)));
        masm.Append(Copy(ops.store, FReg(target.scratchFloat), ToAddress(to, masm.framePushed, pushedAtStart)));
      }
    }

    /** The switch of `emit` over the move's type. */
    method EmitMove(move: MoveOp)
      requires ValidTarget(target) && ValidMove(target, move)
      requires masm.pointerSize == PointerSize(target)
      modifies masm
      ensures State() == EmitMoveF(target, old(State()), move)
    {
      match move.kind
      case Int32 => EmitInt32Move(move.from, move.to);
      case General => EmitGeneralMove(move.from, move.to);
      case _ => EmitFloatClassMove(move.from, move.to, OpsFor(move.kind));
    }

    /** `emit`: one pass over the resolved moves. */
    method Emit(moves: seq<MoveOp>)
      requires ValidTarget(target) && WellFormed(target, moves)
      requires masm.pointerSize == PointerSize(target)
      modifies this, masm
      ensures State() == EmitFrom(target, moves, 0, old(State()))
    {
      var i := 0;
      while i < |moves|
        invariant i <= |moves|
        invariant EmitFrom(target, moves, i, State()) == EmitFrom(target, moves, 0, old(State()))
        decreases |moves| - i
      {
        assert WellPlaced(target, moves, i);
        i := EmitAt(moves, i);
      }
    }

    /** One iteration of the loop of `emit`: the move at `i`, or the whole
        cycle starting there when it is swapped in place. */
    method EmitAt(moves: seq<MoveOp>, i: nat) returns (next: nat)
      requires ValidTarget(target) && WellFormed(target, moves) && i < |moves| && WellPlaced(target, moves, i)
      requires masm.pointerSize == PointerSize(target)
      modifies this, masm
      ensures (next, State()) == EmitStep(target, moves, i, old(State()))
    {
      var move := moves[i];
      if move.cycleEnd {
        CompleteCycle(move.to, move.kind);
        inCycle := false;
        return i + 1;
      }
      if move.cycleBegin {
        var swapCount, allGeneralRegs, allFloatRegs := CharacterizeCycle(moves, i);
        var done := MaybeEmitOptimizedCycle(moves, i, allGeneralRegs, allFloatRegs, swapCount);
        if done {
          return i + swapCount + 1;
        }
        BreakCycle(move.to, move.endCycleType);
        inCycle := true;
      }
      EmitMove(move);
      next := i + 1;
    }

    /** `finish`: with no cycle open, releases everything pushed since
        construction. */
    method Finish()
      requires !inCycle && masm.framePushed >= pushedAtStart
      modifies masm
      ensures State() == FinishF(old(State()))
    {
      masm.FreeStack(masm.framePushed - pushedAtStart);
    }
  }
}
