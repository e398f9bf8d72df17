/** A discrepancy in `emitGeneralMove`: on x86, with no scratch register, a
    move of a stack-pointer-based address into memory adds the displacement
    the register allocator gave, without the bytes the emitter itself has
    pushed since it began.  The cycle slot is such a push, and it stays
    reserved until `finish`, so the move after a broken float cycle computes
    an address 16 bytes too low. */
module MoveEmitterFindings {
  import opened MoveMachine
  import opened MoveOps
  import opened MoveEmitterSpec
  import opened MoveEmitterProofs

  /** x86 without a scratch general register; xmm7 is the float scratch. */
  const X86NoScratch: Target := Target(false, None, 7)

  /** The address of the stack cell the move list calls `0(sp)`. */
  const StackAddress: MoveOperand := EffectiveAddress(StackPointer, 0)

  /** A heap word addressed off register 1. */
  const HeapWord: MoveOperand := Memory(1, 0)

  /** A three-register cycle of doubles xmm0 <- xmm1 <- xmm2 <- xmm0, which is
      broken through the cycle slot, followed by `HeapWord := StackAddress`. */
  function Example(): seq<MoveOp>
  {
    [MoveOp(FloatReg(1), FloatReg(0), Double, true, false, Double),
     MoveOp(FloatReg(2), FloatReg(1), Double, false, false, Double),
     MoveOp(FloatReg(0), FloatReg(2), Double, false, true, Double),
     MoveOp(StackAddress, HeapWord, General, false, false, General)]
  }

  lemma ExampleWellFormed()
    ensures WellFormed(X86NoScratch, Example())
  {
    var t, moves := X86NoScratch, Example();
    assert InCycleBefore(moves, 1) && InCycleBefore(moves, 2);
    assert !InCycleBefore(moves, 3) && !InCycleBefore(moves, 4);
    assert FirstEndFrom(moves, 1) == 2;
    forall i | 0 <= i < |moves| ensures WellPlaced(t, moves, i) {
    }
  }

  /** When the emitter reaches the last move of `Example`, the cycle slot is
      still reserved: the stack is 16 bytes deeper than at the start, and
      the code for that move is emitted at that depth. */
  lemma SlotOutlivesCycle()
    ensures WellFormed(X86NoScratch, Example())
    ensures var s := EmitFrom(X86NoScratch, Example(), 0, Initial([], 0));
            && s.pushedAtStart == 0 && s.framePushed == Simd128DataSize
            && |s.code| >= 3
            && s.code[|s.code| - 3..] == GeneralMoveCode(X86NoScratch, Simd128DataSize, 0, StackAddress, HeapWord)
  {
    var t, moves := X86NoScratch, Example();
    ExampleWellFormed();
    assert WellPlaced(t, moves, 0) && WellPlaced(t, moves, 1);
    assert WellPlaced(t, moves, 2) && WellPlaced(t, moves, 3);
    var s0 := Initial([], 0);
    assert FirstEndFrom(moves, 1) == 2;
    var c := CharacterizeSpec(moves, 0);
    assert !OptimizedApplies(c.allGeneralRegs, c.allFloatRegs, c.swapCount);
    var s1 := EmitMoveF(t, BreakCycleF(t, s0, moves[0].to, Double).(inCycle := true), moves[0]);
    assert EmitStep(t, moves, 0, s0) == (1, s1);
    assert s1.framePushed == 16 && s1.pushedAtCycle == 16;
    var s2 := EmitMoveF(t, s1, moves[1]);
    assert EmitStep(t, moves, 1, s1) == (2, s2);
    var s3 := CompleteCycleF(t, s2, moves[2].to, Double).(inCycle := false);
    assert EmitStep(t, moves, 2, s2) == (3, s3);
    assert s3.framePushed == 16 && s3.pushedAtStart == 0;
    var s4 := EmitMoveF(t, s3, moves[3]);
    assert EmitStep(t, moves, 3, s3) == (4, s4);
    assert EmitFrom(t, moves, 0, s0) == s4;
    assert s4.code[|s4.code| - 3..] == MoveCode(t, 16, 0, moves[3]);
  }

  /** As written, the final move stores the address 16 bytes below the one
      the move list means, on every machine at that depth. */
  lemma AsWrittenMissesPushedBytes(m: Machine)
    requires m.depth == Simd128DataSize
    ensures var code := GeneralMoveCodeAsWritten(X86NoScratch, Simd128DataSize, 0, StackAddress, HeapWord);
            && Read(Run(PointerSize(X86NoScratch), code, m).cells, Heap(1, 0)) == m.top - Simd128DataSize
            && RefSource(RefState(m.cells, 0, m.top), StackAddress, 0) == m.top
  {
    var t := X86NoScratch;
    var code := GeneralMoveCodeAsWritten(t, Simd128DataSize, 0, StackAddress, HeapWord);
    Run3(PointerSize(t), code[0], code[1], code[2], m);
  }

  /** With the displacement translated, the same move stores the address
      the move list means. */
  lemma CorrectedStoresAddress(m: Machine)
    requires m.depth == Simd128DataSize
    ensures var code := GeneralMoveCode(X86NoScratch, Simd128DataSize, 0, StackAddress, HeapWord);
            Read(Run(PointerSize(X86NoScratch), code, m).cells, Heap(1, 0)) == m.top
  {
    var t := X86NoScratch;
    var code := GeneralMoveCode(t, Simd128DataSize, 0, StackAddress, HeapWord);
    Run3(PointerSize(t), code[0], code[1], code[2], m);
  }
}
