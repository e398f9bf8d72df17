/** Correctness of the move emitter: running the instructions it appends on
    the machine of MoveMachine has the effect the move list describes
    (MoveOps.RefRun) on every user cell, and for a list in the resolver's
    order the parallel assignment (MoveParallel.Parallel); it returns the
    stack to its starting depth and reserves at most one cycle slot. */
module MoveEmitterProofs {
  import opened MoveMachine
  import opened MoveOps
  import opened MoveEmitterSpec
  import opened MoveParallel

  // ----------------------------------------------------------------------
  // The simulation relation

  /** The cells whose contents must survive a move: the user cells and the
      emitter's own stack area, between the starting depth and now. */
  ghost predicate Kept(t: Target, s: EmitState, c: Cell)
  {
    UserCell(t, s.pushedAtStart, c) || (c.Stack? && -s.framePushed <= c.offset < -s.pushedAtStart)
  }

  /** Machine `m` stands for reference state `r` at emitter state `s`. */
  ghost predicate Frame(t: Target, s: EmitState, m: Machine, r: RefState)
  {
    && m.depth == s.framePushed
    && s.framePushed >= s.pushedAtStart >= 0
    && m.top == r.top
    && Agree(t, s.pushedAtStart, m.cells, r.cells)
  }

  /** Going from `m` to `m2` left the emitter's own stack area alone. */
  ghost predicate Preserves(s: EmitState, m: Machine, m2: Machine)
  {
    forall k | -s.framePushed <= k < -s.pushedAtStart :: Read(m2.cells, Stack(k)) == Read(m.cells, Stack(k))
  }

  /** The depth with no cycle value outstanding: the start, plus the cycle
      slot once it is reserved. */
  function Base(s: EmitState): int
  {
    s.pushedAtStart + (if s.pushedAtCycle == -1 then 0 else Simd128DataSize)
  }

  /** Where a cycle of type `kind` keeps its saved value `v`: on top of the
      stack when it was pushed, otherwise in the cycle slot. */
  ghost predicate SavedAt(t: Target, s: EmitState, kind: MoveType, m: Machine, v: Val)
  {
    if UsesPush(t, kind) then
      s.framePushed == Base(s) + PointerSize(t) && Read(m.cells, Stack(-s.framePushed)) == v
    else
      s.pushedAtCycle != -1 && s.framePushed == Base(s) && Read(m.cells, Stack(-s.pushedAtCycle)) == v
  }

  /** The effect of a plain move on the reference state. */
  function Assign(r: RefState, from: MoveOperand, to: MoveOperand, start: int): RefState
    requires !to.EffectiveAddress?
  {
    r.(cells := r.cells[LogicalCell(to, start) := RefSource(r, from, start)])
  }

  // ----------------------------------------------------------------------
  // Helpers

  lemma UserDest(t: Target, kind: MoveType, op: MoveOperand, start: int)
    requires ValidDest(t, kind, op)
    ensures UserCell(t, start, LogicalCell(op, start))
  {
  }

  /** A translated source operand yields the value the move list means. */
  lemma SourceValue(t: Target, s: EmitState, m: Machine, r: RefState, kind: MoveType, op: MoveOperand)
    requires Frame(t, s, m, r) && ValidSource(t, kind, op)
    ensures !op.EffectiveAddress? ==>
              ValueOf(m, ToOperand(op, s.framePushed, s.pushedAtStart)) == RefSource(r, op, s.pushedAtStart)
    ensures op.Memory? ==>
              ValueOf(m, ToAddress(op, s.framePushed, s.pushedAtStart)) == RefSource(r, op, s.pushedAtStart)
    ensures op.EffectiveAddress? ==>
              AddressOf(m, ToOperand(op, s.framePushed, s.pushedAtStart)) == RefSource(r, op, s.pushedAtStart)
  {
    var start := s.pushedAtStart;
    if !op.EffectiveAddress? {
      UserDest(t, kind, op, start);
      assert Read(m.cells, LogicalCell(op, start)) == Read(r.cells, LogicalCell(op, start));
    } else if op.base != StackPointer {
      assert UserCell(t, start, GPR(op.base));
      assert Read(m.cells, GPR(op.base)) == Read(r.cells, GPR(op.base));
    }
  }

  /** Closing argument of every plain move: only `dst` changed among the
      cells that matter, and it now holds `v`. */
  lemma Conclude(t: Target, s: EmitState, m: Machine, m2: Machine, r: RefState, dst: Cell, v: Val)
    requires Frame(t, s, m, r) && UserCell(t, s.pushedAtStart, dst)
    requires m2.depth == m.depth && m2.top == m.top && Read(m2.cells, dst) == v
    requires forall c :: c != dst && Kept(t, s, c) ==> Read(m2.cells, c) == Read(m.cells, c)
    ensures Frame(t, s, m2, r.(cells := r.cells[dst := v])) && Preserves(s, m, m2)
  {
    var r2 := r.(cells := r.cells[dst := v]);
    forall c | UserCell(t, s.pushedAtStart, c)
      ensures Read(m2.cells, c) == Read(r2.cells, c)
    {
      if c != dst {
        assert Kept(t, s, c);
      }
    }
    forall k | -s.framePushed <= k < -s.pushedAtStart
      ensures Read(m2.cells, Stack(k)) == Read(m.cells, Stack(k))
    {
      assert Kept(t, s, Stack(k));
    }
  }

  // ----------------------------------------------------------------------
  // Plain moves

  lemma Int32MoveCorrect(t: Target, s: EmitState, from: MoveOperand, to: MoveOperand, m: Machine, r: RefState)
    requires ValidTarget(t) && ValidSource(t, Int32, from) && ValidDest(t, Int32, to) && Frame(t, s, m, r)
    ensures var m2 := Run(PointerSize(t), Int32MoveCode(t, s.framePushed, s.pushedAtStart, from, to), m);
            Frame(t, s, m2, Assign(r, from, to, s.pushedAtStart)) && Preserves(s, m, m2)
  {
    var P, start, fp := PointerSize(t), s.pushedAtStart, s.framePushed;
    UserDest(t, Int32, to, start);
    SourceValue(t, s, m, r, Int32, from);
    var code := Int32MoveCode(t, fp, start, from, to);
    if from.GeneralReg? || to.GeneralReg? {
      Run1(P, code[0], m);
    } else if t.scratch.Some? {
      Run2(P, code[0], code[1], m);
    } else {
      Run2(P, code[0], code[1], m);
    }
    Conclude(t, s, m, Run(P, code, m), r, LogicalCell(to, start), RefSource(r, from, start));
  }

  /** `emitGeneralMove` on every path where the written code is kept. */
  lemma GeneralMoveAsWrittenCorrect(t: Target, s: EmitState, from: MoveOperand, to: MoveOperand, m: Machine, r: RefState)
    requires ValidTarget(t) && ValidSource(t, General, from) && ValidDest(t, General, to) && Frame(t, s, m, r)
    requires !from.EffectiveAddress? || to.GeneralReg? || t.scratch.Some?
    ensures var m2 := Run(PointerSize(t), GeneralMoveCodeAsWritten(t, s.framePushed, s.pushedAtStart, from, to), m);
            Frame(t, s, m2, Assign(r, from, to, s.pushedAtStart)) && Preserves(s, m, m2)
  {
    var P, start, fp := PointerSize(t), s.pushedAtStart, s.framePushed;
    UserDest(t, General, to, start);
    SourceValue(t, s, m, r, General, from);
    var code := GeneralMoveCodeAsWritten(t, fp, start, from, to);
    if from.GeneralReg? || to.GeneralReg? {
      Run1(P, code[0], m);
    } else if t.scratch.Some? {
      Run2(P, code[0], code[1], m);
    } else {
      Run2(P, code[0], code[1], m);
    }
    Conclude(t, s, m, Run(P, code, m), r, LogicalCell(to, start), RefSource(r, from, start));
  }

  /** The push/pop/add path for an address source with no scratch register,
      with the displacement translated. */
  lemma GeneralMoveBounceCorrect(t: Target, s: EmitState, from: MoveOperand, to: MoveOperand, m: Machine, r: RefState)
    requires ValidTarget(t) && ValidSource(t, General, from) && ValidDest(t, General, to) && Frame(t, s, m, r)
    requires from.EffectiveAddress? && !to.GeneralReg? && t.scratch.None?
    ensures var m2 := Run(PointerSize(t), GeneralMoveCode(t, s.framePushed, s.pushedAtStart, from, to), m);
            Frame(t, s, m2, Assign(r, from, to, s.pushedAtStart)) && Preserves(s, m, m2)
  {
    var P, start, fp := PointerSize(t), s.pushedAtStart, s.framePushed;
    UserDest(t, General, to, start);
    var code := GeneralMoveCode(t, fp, start, from, to);
    Run3(P, code[0], code[1], code[2], m);
    if from.base != StackPointer {
      assert UserCell(t, start, GPR(from.base));
    }
    Conclude(t, s, m, Run(P, code, m), r, LogicalCell(to, start), RefSource(r, from, start));
  }

  lemma GeneralMoveCorrect(t: Target, s: EmitState, from: MoveOperand, to: MoveOperand, m: Machine, r: RefState)
    requires ValidTarget(t) && ValidSource(t, General, from) && ValidDest(t, General, to) && Frame(t, s, m, r)
    ensures var m2 := Run(PointerSize(t), GeneralMoveCode(t, s.framePushed, s.pushedAtStart, from, to), m);
            Frame(t, s, m2, Assign(r, from, to, s.pushedAtStart)) && Preserves(s, m, m2)
  {
    if !from.EffectiveAddress? || to.GeneralReg? || t.scratch.Some? {
      GeneralMoveAsWrittenCorrect(t, s, from, to, m, r);
    } else {
      GeneralMoveBounceCorrect(t, s, from, to, m, r);
    }
  }

  lemma FloatClassMoveCorrect(t: Target, s: EmitState, from: MoveOperand, to: MoveOperand, kind: MoveType,
                              m: Machine, r: RefState)
    requires ValidTarget(t) && kind != Int32 && kind != General
    requires ValidSource(t, kind, from) && ValidDest(t, kind, to) && Frame(t, s, m, r)
    ensures var m2 := Run(PointerSize(t), FloatClassMoveCode(t, s.framePushed, s.pushedAtStart, from, to, OpsFor(kind)), m);
            Frame(t, s, m2, Assign(r, from, to, s.pushedAtStart)) && Preserves(s, m, m2)
  {
    var P, start, fp := PointerSize(t), s.pushedAtStart, s.framePushed;
    UserDest(t, kind, to, start);
    SourceValue(t, s, m, r, kind, from);
    var code := FloatClassMoveCode(t, fp, start, from, to, OpsFor(kind));
    if from.FloatReg? || to.FloatReg? {
      Run1(P, code[0], m);
    } else {
      Run2(P, code[0], code[1], m);
    }
    Conclude(t, s, m, Run(P, code, m), r, LogicalCell(to, start), RefSource(r, from, start));
  }

  /** Every plain move the emitter emits performs exactly that move and
      leaves the emitter's own stack area alone. */
  lemma MoveCodeCorrect(t: Target, s: EmitState, mv: MoveOp, m: Machine, r: RefState)
    requires ValidTarget(t) && ValidMove(t, mv) && Frame(t, s, m, r)
    ensures var m2 := Run(PointerSize(t), MoveCode(t, s.framePushed, s.pushedAtStart, mv), m);
            Frame(t, s, m2, Assign(r, mv.from, mv.to, s.pushedAtStart)) && Preserves(s, m, m2)
  {
    match mv.kind
    case Int32 => Int32MoveCorrect(t, s, mv.from, mv.to, m, r);
    case General => GeneralMoveCorrect(t, s, mv.from, mv.to, m, r);
    case _ => FloatClassMoveCorrect(t, s, mv.from, mv.to, mv.kind, m, r);
  }

  // ----------------------------------------------------------------------
  // Breaking and completing cycles

  lemma AgreeAfter(t: Target, start: int, mc: map<Cell, Val>, mc2: map<Cell, Val>, rc: map<Cell, Val>, dst: Cell, v: Val)
    requires Agree(t, start, mc, rc) && Read(mc2, dst) == v
    requires forall c :: c != dst && UserCell(t, start, c) ==> Read(mc2, c) == Read(mc, c)
    ensures Agree(t, start, mc2, rc[dst := v])
  {
    forall c | UserCell(t, start, c) ensures Read(mc2, c) == Read(rc[dst := v], c) {
      if c != dst {
        assert Read(mc2, c) == Read(mc, c);
      }
    }
  }

  lemma AgreeUntouched(t: Target, start: int, mc: map<Cell, Val>, mc2: map<Cell, Val>, rc: map<Cell, Val>)
    requires Agree(t, start, mc, rc)
    requires forall c :: UserCell(t, start, c) ==> Read(mc2, c) == Read(mc, c)
    ensures Agree(t, start, mc2, rc)
  {
  }

  /** What a break into the cycle slot leaves behind. */
  ghost predicate SlotSaved(t: Target, s: EmitState, s2: EmitState, m2: Machine, r: RefState, v: Val)
  {
    && s2.pushedAtStart == s.pushedAtStart && s2.inCycle == s.inCycle
    && s2.pushedAtCycle == s.pushedAtStart + Simd128DataSize
    && s2.framePushed == s2.pushedAtCycle
    && Frame(t, s2, m2, r)
    && Read(m2.cells, Stack(-s2.pushedAtCycle)) == v
  }

  lemma BreakSlotMemoryCorrect(t: Target, s: EmitState, to: MoveOperand, kind: MoveType, m: Machine, r: RefState)
    requires ValidTarget(t) && ValidDest(t, kind, to) && to.Memory? && !UsesPush(t, kind) && Frame(t, s, m, r)
    requires s.pushedAtCycle == -1 || s.pushedAtCycle == s.pushedAtStart + Simd128DataSize
    requires s.framePushed == Base(s)
    ensures SlotSaved(t, s, BreakCycleF(t, s, to, kind), Run(PointerSize(t), BreakCycleCode(t, s, to, kind), m), r,
                      Read(r.cells, LogicalCell(to, s.pushedAtStart)))
  {
    var P, start := PointerSize(t), s.pushedAtStart;
    SourceValue(t, s, m, r, kind, to);
    var code := BreakCycleCode(t, s, to, kind);
    var sc := ScratchFor(t, kind);
    assert sc != Reg(StackPointer);
    if s.pushedAtCycle == -1 {
      assert code == [code[0], code[1], code[2]];
      Run3(P, code[0], code[1], code[2], m);
    } else {
      assert code == [code[0], code[1]];
      Run2(P, code[0], code[1], m);
    }
    AgreeUntouched(t, start, m.cells, Run(P, code, m).cells, r.cells);
  }

  lemma BreakSlotRegisterCorrect(t: Target, s: EmitState, to: MoveOperand, kind: MoveType, m: Machine, r: RefState)
    requires ValidTarget(t) && ValidDest(t, kind, to) && !to.Memory? && !UsesPush(t, kind) && Frame(t, s, m, r)
    requires s.pushedAtCycle == -1 || s.pushedAtCycle == s.pushedAtStart + Simd128DataSize
    requires s.framePushed == Base(s)
    ensures SlotSaved(t, s, BreakCycleF(t, s, to, kind), Run(PointerSize(t), BreakCycleCode(t, s, to, kind), m), r,
                      Read(r.cells, LogicalCell(to, s.pushedAtStart)))
  {
    var P, start := PointerSize(t), s.pushedAtStart;
    SourceValue(t, s, m, r, kind, to);
    var code := BreakCycleCode(t, s, to, kind);
    if s.pushedAtCycle == -1 {
      assert code == [code[0], code[1]];
      Run2(P, code[0], code[1], m);
    } else {
      assert code == [code[0]];
      Run1(P, code[0], m);
    }
    AgreeUntouched(t, start, m.cells, Run(P, code, m).cells, r.cells);
  }

  /** `breakCycle` saves the value of the cycle's first destination where
      the matching `completeCycle` will look for it, and changes no user
      cell. */
  lemma BreakCycleCorrect(t: Target, s: EmitState, to: MoveOperand, kind: MoveType, m: Machine, r: RefState)
    requires ValidTarget(t) && ValidDest(t, kind, to) && Frame(t, s, m, r)
    requires s.pushedAtCycle == -1 || s.pushedAtCycle == s.pushedAtStart + Simd128DataSize
    requires s.framePushed == Base(s)
    ensures var s2 := BreakCycleF(t, s, to, kind);
            var m2 := Run(PointerSize(t), BreakCycleCode(t, s, to, kind), m);
            && s2.pushedAtStart == s.pushedAtStart && s2.inCycle == s.inCycle
            && s2.pushedAtCycle == (if UsesPush(t, kind) then s.pushedAtCycle else s.pushedAtStart + Simd128DataSize)
            && Frame(t, s2, m2, r)
            && SavedAt(t, s2, kind, m2, Read(r.cells, LogicalCell(to, s.pushedAtStart)))
  {
    var P, start, fp := PointerSize(t), s.pushedAtStart, s.framePushed;
    if UsesPush(t, kind) {
      SourceValue(t, s, m, r, kind, to);
      Run1(P, Push(ToOperand(to, fp, start)), m);
      AgreeUntouched(t, start, m.cells, Run(P, BreakCycleCode(t, s, to, kind), m).cells, r.cells);
    } else if to.Memory? {
      BreakSlotMemoryCorrect(t, s, to, kind, m, r);
    } else {
      BreakSlotRegisterCorrect(t, s, to, kind, m, r);
    }
  }

  /** `completeCycle` moves the saved value into the cycle's last
      destination and releases what `breakCycle` pushed. */
  lemma CompleteCycleCorrect(t: Target, s: EmitState, to: MoveOperand, kind: MoveType, m: Machine, r: RefState)
    requires ValidTarget(t) && ValidDest(t, kind, to) && Frame(t, s, m, r)
    requires s.pushedAtCycle == -1 || s.pushedAtCycle == s.pushedAtStart + Simd128DataSize
    requires SavedAt(t, s, kind, m, r.saved)
    ensures var s2 := CompleteCycleF(t, s, to, kind);
            && s2.pushedAtStart == s.pushedAtStart && s2.inCycle == s.inCycle
            && s2.pushedAtCycle == s.pushedAtCycle && s2.framePushed == Base(s)
            && Frame(t, s2, Run(PointerSize(t), CompleteCycleCode(t, s, to, kind), m),
                     r.(cells := r.cells[LogicalCell(to, s.pushedAtStart) := r.saved]))
  {
    var P, start := PointerSize(t), s.pushedAtStart;
    UserDest(t, kind, to, start);
    var code := CompleteCycleCode(t, s, to, kind);
    if UsesPush(t, kind) {
      Run1(P, code[0], m);
    } else {
      assert WithSlot(s) == s && SlotReserveCode(s) == [];
      assert ScratchFor(t, kind) != Reg(StackPointer);
      if to.Memory? {
        assert code == [code[0], code[1]];
        Run2(P, code[0], code[1], m);
      } else {
        assert code == [code[0]];
        Run1(P, code[0], m);
      }
    }
    AgreeAfter(t, start, m.cells, Run(P, code, m).cells, r.cells, LogicalCell(to, start), r.saved);
  }

  // ----------------------------------------------------------------------
  // Optimized cycles

  /** A two-register cycle done by one `xchg`. */
  lemma XchgOneCorrect(t: Target, s: EmitState, a: MoveOp, b: MoveOp, m: Machine, r: RefState)
    requires ValidTarget(t) && ValidMove(t, a) && ValidMove(t, b)
    requires a.to.GeneralReg? && b.to.GeneralReg? && a.from == b.to && b.from == a.to
    requires a.cycleBegin && !a.cycleEnd && b.cycleEnd
    requires Frame(t, s, m, r)
    ensures var m2 := Run(PointerSize(t), [Xchg(a.to.reg, b.to.reg)], m);
            var start := s.pushedAtStart;
            Frame(t, s, m2, RefStep(RefStep(r, a, start), b, start))
  {
    var P, start := PointerSize(t), s.pushedAtStart;
    var x, y := a.to.reg, b.to.reg;
    Run1(P, Xchg(x, y), m);
    assert UserCell(t, start, GPR(x)) && UserCell(t, start, GPR(y));
    var vx, vy := Read(r.cells, GPR(x)), Read(r.cells, GPR(y));
    var m2 := Run(P, [Xchg(x, y)], m);
    AgreeAfter(t, start, m.cells, m.cells[GPR(x) := vy], r.cells, GPR(x), vy);
    AgreeAfter(t, start, m.cells[GPR(x) := vy], m2.cells, r.cells[GPR(x) := vy], GPR(y), vx);
  }

  /** A three-register cycle done by two `xchg`s. */
  lemma XchgTwoCorrect(t: Target, s: EmitState, a: MoveOp, b: MoveOp, c: MoveOp, m: Machine, r: RefState)
    requires ValidTarget(t) && ValidMove(t, a) && ValidMove(t, b) && ValidMove(t, c)
    requires a.to.GeneralReg? && b.to.GeneralReg? && c.to.GeneralReg?
    requires a.from == b.to && b.from == c.to && c.from == a.to
    requires a.cycleBegin && !a.cycleEnd && !b.cycleBegin && !b.cycleEnd && c.cycleEnd
    requires Frame(t, s, m, r)
    ensures var m2 := Run(PointerSize(t), [Xchg(a.to.reg, b.to.reg), Xchg(b.to.reg, c.to.reg)], m);
            var start := s.pushedAtStart;
            Frame(t, s, m2, RefStep(RefStep(RefStep(r, a, start), b, start), c, start))
  {
    var P, start := PointerSize(t), s.pushedAtStart;
    var x, y, z := a.to.reg, b.to.reg, c.to.reg;
    Run2(P, Xchg(x, y), Xchg(y, z), m);
    assert UserCell(t, start, GPR(x)) && UserCell(t, start, GPR(y)) && UserCell(t, start, GPR(z));
    var vx, vy, vz := Read(r.cells, GPR(x)), Read(r.cells, GPR(y)), Read(r.cells, GPR(z));
    var m2 := Run(P, [Xchg(x, y), Xchg(y, z)], m);
    var mc1 := m.cells[GPR(x) := vy];
    var mc2 := mc1[GPR(y) := vz];
    AgreeAfter(t, start, m.cells, mc1, r.cells, GPR(x), vy);
    AgreeAfter(t, start, mc1, mc2, r.cells[GPR(x) := vy], GPR(y), vz);
    AgreeAfter(t, start, mc2, m2.cells, r.cells[GPR(x) := vy][GPR(y) := vz], GPR(z), vx);
  }

  /** A two-register float cycle done by the XOR swap. */
  lemma XorSwapCorrect(t: Target, s: EmitState, a: MoveOp, b: MoveOp, m: Machine, r: RefState)
    requires ValidTarget(t) && ValidMove(t, a) && ValidMove(t, b)
    requires a.to.FloatReg? && b.to.FloatReg? && a.from == b.to && b.from == a.to
    requires a.cycleBegin && !a.cycleEnd && b.cycleEnd
    requires Frame(t, s, m, r)
    ensures var m2 := Run(PointerSize(t), XorSwapCode(a.to.freg, b.to.freg), m);
            var start := s.pushedAtStart;
            Frame(t, s, m2, RefStep(RefStep(r, a, start), b, start))
  {
    var P, start := PointerSize(t), s.pushedAtStart;
    var x, y := a.to.freg, b.to.freg;
    XorSwap(P, x, y, m);
    assert UserCell(t, start, FPR(x)) && UserCell(t, start, FPR(y));
    var vx, vy := Read(r.cells, FPR(x)), Read(r.cells, FPR(y));
    var m2 := Run(P, XorSwapCode(x, y), m);
    AgreeAfter(t, start, m.cells, m.cells[FPR(x) := vy], r.cells, FPR(x), vy);
    AgreeAfter(t, start, m.cells[FPR(x) := vy], m2.cells, r.cells[FPR(x) := vy], FPR(y), vx);
  }

  lemma RefRunTwo(moves: seq<MoveOp>, i: nat, r: RefState, start: int)
    requires i + 1 < |moves| && !moves[i].to.EffectiveAddress? && !moves[i + 1].to.EffectiveAddress?
    ensures RefRun(moves, i, i + 2, r, start) == RefStep(RefStep(r, moves[i], start), moves[i + 1], start)
  {
    var r1 := RefStep(r, moves[i], start);
    assert RefRun(moves, i + 1, i + 2, r1, start) == RefStep(r1, moves[i + 1], start);
  }

  lemma RefRunThree(moves: seq<MoveOp>, i: nat, r: RefState, start: int)
    requires i + 2 < |moves| && !moves[i].to.EffectiveAddress?
    requires !moves[i + 1].to.EffectiveAddress? && !moves[i + 2].to.EffectiveAddress?
    ensures RefRun(moves, i, i + 3, r, start)
         == RefStep(RefStep(RefStep(r, moves[i], start), moves[i + 1], start), moves[i + 2], start)
  {
    RefRunTwo(moves, i + 1, RefStep(r, moves[i], start), start);
  }

  lemma OptXchgOne(t: Target, moves: seq<MoveOp>, i: nat, s: EmitState, m: Machine, r: RefState)
    requires ValidTarget(t) && i + 1 < |moves| && ValidMove(t, moves[i]) && ValidMove(t, moves[i + 1])
    requires AllGeneralDest(moves, i, i + 1) && Chained(moves, i, i + 1)
    requires moves[i].cycleBegin && !moves[i].cycleEnd && moves[i + 1].cycleEnd
    requires Frame(t, s, m, r)
    ensures Frame(t, s, Run(PointerSize(t), XchgChain(moves, i, 1), m), RefRun(moves, i, i + 2, r, s.pushedAtStart))
  {
    var start := s.pushedAtStart;
    assert moves[i].to.GeneralReg? && moves[i + 1].to.GeneralReg?;
    assert moves[i].from == moves[i + 1].to;
    assert XchgChain(moves, i, 1) == [Xchg(moves[i].to.reg, moves[i + 1].to.reg)];
    XchgOneCorrect(t, s, moves[i], moves[i + 1], m, r);
    RefRunTwo(moves, i, r, start);
  }

  lemma OptXchgTwo(t: Target, moves: seq<MoveOp>, i: nat, s: EmitState, m: Machine, r: RefState)
    requires ValidTarget(t) && i + 2 < |moves|
    requires ValidMove(t, moves[i]) && ValidMove(t, moves[i + 1]) && ValidMove(t, moves[i + 2])
    requires AllGeneralDest(moves, i, i + 2) && Chained(moves, i, i + 2)
    requires moves[i].cycleBegin && !moves[i].cycleEnd
    requires !moves[i + 1].cycleBegin && !moves[i + 1].cycleEnd && moves[i + 2].cycleEnd
    requires Frame(t, s, m, r)
    ensures Frame(t, s, Run(PointerSize(t), XchgChain(moves, i, 2), m), RefRun(moves, i, i + 3, r, s.pushedAtStart))
  {
    var start := s.pushedAtStart;
    assert moves[i].to.GeneralReg? && moves[i + 1].to.GeneralReg? && moves[i + 2].to.GeneralReg?;
    assert moves[i].from == moves[i + 1].to && moves[i + 1].from == moves[i + 2].to;
    assert XchgChain(moves, i, 2)
        == [Xchg(moves[i].to.reg, moves[i + 1].to.reg), Xchg(moves[i + 1].to.reg, moves[i + 2].to.reg)];
    XchgTwoCorrect(t, s, moves[i], moves[i + 1], moves[i + 2], m, r);
    RefRunThree(moves, i, r, start);
  }

  lemma OptXorSwap(t: Target, moves: seq<MoveOp>, i: nat, s: EmitState, m: Machine, r: RefState)
    requires ValidTarget(t) && i + 1 < |moves| && ValidMove(t, moves[i]) && ValidMove(t, moves[i + 1])
    requires AllFloatDest(moves, i, i + 1) && Chained(moves, i, i + 1)
    requires moves[i].cycleBegin && !moves[i].cycleEnd && moves[i + 1].cycleEnd
    requires Frame(t, s, m, r)
    ensures moves[i].to.FloatReg? && moves[i + 1].to.FloatReg?
    ensures Frame(t, s, Run(PointerSize(t), XorSwapCode(moves[i].to.freg, moves[i + 1].to.freg), m),
                  RefRun(moves, i, i + 2, r, s.pushedAtStart))
  {
    var start := s.pushedAtStart;
    assert moves[i].to.FloatReg? && moves[i + 1].to.FloatReg?;
    assert moves[i].from == moves[i + 1].to;
    XorSwapCorrect(t, s, moves[i], moves[i + 1], m, r);
    RefRunTwo(moves, i, r, start);
  }

  /** `maybeEmitOptimizedCycle`, when it applies, performs the whole cycle
      without touching the stack. */
  lemma OptimizedCorrect(t: Target, moves: seq<MoveOp>, i: nat, s: EmitState, m: Machine, r: RefState)
    requires ValidTarget(t) && WellFormed(t, moves) && i < |moves|
    requires moves[i].cycleBegin && !moves[i].cycleEnd && HasEndFrom(moves, i + 1)
    requires var c := CharacterizeSpec(moves, i); OptimizedApplies(c.allGeneralRegs, c.allFloatRegs, c.swapCount)
    requires Frame(t, s, m, r)
    ensures var c := CharacterizeSpec(moves, i);
            var e := i + c.swapCount;
            && e == FirstEndFrom(moves, i + 1)
            && Frame(t, s, Run(PointerSize(t), OptimizedCode(moves, i, c), m), RefRun(moves, i, e + 1, r, s.pushedAtStart))
  {
    var c := CharacterizeSpec(moves, i);
    assert WellPlaced(t, moves, i) && WellPlaced(t, moves, i + 1);
    if c.allGeneralRegs && c.swapCount <= 2 {
      if c.swapCount == 1 {
        OptXchgOne(t, moves, i, s, m, r);
      } else {
        assert WellPlaced(t, moves, i + 2);
        assert InCycleBefore(moves, i + 1);
        OptXchgTwo(t, moves, i, s, m, r);
      }
    } else {
      OptXorSwap(t, moves, i, s, m, r);
    }
  }

  // ----------------------------------------------------------------------
  // Reserving the cycle slot once

  /** No instruction of `code` reserves stack. */
  predicate NoReserve(code: seq<Inst>)
  {
    forall k | 0 <= k < |code| :: !code[k].ReserveStack?
  }

  /** At most one instruction of `code` reserves stack. */
  predicate AtMostOneReserve(code: seq<Inst>)
  {
    forall k, l | 0 <= k < l < |code| :: !(code[k].ReserveStack? && code[l].ReserveStack?)
  }

  /** The reservation invariant of `emit`: at most one reservation, and
      none until the slot's depth is recorded. */
  predicate ReservedOnce(s: EmitState)
  {
    && AtMostOneReserve(s.code)
    && (s.pushedAtCycle == -1 ==> NoReserve(s.code))
  }

  lemma ReserveAppend(a: seq<Inst>, c: seq<Inst>)
    ensures NoReserve(a) && NoReserve(c) ==> NoReserve(a + c)
    ensures NoReserve(a) && AtMostOneReserve(c) ==> AtMostOneReserve(a + c)
    ensures AtMostOneReserve(a) && NoReserve(c) ==> AtMostOneReserve(a + c)
  {
    assert forall k | 0 <= k < |a| :: (a + c)[k] == a[k];
    assert forall k | |a| <= k < |a + c| :: (a + c)[k] == c[k - |a|];
  }

  lemma MoveCodeNoReserve(t: Target, fp: int, start: int, m: MoveOp)
    requires ValidMove(t, m)
    ensures NoReserve(MoveCode(t, fp, start, m))
  {
  }

  lemma OptimizedNoReserve(moves: seq<MoveOp>, i: nat, c: CycleShape)
    requires 0 <= c.swapCount && i + c.swapCount < |moves|
    requires OptimizedApplies(c.allGeneralRegs, c.allFloatRegs, c.swapCount)
    requires c.allGeneralRegs ==> AllGeneralDest(moves, i, i + c.swapCount)
    requires c.allFloatRegs ==> AllFloatDest(moves, i, i + c.swapCount)
    ensures NoReserve(OptimizedCode(moves, i, c))
  {
  }

  /** `breakCycle` reserves at most once, only while no slot is recorded,
      and then records the slot. */
  lemma BreakCycleReserves(t: Target, s: EmitState, to: MoveOperand, kind: MoveType)
    requires ValidTarget(t) && ValidDest(t, kind, to) && s.framePushed >= 0
    ensures var c := BreakCycleCode(t, s, to, kind);
            NoReserve(c) || (s.pushedAtCycle == -1 && BreakCycleF(t, s, to, kind).pushedAtCycle != -1 && AtMostOneReserve(c))
  {
    if !UsesPush(t, kind) && s.pushedAtCycle == -1 {
      assert WithSlot(s).pushedAtCycle == s.framePushed + Simd128DataSize;
    }
  }

  /** `completeCycle` likewise. */
  lemma CompleteCycleReserves(t: Target, s: EmitState, to: MoveOperand, kind: MoveType)
    requires ValidTarget(t) && ValidDest(t, kind, to) && s.framePushed >= 0
    ensures var c := CompleteCycleCode(t, s, to, kind);
            NoReserve(c) || (s.pushedAtCycle == -1 && CompleteCycleF(t, s, to, kind).pushedAtCycle != -1 && AtMostOneReserve(c))
  {
    if !UsesPush(t, kind) && s.pushedAtCycle == -1 {
      assert WithSlot(s).pushedAtCycle == s.framePushed + Simd128DataSize;
    }
  }

  /** One iteration of `emit`'s loop keeps the reservation invariant. */
  lemma StepReservedOnce(t: Target, moves: seq<MoveOp>, i: nat, s: EmitState)
    requires ValidTarget(t) && i < |moves| && WellPlaced(t, moves, i)
    requires ReservedOnce(s) && s.framePushed >= 0
    ensures ReservedOnce(EmitStep(t, moves, i, s).1)
  {
    var m := moves[i];
    var s1 := EmitStep(t, moves, i, s).1;
    if m.cycleEnd {
      CompleteCycleReserves(t, s, m.to, m.kind);
      ReserveAppend(s.code, CompleteCycleCode(t, s, m.to, m.kind));
    } else if m.cycleBegin {
      var c := CharacterizeSpec(moves, i);
      if OptimizedApplies(c.allGeneralRegs, c.allFloatRegs, c.swapCount) {
        OptimizedNoReserve(moves, i, c);
        ReserveAppend(s.code, OptimizedCode(moves, i, c));
      } else {
        var b := BreakCycleF(t, s, m.to, m.endCycleType).(inCycle := true);
        var bc := BreakCycleCode(t, s, m.to, m.endCycleType);
        BreakCycleReserves(t, s, m.to, m.endCycleType);
        ReserveAppend(s.code, bc);
        MoveCodeNoReserve(t, b.framePushed, b.pushedAtStart, m);
        ReserveAppend(s.code + bc, MoveCode(t, b.framePushed, b.pushedAtStart, m));
      }
    } else {
      MoveCodeNoReserve(t, s.framePushed, s.pushedAtStart, m);
      ReserveAppend(s.code, MoveCode(t, s.framePushed, s.pushedAtStart, m));
    }
  }

  /** `emit` from position `i` on keeps the reservation invariant. */
  lemma {:induction false} EmitFromReservedOnce(t: Target, moves: seq<MoveOp>, i: nat, s: EmitState, m0: Machine, r: RefState)
    requires ValidTarget(t) && WellFormed(t, moves) && i <= |moves|
    requires Sim(t, moves, i, s, Run(PointerSize(t), s.code, m0), r) && ReservedOnce(s)
    ensures ReservedOnce(EmitFrom(t, moves, i, s))
    decreases |moves| - i
  {
    if i < |moves| {
      StepCorrect(t, moves, i, s, m0, r);
      StepReservedOnce(t, moves, i, s);
      var (j, s1) := EmitStep(t, moves, i, s);
      EmitFromReservedOnce(t, moves, j, s1, m0, RefRun(moves, i, j, r, s.pushedAtStart));
    }
  }

  // ----------------------------------------------------------------------
  // The whole emission

  lemma SavedKept(t: Target, s: EmitState, kind: MoveType, m: Machine, m2: Machine, v: Val)
    requires SavedAt(t, s, kind, m, v) && Preserves(s, m, m2)
    requires s.pushedAtStart >= 0
    requires s.pushedAtCycle == -1 || s.pushedAtCycle == s.pushedAtStart + Simd128DataSize
    ensures SavedAt(t, s, kind, m2, v)
  {
    if UsesPush(t, kind) {
      assert Read(m2.cells, Stack(-s.framePushed)) == Read(m.cells, Stack(-s.framePushed));
    } else {
      assert Read(m2.cells, Stack(-s.pushedAtCycle)) == Read(m.cells, Stack(-s.pushedAtCycle));
    }
  }

  /** The invariant of `emit`'s loop: the machine stands for the reference
      state of the moves done so far, the cycle slot is reserved at most
      once, right above the starting depth, and while a cycle is open its
      saved value is where the closing move will look for it. */
  ghost predicate Sim(t: Target, moves: seq<MoveOp>, i: nat, s: EmitState, m: Machine, r: RefState)
    requires i <= |moves|
  {
    && Frame(t, s, m, r)
    && (s.pushedAtCycle == -1 || s.pushedAtCycle == s.pushedAtStart + Simd128DataSize)
    && s.inCycle == InCycleBefore(moves, i)
    && (if !s.inCycle then s.framePushed == Base(s)
        else HasEndFrom(moves, i) && SavedAt(t, s, moves[FirstEndFrom(moves, i)].kind, m, r.saved))
  }

  /** What one iteration of `emit`'s loop must establish. */
  ghost predicate StepPost(t: Target, moves: seq<MoveOp>, i: nat, s: EmitState, m0: Machine, r: RefState)
    requires ValidTarget(t) && i < |moves| && WellPlaced(t, moves, i)
  {
    var (j, s1) := EmitStep(t, moves, i, s);
    && s1.pushedAtStart == s.pushedAtStart
    && Sim(t, moves, j, s1, Run(PointerSize(t), s1.code, m0), RefRun(moves, i, j, r, s.pushedAtStart))
  }

  lemma EndStepCorrect(t: Target, moves: seq<MoveOp>, i: nat, s: EmitState, m0: Machine, r: RefState)
    requires ValidTarget(t) && i < |moves| && WellPlaced(t, moves, i) && moves[i].cycleEnd
    requires Sim(t, moves, i, s, Run(PointerSize(t), s.code, m0), r)
    ensures StepPost(t, moves, i, s, m0, r)
  {
    var P, start, mv := PointerSize(t), s.pushedAtStart, moves[i];
    assert FirstEndFrom(moves, i) == i;
    var code := CompleteCycleCode(t, s, mv.to, mv.kind);
    CompleteCycleCorrect(t, s, mv.to, mv.kind, Run(P, s.code, m0), r);
    RunAppend(P, s.code, code, m0);
    var s1 := CompleteCycleF(t, s, mv.to, mv.kind).(inCycle := false);
    assert EmitStep(t, moves, i, s) == (i + 1, s1);
    RefRunOne(moves, i, r, start);
  }

  lemma OptimizedStepCorrect(t: Target, moves: seq<MoveOp>, i: nat, s: EmitState, m0: Machine, r: RefState)
    requires ValidTarget(t) && WellFormed(t, moves) && i < |moves| && WellPlaced(t, moves, i)
    requires moves[i].cycleBegin && !moves[i].cycleEnd && HasEndFrom(moves, i + 1)
    requires var c := CharacterizeSpec(moves, i); OptimizedApplies(c.allGeneralRegs, c.allFloatRegs, c.swapCount)
    requires Sim(t, moves, i, s, Run(PointerSize(t), s.code, m0), r)
    ensures StepPost(t, moves, i, s, m0, r)
  {
    var P := PointerSize(t);
    var c := CharacterizeSpec(moves, i);
    OptimizedCorrect(t, moves, i, s, Run(P, s.code, m0), r);
    RunAppend(P, s.code, OptimizedCode(moves, i, c), m0);
    var e := i + c.swapCount;
    assert EmitStep(t, moves, i, s) == (e + 1, s.(code := s.code + OptimizedCode(moves, i, c)));
  }

  /** Breaking a cycle and then performing its first move: the machine
      stands for the reference state after that move, and the value the
      move overwrote is saved where the cycle's last move will find it. */
  lemma BrokenMoveCorrect(t: Target, s: EmitState, mv: MoveOp, m: Machine, r: RefState)
    requires ValidTarget(t) && ValidMove(t, mv) && ValidDest(t, mv.endCycleType, mv.to)
    requires mv.cycleBegin && !mv.cycleEnd
    requires Frame(t, s, m, r)
    requires s.pushedAtCycle == -1 || s.pushedAtCycle == s.pushedAtStart + Simd128DataSize
    requires s.framePushed == Base(s)
    ensures var s1 := BreakCycleF(t, s, mv.to, mv.endCycleType);
            var m1 := Run(PointerSize(t), BreakCycleCode(t, s, mv.to, mv.endCycleType), m);
            var m2 := Run(PointerSize(t), MoveCode(t, s1.framePushed, s.pushedAtStart, mv), m1);
            var r2 := RefStep(r, mv, s.pushedAtStart);
            && s1.pushedAtStart == s.pushedAtStart
            && (s1.pushedAtCycle == -1 || s1.pushedAtCycle == s.pushedAtStart + Simd128DataSize)
            && Frame(t, s1, m2, r2)
            && SavedAt(t, s1, mv.endCycleType, m2, r2.saved)
  {
    var P, start := PointerSize(t), s.pushedAtStart;
    BreakCycleCorrect(t, s, mv.to, mv.endCycleType, m, r);
    var s1 := BreakCycleF(t, s, mv.to, mv.endCycleType);
    var m1 := Run(P, BreakCycleCode(t, s, mv.to, mv.endCycleType), m);
    var r0 := r.(saved := Read(r.cells, LogicalCell(mv.to, start)));
    MoveCodeCorrect(t, s1, mv, m1, r0);
    assert RefStep(r, mv, start) == Assign(r0, mv.from, mv.to, start);
    SavedKept(t, s1, mv.endCycleType, m1, Run(P, MoveCode(t, s1.framePushed, start, mv), m1), r0.saved);
  }

  lemma BrokenStepCorrect(t: Target, moves: seq<MoveOp>, i: nat, s: EmitState, m0: Machine, r: RefState)
    requires ValidTarget(t) && i < |moves| && WellPlaced(t, moves, i)
    requires moves[i].cycleBegin && !moves[i].cycleEnd
    requires var c := CharacterizeSpec(moves, i); !OptimizedApplies(c.allGeneralRegs, c.allFloatRegs, c.swapCount)
    requires Sim(t, moves, i, s, Run(PointerSize(t), s.code, m0), r)
    ensures StepPost(t, moves, i, s, m0, r)
  {
    var P, start, mv := PointerSize(t), s.pushedAtStart, moves[i];
    BrokenMoveCorrect(t, s, mv, Run(P, s.code, m0), r);
    var s1 := BreakCycleF(t, s, mv.to, mv.endCycleType).(inCycle := true);
    RunAppend(P, s.code, BreakCycleCode(t, s, mv.to, mv.endCycleType), m0);
    RunAppend(P, s1.code, MoveCode(t, s1.framePushed, start, mv), m0);
    assert EmitStep(t, moves, i, s) == (i + 1, EmitMoveF(t, s1, mv));
    RefRunOne(moves, i, r, start);
  }

  lemma PlainStepCorrect(t: Target, moves: seq<MoveOp>, i: nat, s: EmitState, m0: Machine, r: RefState)
    requires ValidTarget(t) && i < |moves| && WellPlaced(t, moves, i)
    requires !moves[i].cycleBegin && !moves[i].cycleEnd
    requires Sim(t, moves, i, s, Run(PointerSize(t), s.code, m0), r)
    ensures StepPost(t, moves, i, s, m0, r)
  {
    var P, start, mv := PointerSize(t), s.pushedAtStart, moves[i];
    var m := Run(P, s.code, m0);
    MoveCodeCorrect(t, s, mv, m, r);
    var s2 := EmitMoveF(t, s, mv);
    RunAppend(P, s.code, MoveCode(t, s.framePushed, start, mv), m0);
    assert EmitStep(t, moves, i, s) == (i + 1, s2);
    RefRunOne(moves, i, r, start);
    if s.inCycle {
      assert HasEndFrom(moves, i + 1) by {
        var k :| i <= k < |moves| && moves[k].cycleEnd;
        assert k != i;
      }
      assert FirstEndFrom(moves, i) == FirstEndFrom(moves, i + 1);
      SavedKept(t, s, moves[FirstEndFrom(moves, i)].kind, m, Run(P, s2.code, m0), r.saved);
    }
  }

  /** Every iteration of `emit`'s loop keeps the simulation. */
  lemma StepCorrect(t: Target, moves: seq<MoveOp>, i: nat, s: EmitState, m0: Machine, r: RefState)
    requires ValidTarget(t) && WellFormed(t, moves) && i < |moves|
    requires Sim(t, moves, i, s, Run(PointerSize(t), s.code, m0), r)
    ensures WellPlaced(t, moves, i) && StepPost(t, moves, i, s, m0, r)
  {
    assert WellPlaced(t, moves, i);
    var mv := moves[i];
    if mv.cycleEnd {
      EndStepCorrect(t, moves, i, s, m0, r);
    } else if mv.cycleBegin {
      var c := CharacterizeSpec(moves, i);
      if OptimizedApplies(c.allGeneralRegs, c.allFloatRegs, c.swapCount) {
        OptimizedStepCorrect(t, moves, i, s, m0, r);
      } else {
        BrokenStepCorrect(t, moves, i, s, m0, r);
      }
    } else {
      PlainStepCorrect(t, moves, i, s, m0, r);
    }
  }

  /** The debug assertions of `emit` and `completeCycle` hold at every move
      of a well-formed list: an end move finds a cycle open, a begin move
      finds none, and the value to restore is on the stack or in a reserved
      slot large enough for its type. */
  lemma AssertionsHold(t: Target, moves: seq<MoveOp>, i: nat, s: EmitState, m: Machine, r: RefState)
    requires ValidTarget(t) && WellFormed(t, moves) && i < |moves|
    requires Sim(t, moves, i, s, m, r)
    ensures moves[i].cycleEnd ==> s.inCycle
    ensures moves[i].cycleBegin && !moves[i].cycleEnd ==> !s.inCycle
    ensures moves[i].cycleEnd && UsesPush(t, moves[i].kind) ==>
              s.framePushed - s.pushedAtStart >= PointerSize(t)
    ensures moves[i].cycleEnd && !UsesPush(t, moves[i].kind) ==>
              s.pushedAtCycle != -1 && s.pushedAtCycle - s.pushedAtStart >= SlotSize(moves[i].kind)
  {
    assert WellPlaced(t, moves, i);
    if moves[i].cycleEnd {
      assert FirstEndFrom(moves, i) == i;
    }
  }

  lemma {:induction false} EmitFromCorrect(t: Target, moves: seq<MoveOp>, i: nat, s: EmitState, m0: Machine, r: RefState)
    requires ValidTarget(t) && WellFormed(t, moves) && i <= |moves|
    requires Sim(t, moves, i, s, Run(PointerSize(t), s.code, m0), r)
    ensures var s2 := EmitFrom(t, moves, i, s);
            && s2.pushedAtStart == s.pushedAtStart
            && Sim(t, moves, |moves|, s2, Run(PointerSize(t), s2.code, m0), RefRun(moves, i, |moves|, r, s.pushedAtStart))
    decreases |moves| - i
  {
    if i < |moves| {
      StepCorrect(t, moves, i, s, m0, r);
      var (j, s1) := EmitStep(t, moves, i, s);
      var r1 := RefRun(moves, i, j, r, s.pushedAtStart);
      EmitFromCorrect(t, moves, j, s1, m0, r1);
      RefRunSplit(moves, i, j, |moves|, r, s.pushedAtStart);
    }
  }

  /** `finish` at the end of `emit`: the stack returns to its starting
      depth and no user cell changes. */
  lemma FinishCorrect(t: Target, s: EmitState, m0: Machine, r: RefState)
    requires Frame(t, s, Run(PointerSize(t), s.code, m0), r)
    ensures var f := FinishF(s);
            var m2 := Run(PointerSize(t), f.code, m0);
            && f.framePushed == s.pushedAtStart && m2.depth == s.pushedAtStart && m2.top == r.top
            && Agree(t, s.pushedAtStart, m2.cells, r.cells)
  {
    RunSnoc(PointerSize(t), s.code, FreeStack(s.framePushed - s.pushedAtStart), m0);
  }

  lemma InitialSim(t: Target, moves: seq<MoveOp>, m: Machine)
    requires m.depth >= 0
    ensures Sim(t, moves, 0, Initial([], m.depth), Run(PointerSize(t), [], m), RefState(m.cells, 0, m.top))
  {
  }

  /** The emitter is correct: on a machine whose stack is `m.depth` bytes
      deep, the code `emit` followed by `finish` produces leaves every user
      cell holding what the move list, performed in order with cycle values
      saved and restored, puts there; it ends with no cycle open, has
      reserved at most one 128-bit cycle slot, and returns the stack to its
      starting depth. */
  lemma EmitCorrect(t: Target, moves: seq<MoveOp>, m: Machine)
    requires ValidTarget(t) && WellFormed(t, moves) && m.depth >= 0
    ensures var s := EmitFrom(t, moves, 0, Initial([], m.depth));
            && s.pushedAtStart == m.depth
            && !s.inCycle
            && (s.framePushed == m.depth || s.framePushed == m.depth + Simd128DataSize)
            && var f := FinishF(s);
               var m2 := Run(PointerSize(t), f.code, m);
               && f.framePushed == m.depth && m2.depth == m.depth && m2.top == m.top
               && Agree(t, m.depth, m2.cells, RefRun(moves, 0, |moves|, RefState(m.cells, 0, m.top), m.depth).cells)
               && AtMostOneReserve(f.code)
               && (ResolverOrder(moves, m.depth) ==>
                     Agree(t, m.depth, m2.cells, Parallel(moves, |moves|, RefState(m.cells, 0, m.top), m.depth)))
  {
    var s0 := Initial([], m.depth);
    var r0 := RefState(m.cells, 0, m.top);
    InitialSim(t, moves, m);
    EmitFromCorrect(t, moves, 0, s0, m, r0);
    var s := EmitFrom(t, moves, 0, s0);
    FinishCorrect(t, s, m, RefRun(moves, 0, |moves|, r0, m.depth));
    EmitFromReservedOnce(t, moves, 0, s0, m, r0);
    ReserveAppend(s.code, [FreeStack(s.framePushed - s.pushedAtStart)]);
    if ResolverOrder(moves, m.depth) {
      RunIsParallel(t, moves, |moves|, r0, m.depth);
    }
  }
}
