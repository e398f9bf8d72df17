/** The meaning the register allocator gives a move list: a parallel
    assignment, every destination receiving the value its source held before
    any move.  The resolver orders the moves so that no move reads a cell an
    earlier move has written, a cycle's closing move excepted: that one
    reads, through the saved value, what its opening move overwrote.  On a
    list in that order the step-by-step reading of MoveOps.RefRun, with its
    saved cycle value, is that parallel assignment. */
module MoveParallel {
  import opened MoveMachine
  import opened MoveOps

  // ----------------------------------------------------------------------
  // Splitting a run

  lemma {:induction false} RefRunSplit(moves: seq<MoveOp>, i: nat, j: nat, k: nat, r: RefState, start: int)
    requires i <= j <= k <= |moves|
    requires forall n | i <= n < k :: !moves[n].to.EffectiveAddress?
    ensures RefRun(moves, i, k, r, start) == RefRun(moves, j, k, RefRun(moves, i, j, r, start), start)
    decreases j - i
  {
    if i < j {
      RefRunSplit(moves, i + 1, j, k, RefStep(r, moves[i], start), start);
    }
  }

  lemma RefRunOne(moves: seq<MoveOp>, i: nat, r: RefState, start: int)
    requires i < |moves| && !moves[i].to.EffectiveAddress?
    ensures RefRun(moves, i, i + 1, r, start) == RefStep(r, moves[i], start)
  {
  }

  // ----------------------------------------------------------------------
  // The open cycle and the value it restores

  /** The begin move of the cycle open before position `i`. */
  function LastBegin(moves: seq<MoveOp>, i: nat): (b: nat)
    requires i <= |moves| && InCycleBefore(moves, i)
    ensures b < i && moves[b].cycleBegin && !moves[b].cycleEnd
    ensures forall l | b < l < i :: !moves[l].cycleBegin && !moves[l].cycleEnd
  {
    if moves[i - 1].cycleBegin then i - 1 else LastBegin(moves, i - 1)
  }

  /** Plain moves leave the saved cycle value alone. */
  lemma {:induction false} SavedThrough(moves: seq<MoveOp>, i: nat, j: nat, r: RefState, start: int)
    requires i <= j <= |moves|
    requires forall n | i <= n < j :: !moves[n].to.EffectiveAddress? && !moves[n].cycleBegin && !moves[n].cycleEnd
    ensures RefRun(moves, i, j, r, start).saved == r.saved
    decreases j - i
  {
    if i < j {
      SavedThrough(moves, i + 1, j, RefStep(r, moves[i], start), start);
    }
  }

  /** In a well-formed list a cycle-end move closes the cycle opened by the
      last begin move, and reads what that move overwrote. */
  lemma EndReadsBegin(t: Target, moves: seq<MoveOp>, k: nat)
    requires WellFormed(t, moves) && k < |moves| && moves[k].cycleEnd
    ensures InCycleBefore(moves, k)
    ensures FirstEndFrom(moves, LastBegin(moves, k) + 1) == k
    ensures moves[k].from == moves[LastBegin(moves, k)].to
  {
    assert WellPlaced(t, moves, k);
    var b := LastBegin(moves, k);
    assert CycleCloses(t, moves, b) by {
      assert WellPlaced(t, moves, b);
    }
    var e := FirstEndFrom(moves, b + 1);
    assert moves[e].cycleEnd && moves[k].cycleEnd;
  }

  /** The value a cycle-end move stores is what its source held just before
      the cycle began, whatever the moves inside the cycle did. */
  lemma RestoredValue(t: Target, moves: seq<MoveOp>, k: nat, r: RefState, start: int)
    requires WellFormed(t, moves) && k < |moves| && moves[k].cycleEnd
    requires InCycleBefore(moves, k)
    ensures !moves[k].from.EffectiveAddress?
    ensures RefRun(moves, 0, k, r, start).saved
            == Read(RefRun(moves, 0, LastBegin(moves, k), r, start).cells, LogicalCell(moves[k].from, start))
  {
    EndReadsBegin(t, moves, k);
    var b := LastBegin(moves, k);
    var rb := RefRun(moves, 0, b, r, start);
    RefRunSplit(moves, 0, b, k, r, start);
    RefRunSplit(moves, b, b + 1, k, rb, start);
    RefRunOne(moves, b, rb, start);
    SavedThrough(moves, b + 1, k, RefStep(rb, moves[b], start), start);
  }

  // ----------------------------------------------------------------------
  // Parallel assignment

  /** The cells whose current contents a source operand reads.  An address
      relative to the stack pointer reads none: it is fixed for the list. */
  function SourceCells(op: MoveOperand, start: int): set<Cell>
  {
    match op
    case EffectiveAddress(b, _) => if b == StackPointer then {} else {GPR(b)}
    case _ => {LogicalCell(op, start)}
  }

  /** The cells a move reads when it is performed in its turn: its source,
      and for a cycle-begin move also the destination whose value it saves.
      A cycle-end move reads only the saved value. */
  function ReadsOf(m: MoveOp, start: int): set<Cell>
    requires !m.to.EffectiveAddress?
  {
    if m.cycleEnd then {}
    else SourceCells(m.from, start) + (if m.cycleBegin then {LogicalCell(m.to, start)} else {})
  }

  /** The resolver's order: no move reads a cell that an earlier move of the
      list writes. */
  predicate ResolverOrder(moves: seq<MoveOp>, start: int)
    requires forall k | 0 <= k < |moves| :: !moves[k].to.EffectiveAddress?
  {
    forall k, l | 0 <= k < l < |moves| :: LogicalCell(moves[k].to, start) !in ReadsOf(moves[l], start)
  }

  /** The moves in positions [0, j) as one parallel assignment: every read
      is from `r`, before any move. */
  function Parallel(moves: seq<MoveOp>, j: nat, r: RefState, start: int): map<Cell, Val>
    requires j <= |moves|
    requires forall k | 0 <= k < j :: !moves[k].to.EffectiveAddress?
  {
    if j == 0 then r.cells
    else Parallel(moves, j - 1, r, start)[LogicalCell(moves[j - 1].to, start) := RefSource(r, moves[j - 1].from, start)]
  }

  /** A cell no move writes keeps its value. */
  lemma {:induction false} ParallelUntouched(moves: seq<MoveOp>, j: nat, r: RefState, start: int, c: Cell)
    requires j <= |moves|
    requires forall k | 0 <= k < j :: !moves[k].to.EffectiveAddress?
    requires forall k | 0 <= k < j :: LogicalCell(moves[k].to, start) != c
    ensures Read(Parallel(moves, j, r, start), c) == Read(r.cells, c)
  {
    if j > 0 {
      ParallelUntouched(moves, j - 1, r, start, c);
    }
  }

  /** A destination receives the value its source held before any move
      (for the last move that writes it). */
  lemma {:induction false} ParallelWritten(moves: seq<MoveOp>, j: nat, r: RefState, start: int, k: nat)
    requires k < j <= |moves|
    requires forall n | 0 <= n < j :: !moves[n].to.EffectiveAddress?
    requires forall l | k < l < j :: LogicalCell(moves[l].to, start) != LogicalCell(moves[k].to, start)
    ensures Read(Parallel(moves, j, r, start), LogicalCell(moves[k].to, start)) == RefSource(r, moves[k].from, start)
  {
    if k < j - 1 {
      ParallelWritten(moves, j - 1, r, start, k);
    }
  }

  /** A source reads the same value in two states that agree on its cells
      and on the stack's address. */
  lemma SameSource(r: RefState, s: RefState, op: MoveOperand, start: int)
    requires s.top == r.top
    requires forall c | c in SourceCells(op, start) :: Read(s.cells, c) == Read(r.cells, c)
    ensures RefSource(s, op, start) == RefSource(r, op, start)
  {
    match op
    case EffectiveAddress(b, _) =>
      if b != StackPointer {
        assert GPR(b) in SourceCells(op, start);
      }
    case _ =>
      assert LogicalCell(op, start) in SourceCells(op, start);
  }

  /** On a well-formed list in the resolver's order, performing the moves
      [0, j) in turn has the effect of their parallel assignment, and while a
      cycle is open the saved value is what its begin move's destination held
      before any move. */
  lemma {:induction false} RunIsParallel(t: Target, moves: seq<MoveOp>, j: nat, r: RefState, start: int)
    requires WellFormed(t, moves) && ResolverOrder(moves, start) && j <= |moves|
    ensures RefRun(moves, 0, j, r, start).cells == Parallel(moves, j, r, start)
    ensures InCycleBefore(moves, j) ==>
              RefRun(moves, 0, j, r, start).saved == Read(r.cells, LogicalCell(moves[LastBegin(moves, j)].to, start))
  {
    if j > 0 {
      var k := j - 1;
      var mv := moves[k];
      RunIsParallel(t, moves, k, r, start);
      var s := RefRun(moves, 0, k, r, start);
      RefRunSplit(moves, 0, k, j, r, start);
      RefRunOne(moves, k, s, start);
      if mv.cycleEnd {
        EndReadsBegin(t, moves, k);
      } else {
        forall c | c in ReadsOf(mv, start)
          ensures Read(s.cells, c) == Read(r.cells, c)
        {
          ParallelUntouched(moves, k, r, start, c);
        }
        SameSource(r, s, mv.from, start);
        if mv.cycleBegin {
          assert LogicalCell(mv.to, start) in ReadsOf(mv, start);
        }
      }
    }
  }

  /** One cycle as the resolver emits it: a begin move, flagless moves, an
      end move, chained and closed, with distinct destinations.  It is in the
      resolver's order, so performing it in turn is its parallel
      assignment. */
  lemma CycleInResolverOrder(moves: seq<MoveOp>, start: int)
    requires |moves| >= 2
    requires forall k | 0 <= k < |moves| :: !moves[k].to.EffectiveAddress?
    requires moves[0].cycleBegin && moves[|moves| - 1].cycleEnd
    requires forall k | 0 < k < |moves| - 1 :: !moves[k].cycleBegin && !moves[k].cycleEnd
    requires Chained(moves, 0, |moves| - 1)
    requires forall k, l | 0 <= k < l < |moves| :: LogicalCell(moves[k].to, start) != LogicalCell(moves[l].to, start)
    ensures ResolverOrder(moves, start)
  {
    forall k, l | 0 <= k < l < |moves|
      ensures LogicalCell(moves[k].to, start) !in ReadsOf(moves[l], start)
    {
      if l < |moves| - 1 {
        assert moves[l].from == moves[l + 1].to;
        assert ReadsOf(moves[l], start) == {LogicalCell(moves[l + 1].to, start)};
      }
    }
  }

  /** A well-formed list that is one such cycle: performing it in turn,
      with the saved value restored at the end, leaves every cell as its
      parallel assignment does. */
  lemma CycleIsParallel(t: Target, moves: seq<MoveOp>, r: RefState, start: int)
    requires WellFormed(t, moves) && |moves| >= 2
    requires moves[0].cycleBegin && moves[|moves| - 1].cycleEnd
    requires forall k | 0 < k < |moves| - 1 :: !moves[k].cycleBegin && !moves[k].cycleEnd
    requires Chained(moves, 0, |moves| - 1)
    requires forall k, l | 0 <= k < l < |moves| :: LogicalCell(moves[k].to, start) != LogicalCell(moves[l].to, start)
    ensures RefRun(moves, 0, |moves|, r, start).cells == Parallel(moves, |moves|, r, start)
  {
    assert WellPlaced(t, moves, 0);
    assert FirstEndFrom(moves, 1) == |moves| - 1;
    CycleInResolverOrder(moves, start);
    RunIsParallel(t, moves, |moves|, r, start);
  }
}
