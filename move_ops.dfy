/** The input of the move emitter: a resolved, linearized list of moves that
    the register allocator meant to happen at once, with cycles marked by
    begin/end flags; the target's capabilities; and the meaning of such a list
    (the reference semantics the emitted code is proved against). */
module MoveOps {
  import opened MoveMachine

  datatype Option<T> = None | Some(value: T)

  /** The width/class tag of a move. */
  datatype MoveType = Int32 | General | Float32 | Double | Int32x4 | Float32x4

  /** A location as the register allocator describes it.  Stack-pointer based
      memory is relative to the stack pointer at the start of emission. */
  datatype MoveOperand =
    | GeneralReg(reg: nat)
    | FloatReg(freg: nat)
    | Memory(base: nat, disp: int)
    | EffectiveAddress(base: nat, disp: int)   // the address base + disp itself

  datatype MoveOp = MoveOp(from: MoveOperand, to: MoveOperand, kind: MoveType,
                           cycleBegin: bool, cycleEnd: bool, endCycleType: MoveType)

  /** What the emitter knows about its target: whether it is x64, the optional
      scratch general register (`hasScratchRegister`/`scratchRegister`; x64
      always has one) and the float/SIMD scratch register. */
  datatype Target = Target(x64: bool, scratch: Option<nat>, scratchFloat: nat)

  predicate ValidTarget(t: Target)
  {
    (t.x64 ==> t.scratch.Some?) && (t.scratch.Some? ==> t.scratch.value != StackPointer)
  }

  /** sizeof(void*): the amount a push or pop moves the stack. */
  function PointerSize(t: Target): nat
  {
    if t.x64 then 8 else 4
  }

  const Simd128DataSize: nat := 16

  /** The classes whose cycle-break value is saved by a push rather than in
      the reserved cycle slot: pointer-width moves, and 32-bit moves on x86
      (x64 cannot pop into a 32-bit destination). */
  predicate UsesPush(t: Target, kind: MoveType)
  {
    kind == General || (kind == Int32 && !t.x64)
  }

  /** The size the completing move asserts the reserved slot has. */
  function SlotSize(kind: MoveType): nat
  {
    match kind
    case Int32 => 4
    case Float32 => 4
    case Double => 8
    case _ => Simd128DataSize
  }

  // ----------------------------------------------------------------------
  // Well-formed operands

  /** A general register the allocator may hand out: neither the stack
      pointer nor the emitter's scratch register. */
  predicate UsableReg(t: Target, r: nat)
  {
    r != StackPointer && (t.scratch.Some? ==> r != t.scratch.value)
  }

  predicate ValidAddress(t: Target, base: nat, disp: int)
  {
    (base == StackPointer || UsableReg(t, base)) && (base == StackPointer ==> disp >= 0)
  }

  predicate ValidDest(t: Target, kind: MoveType, op: MoveOperand)
  {
    match op
    case GeneralReg(r) => (kind == Int32 || kind == General) && UsableReg(t, r)
    case FloatReg(f) => kind != Int32 && kind != General && f != t.scratchFloat
    case Memory(b, d) => ValidAddress(t, b, d)
    case EffectiveAddress(_, _) => false
  }

  predicate ValidSource(t: Target, kind: MoveType, op: MoveOperand)
  {
    ValidDest(t, kind, op) || (kind == General && op.EffectiveAddress? && ValidAddress(t, op.base, op.disp))
  }

  predicate ValidMove(t: Target, m: MoveOp)
  {
    ValidSource(t, m.kind, m.from) && ValidDest(t, m.kind, m.to) && m.from != m.to
  }

  // ----------------------------------------------------------------------
  // Cycle structure of a move list

  /** Whether a cycle is open when the walk reaches position `i`; an end flag
      takes precedence over a begin flag, as in the emitter. */
  function InCycleBefore(moves: seq<MoveOp>, i: nat): bool
    requires i <= |moves|
  {
    if i == 0 then false
    else if moves[i - 1].cycleEnd then false
    else if moves[i - 1].cycleBegin then true
    else InCycleBefore(moves, i - 1)
  }

  predicate HasEndFrom(moves: seq<MoveOp>, j: nat)
  {
    exists k :: j <= k < |moves| && moves[k].cycleEnd
  }

  /** The first move at or after `j` that carries the cycle-end flag. */
  function FirstEndFrom(moves: seq<MoveOp>, j: nat): (e: nat)
    requires HasEndFrom(moves, j)
    ensures j <= e < |moves| && moves[e].cycleEnd
    ensures forall k :: j <= k < e ==> !moves[k].cycleEnd
    decreases |moves| - j
  {
    if moves[j].cycleEnd then j
    else
      assert HasEndFrom(moves, j + 1) by {
        var k :| j <= k < |moves| && moves[k].cycleEnd;
        assert k != j;
      }
      FirstEndFrom(moves, j + 1)
  }

  /** The moves in positions [i, e] form a closed chain: each reads what the
      next one overwrites, and the last reads what the first overwrites. */
  predicate Chained(moves: seq<MoveOp>, i: nat, e: nat)
    requires i <= e < |moves|
  {
    (forall j | i <= j < e :: moves[j].from == moves[j + 1].to) && moves[e].from == moves[i].to
  }

  /** A cycle begun at `i` ends at a later move whose type is the one the
      beginning move announced, and that type can hold the value saved from
      the beginning move's destination; the end move reads what the
      beginning move overwrites.  The moves in between need not form a
      chain: other moves reading the same source may sit inside the cycle,
      and `characterizeCycle` then declines to optimize it. */
  predicate CycleCloses(t: Target, moves: seq<MoveOp>, i: nat)
    requires i < |moves|
  {
    && HasEndFrom(moves, i + 1)
    && moves[FirstEndFrom(moves, i + 1)].kind == moves[i].endCycleType
    && ValidDest(t, moves[i].endCycleType, moves[i].to)
    && moves[FirstEndFrom(moves, i + 1)].from == moves[i].to
  }

  /** What the linearizer guarantees of the move at `i`: it is well typed; an
      end move closes an open cycle; a begin move opens a cycle only when none
      is open, and that cycle is closed later by a move of the announced
      type. */
  predicate WellPlaced(t: Target, moves: seq<MoveOp>, i: nat)
    requires i < |moves|
  {
    && ValidMove(t, moves[i])
    && (moves[i].cycleEnd ==> InCycleBefore(moves, i))
    && (moves[i].cycleBegin && !moves[i].cycleEnd ==> !InCycleBefore(moves, i) && CycleCloses(t, moves, i))
  }

  /** What the linearizer guarantees of its output: every move is well
      placed, so cycles do not nest, and the list ends outside a cycle.  The
      second clause follows from the first (an address is never a
      destination) and is kept separate so that it applies to every position
      without unfolding the first. */
  predicate WellFormed(t: Target, moves: seq<MoveOp>)
  {
    && (forall i | 0 <= i < |moves| :: WellPlaced(t, moves, i))
    && (forall i | 0 <= i < |moves| :: !moves[i].to.EffectiveAddress?)
    && !InCycleBefore(moves, |moves|)
  }

  // ----------------------------------------------------------------------
  // Reference semantics

  /** The state the move list describes: the user-visible cells, the value a
      pending cycle saved, and the top-of-stack address. */
  datatype RefState = RefState(cells: map<Cell, Val>, saved: Val, top: Val)

  /** The machine cell a non-address operand names, for a stack that was
      `start` bytes deep when emission began. */
  function LogicalCell(op: MoveOperand, start: int): Cell
    requires !op.EffectiveAddress?
  {
    match op
    case GeneralReg(r) => GPR(r)
    case FloatReg(f) => FPR(f)
    case Memory(b, d) => if b == StackPointer then Stack(d - start) else Heap(b, d)
  }

  function RefSource(r: RefState, op: MoveOperand, start: int): Val
  {
    match op
    case EffectiveAddress(b, d) =>
      if b == StackPointer then r.top - start + d else Read(r.cells, GPR(b)) + d
    case _ => Read(r.cells, LogicalCell(op, start))
  }

  /** One move of the list: a plain move copies; a cycle-begin move first
      saves the value it is about to overwrite; a cycle-end move stores that
      saved value.  The end move's source is the begin move's destination,
      so the saved value is what that source held just before the cycle
      began (`MoveParallel.RestoredValue`). */
  function RefStep(r: RefState, m: MoveOp, start: int): RefState
    requires !m.to.EffectiveAddress?
  {
    var dst := LogicalCell(m.to, start);
    if m.cycleEnd then r.(cells := r.cells[dst := r.saved])
    else
      var r1 := if m.cycleBegin then r.(saved := Read(r.cells, dst)) else r;
      r1.(cells := r1.cells[dst := RefSource(r, m.from, start)])
  }

  /** The moves in positions [i, j) one after the other; moves never change
      the stack's address. */
  function RefRun(moves: seq<MoveOp>, i: nat, j: nat, r: RefState, start: int): (r': RefState)
    requires i <= j <= |moves|
    requires forall k | i <= k < j :: !moves[k].to.EffectiveAddress?
    ensures r'.top == r.top
    decreases j - i
  {
    if i == j then r else RefRun(moves, i + 1, j, RefStep(r, moves[i], start), start)
  }

  /** The cells the emitter must preserve: everything except the stack
      pointer, the scratch registers and the stack below the starting depth. */
  predicate UserCell(t: Target, start: int, c: Cell)
  {
    match c
    case GPR(r) => UsableReg(t, r)
    case FPR(f) => f != t.scratchFloat
    case Stack(k) => k >= -start
    case Heap(_, _) => true
  }

  ghost predicate Agree(t: Target, start: int, mc: map<Cell, Val>, rc: map<Cell, Val>)
  {
    forall c :: UserCell(t, start, c) ==> Read(mc, c) == Read(rc, c)
  }
}
