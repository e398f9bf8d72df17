/** An abstract x86/x64 machine that executes the instruction log the move
    emitter produces.  Register and memory contents are opaque integers that
    are only copied, except for the pointer additions of `lea`/`addPtr` and
    the bitwise XOR of `vxorpd`.  Stack memory is addressed relative to a fixed
    top-of-stack address: the cell `Stack(k)` lives at address `top + k`, and
    the physical stack pointer is `top - depth`, where `depth` is the number of
    bytes the assembler has pushed (its `framePushed`). */
module MoveMachine {

  type Val = int

  /** Register number of the stack pointer (esp / rsp). */
  const StackPointer: nat := 4

  /** An operand of an emitted instruction, after stack displacements have
      been translated for the current stack depth. */
  datatype Operand =
    | Reg(r: nat)                   // general-purpose register
    | FReg(f: nat)                  // float / SIMD register
    | Mem(base: nat, disp: int)     // memory at base register + displacement

  /** The register-file or memory copies the assembler offers.  All of them
      have the same effect on opaque values: the destination receives the
      source's value. */
  datatype Opcode =
    | Move32 | Load32 | Store32
    | Mov | LoadPtr
    | MoveFloat32 | LoadFloat32 | StoreFloat32
    | MoveDouble | LoadDouble | StoreDouble
    | MoveInt32x4 | LoadAlignedInt32x4 | StoreAlignedInt32x4
    | MoveFloat32x4 | LoadAlignedFloat32x4 | StoreAlignedFloat32x4

  datatype Inst =
    | Copy(op: Opcode, src: Operand, dst: Operand)
    | Xchg(a: nat, b: nat)
    | Vxorpd(src1: nat, src0: nat, dest: nat)     // dest := src0 ^ src1
    | Push(src: Operand)
    | Pop(dst: Operand)
    | Lea(src: Operand, target: nat)
    | AddPtr(imm: int, dst: Operand)
    | ReserveStack(amount: nat)
    | FreeStack(amount: nat)

  /** A storage location of the machine. */
  datatype Cell =
    | GPR(r: nat)
    | FPR(f: nat)
    | Stack(offset: int)             // the stack cell at address top + offset
    | Heap(base: nat, disp: int)     // memory addressed off a non-stack base

  datatype Machine = Machine(cells: map<Cell, Val>, depth: int, top: Val)

  function Read(cells: map<Cell, Val>, c: Cell): Val
  {
    if c in cells then cells[c] else 0
  }

  /** The cell an operand designates when the stack is `depth` bytes deep. */
  function CellOf(op: Operand, depth: int): Cell
  {
    match op
    case Reg(r) => GPR(r)
    case FReg(f) => FPR(f)
    case Mem(b, d) => if b == StackPointer then Stack(d - depth) else Heap(b, d)
  }

  /** The value an operand yields; the stack pointer register yields the
      current stack address. */
  function ValueOf(m: Machine, op: Operand): Val
  {
    if op == Reg(StackPointer) then m.top - m.depth else Read(m.cells, CellOf(op, m.depth))
  }

  /** The address an instruction of the form `lea op, reg` computes. */
  function AddressOf(m: Machine, op: Operand): Val
  {
    match op
    case Mem(b, d) =>
      if b == StackPointer then m.top - m.depth + d else Read(m.cells, GPR(b)) + d
    case _ => 0
  }

  function Write(m: Machine, c: Cell, v: Val): Machine
  {
    m.(cells := m.cells[c := v])
  }

  /** One instruction; `ptrSize` is the width of a push or pop. A push reads
      its operand before moving the stack pointer; a pop computes its
      destination after moving it. */
  function Exec(ptrSize: nat, inst: Inst, m: Machine): Machine
  {
    match inst
    case Copy(_, src, dst) => Write(m, CellOf(dst, m.depth), ValueOf(m, src))
    case Xchg(a, b) =>
      var va, vb := Read(m.cells, GPR(a)), Read(m.cells, GPR(b));
      Write(Write(m, GPR(a), vb), GPR(b), va)
    case Vxorpd(src1, src0, dest) =>
      Write(m, FPR(dest), Xor(Read(m.cells, FPR(src0)), Read(m.cells, FPR(src1))))
    case Push(src) =>
      var v := ValueOf(m, src);
      var d := m.depth + ptrSize;
      m.(cells := m.cells[Stack(-d) := v], depth := d)
    case Pop(dst) =>
      var v := Read(m.cells, Stack(-m.depth));
      var d := m.depth - ptrSize;
      Write(m.(depth := d), CellOf(dst, d), v)
    case Lea(src, dst) => Write(m, GPR(dst), AddressOf(m, src))
    case AddPtr(imm, dst) =>
      var c := CellOf(dst, m.depth);
      Write(m, c, Read(m.cells, c) + imm)
    case ReserveStack(n) => m.(depth := m.depth + n)
    case FreeStack(n) => m.(depth := m.depth - n)
  }

  /** Executes an instruction log from left to right. */
  function Run(ptrSize: nat, code: seq<Inst>, m: Machine): Machine
    decreases |code|
  {
    if code == [] then m else Run(ptrSize, code[1..], Exec(ptrSize, code[0], m))
  }

  lemma {:induction false} RunAppend(ptrSize: nat, a: seq<Inst>, b: seq<Inst>, m: Machine)
    ensures Run(ptrSize, a + b, m) == Run(ptrSize, b, Run(ptrSize, a, m))
    decreases |a|
  {
    if a == [] {
      assert a + b == b;
    } else {
      assert (a + b)[0] == a[0] && (a + b)[1..] == a[1..] + b;
      RunAppend(ptrSize, a[1..], b, Exec(ptrSize, a[0], m));
    }
  }

  /** Appending one instruction executes it last. */
  lemma RunSnoc(ptrSize: nat, a: seq<Inst>, i: Inst, m: Machine)
    ensures Run(ptrSize, a + [i], m) == Exec(ptrSize, i, Run(ptrSize, a, m))
  {
    RunAppend(ptrSize, a, [i], m);
  }

  lemma Run1(ptrSize: nat, a: Inst, m: Machine)
    ensures Run(ptrSize, [a], m) == Exec(ptrSize, a, m)
  {
    assert [a][1..] == [];
  }

  lemma Run2(ptrSize: nat, a: Inst, b: Inst, m: Machine)
    ensures Run(ptrSize, [a, b], m) == Exec(ptrSize, b, Exec(ptrSize, a, m))
  {
    assert [a, b][1..] == [b];
    Run1(ptrSize, b, Exec(ptrSize, a, m));
  }

  lemma Run3(ptrSize: nat, a: Inst, b: Inst, c: Inst, m: Machine)
    ensures Run(ptrSize, [a, b, c], m) == Exec(ptrSize, c, Exec(ptrSize, b, Exec(ptrSize, a, m)))
  {
    assert [a, b, c][1..] == [b, c];
    Run2(ptrSize, b, c, Exec(ptrSize, a, m));
  }

  // ---------------------------------------------------------------------
  // Bitwise XOR on integers (two's complement, infinitely sign-extended).

  function NatXor(a: nat, b: nat): nat
    decreases a + b
  {
    if a == 0 && b == 0 then 0
    else 2 * NatXor(a / 2, b / 2) + (a + b) % 2
  }

  function Xor(a: int, b: int): int
  {
    if a >= 0 && b >= 0 then NatXor(a, b)
    else if a < 0 && b < 0 then NatXor(-1 - a, -1 - b)
    else if a < 0 then -1 - NatXor(-1 - a, b)
    else -1 - NatXor(a, -1 - b)
  }

  lemma {:induction false} NatXorZero(a: nat)
    ensures NatXor(a, 0) == a
    decreases a
  {
    if a != 0 { NatXorZero(a / 2); }
  }

  lemma {:induction false} NatXorComm(a: nat, b: nat)
    ensures NatXor(a, b) == NatXor(b, a)
    decreases a + b
  {
    if a != 0 || b != 0 { NatXorComm(a / 2, b / 2); }
  }

  lemma Halves(q: nat, r: nat)
    requires r < 2
    ensures (2 * q + r) / 2 == q && (2 * q + r) % 2 == r
  {
  }

  lemma ParityCancel(a: nat, b: nat)
    ensures ((a + b) % 2 + b) % 2 == a % 2
  {
    var a0, b0 := a % 2, b % 2;
    assert a == 2 * (a / 2) + a0 && b == 2 * (b / 2) + b0;
    assert (a + b) % 2 == (a0 + b0) % 2;
  }

  lemma ParityShift(q: nat, r: nat, b: nat)
    ensures (2 * q + r + b) % 2 == (r + b) % 2
  {
  }

  lemma {:induction false} NatXorCancel(a: nat, b: nat)
    ensures NatXor(NatXor(a, b), b) == a
    decreases a + b
  {
    if b == 0 {
      NatXorZero(a);
      NatXorZero(NatXor(a, b));
    } else {
      NatXorCancel(a / 2, b / 2);
      var q := NatXor(a / 2, b / 2);
      var r := (a + b) % 2;
      var x := NatXor(a, b);
      assert x == 2 * q + r;
      Halves(q, r);
      assert NatXor(x, b) == 2 * NatXor(x / 2, b / 2) + (x + b) % 2;
      ParityShift(q, r, b);
      ParityCancel(a, b);
      assert NatXor(x, b) == 2 * (a / 2) + a % 2;
    }
  }

  lemma XorComm(a: int, b: int)
    ensures Xor(a, b) == Xor(b, a)
  {
    if a >= 0 && b >= 0 { NatXorComm(a, b); }
    else if a < 0 && b >= 0 { NatXorComm(-1 - a, b); }
    else if a >= 0 && b < 0 { NatXorComm(a, -1 - b); }
    else { NatXorComm(-1 - a, -1 - b); }
  }

  /** XOR-ing twice with the same value gives back the original. */
  lemma XorCancel(a: int, b: int)
    ensures Xor(Xor(a, b), b) == a
  {
    if a >= 0 && b >= 0 { NatXorCancel(a, b); }
    else if a < 0 && b >= 0 { NatXorCancel(-1 - a, b); }
    else if a >= 0 && b < 0 { NatXorCancel(a, -1 - b); }
    else { NatXorCancel(-1 - a, -1 - b); }
  }

  /** The three-instruction XOR swap of two distinct float registers
      exchanges their contents and changes nothing else. */
  lemma XorSwap(ptrSize: nat, a: nat, b: nat, m: Machine)
    requires a != b
    ensures var m' := Run(ptrSize, [Vxorpd(a, b, b), Vxorpd(b, a, a), Vxorpd(a, b, b)], m);
            m' == m.(cells := m.cells[FPR(a) := Read(m.cells, FPR(b))][FPR(b) := Read(m.cells, FPR(a))])
  {
    var va, vb := Read(m.cells, FPR(a)), Read(m.cells, FPR(b));
    var code := [Vxorpd(a, b, b), Vxorpd(b, a, a), Vxorpd(a, b, b)];
    var m1 := Exec(ptrSize, code[0], m);
    assert Read(m1.cells, FPR(b)) == Xor(vb, va);
    var m2 := Exec(ptrSize, code[1], m1);
    XorComm(va, Xor(vb, va));
    XorComm(vb, va);
    XorCancel(va, vb);
    XorCancel(vb, va);
    assert Read(m2.cells, FPR(a)) == vb;
    var m3 := Exec(ptrSize, code[2], m2);
    assert Read(m3.cells, FPR(b)) == Xor(Xor(vb, va), vb);
    XorComm(Xor(vb, va), vb);
    assert Read(m3.cells, FPR(b)) == va;
    assert Run(ptrSize, code, m) == m3 by {
      assert code[1..] == [code[1], code[2]] && code[1..][1..] == [code[2]];
      assert Run(ptrSize, code[1..][1..], m2) == m3;
    }
    assert m3.cells == m.cells[FPR(a) := vb][FPR(b) := va];
  }
}
