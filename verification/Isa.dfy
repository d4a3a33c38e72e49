// RV32 IM C instructions as the interpreter executes them: the yardstick for the optimizers
// and for the code generator.
module Isa {
  import opened Arith
  import opened Word32

  type Reg = r: int | 0 <= r < 32

  type Regs = s: seq<Word> | |s| == 32 witness seq(32, _ => 0)

  const ZERO: Reg := 0
  const RA: Reg := 1
  const SP: Reg := 2
  const A7: Reg := 17

  datatype Op =
    | Nop | Lui | Auipc | Jal | Jalr
    | Beq | Bne | Blt | Bge | Bltu | Bgeu
    | Lb | Lh | Lw | Lbu | Lhu | Sb | Sh | Sw
    | Addi | Slti | Sltiu | Xori | Ori | Andi | Slli | Srli | Srai
    | Add | Sub | Sll | Slt | Sltu | XorR | Srl | Sra | OrR | AndR
    | Ecall | Ebreak
    | Mul | Mulh | Mulhsu | Mulhu | Div | Divu | Rem | Remu
    | Caddi4spn | Clw | Csw | Cnop | Caddi | Cjal | Cli | Caddi16sp | Clui
    | Csrli | Csrai | Candi | Csub | Cxor | Cor | Cand | Cj | Cbeqz | Cbnez
    | Cslli | Clwsp | Cjr | Cmv | Cjalr | Cadd | Cswsp
    | Fuse1 | Fuse2 | Fuse3 | Fuse4 | Fuse5 | Fuse6
    | Fuse7 | Fuse8 | Fuse9 | Fuse10 | Fuse11 | Fuse12

  // What a fused node keeps of each instruction it replaces.
  datatype Fused = Fused(op: Op, rd: Reg, rs1: Reg, rs2: Reg, imm: Word)

  // One IR node. Immediates are the 32-bit patterns of the sign-extended values.
  datatype Insn = Insn(op: Op, rd: Reg, rs1: Reg, rs2: Reg, imm: Word, shamt: Word, pc: Word,
                       imm2: Word, fuse: seq<Fused>)

  // ----- instruction classes -----

  // What an instruction does: computations by where their operands come from, then the rest.
  datatype Class =
    | AsConstant | AsPcRelative | AsImmediate | AsRegister | AsInPlace | AsStackSum | AsCopy
    | AsLoad | AsStore | AsNop
    | AsJump | AsBranch | AsZeroBranch | AsService
    | AsFused

  predicate IsFused(op: Op) {
    || op.Fuse1? || op.Fuse2? || op.Fuse3? || op.Fuse4? || op.Fuse5? || op.Fuse6?
    || op.Fuse7? || op.Fuse8? || op.Fuse9? || op.Fuse10? || op.Fuse11? || op.Fuse12?
  }

  function ClassOf(op: Op): Class {
    if IsFused(op) then AsFused else PlainClass(op)
  }

  function PlainClass(op: Op): Class {
    match op
    case Lui | Cli | Clui => AsConstant
    case Auipc => AsPcRelative
    case Addi | Slti | Sltiu | Xori | Ori | Andi | Slli | Srli | Srai => AsImmediate
    case Add | Sub | Sll | Slt | Sltu | XorR | Srl | Sra | OrR | AndR => AsRegister
    case Mul | Mulh | Mulhsu | Mulhu | Div | Divu | Rem | Remu => AsRegister
    case Csub | Cxor | Cor | Cand | Cadd => AsRegister
    case Caddi | Caddi16sp | Cslli | Csrli | Csrai | Candi => AsInPlace
    case Caddi4spn => AsStackSum
    case Cmv => AsCopy
    case Lb | Lh | Lw | Lbu | Lhu | Clw | Clwsp => AsLoad
    case Sb | Sh | Sw | Csw | Cswsp => AsStore
    case Jal | Jalr | Cjal | Cj | Cjr | Cjalr => AsJump
    case Beq | Bne | Blt | Bge | Bltu | Bgeu => AsBranch
    case Cbeqz | Cbnez => AsZeroBranch
    case Ecall | Ebreak => AsService
    case _ => AsNop
  }

  // The classes of the opcodes that proofs single out.
  lemma NopClass()
    ensures ClassOf(Nop) == AsNop && ClassOf(Cnop) == AsNop
  {
  }

  lemma ConstantClass()
    ensures ClassOf(Lui) == AsConstant && ClassOf(Cli) == AsConstant && ClassOf(Clui) == AsConstant
  {
  }

  lemma ImmediateClass()
    ensures ClassOf(Addi) == AsImmediate
  {
  }

  lemma RegisterClass()
    ensures ClassOf(Add) == AsRegister
  {
  }

  lemma MemoryClass()
    ensures ClassOf(Lw) == AsLoad && ClassOf(Sw) == AsStore
  {
  }

  lemma JumpClass()
    ensures ClassOf(Jal) == AsJump && ClassOf(Cj) == AsJump
  {
  }

  lemma BranchClass()
    ensures ClassOf(Bne) == AsBranch
  {
  }

  lemma ZeroBranchClass()
    ensures ClassOf(Cbeqz) == AsZeroBranch && ClassOf(Cbnez) == AsZeroBranch
  {
  }

  lemma ServiceClass()
    ensures ClassOf(Ecall) == AsService && ClassOf(Ebreak) == AsService
  {
  }

  lemma FusedClass(op: Op)
    ensures ClassOf(op) == AsFused <==> IsFused(op)
  {
    hide IsFused;
  }

  predicate IsConstantLoad(op: Op) { ClassOf(op) == AsConstant }
  predicate IsAluImm(op: Op) { ClassOf(op) == AsImmediate }
  predicate IsAluReg(op: Op) { ClassOf(op) == AsRegister }

  // Compressed instructions that update a register they read.
  predicate IsInPlace(op: Op) { ClassOf(op) == AsInPlace }

  predicate IsLoad(op: Op) { ClassOf(op) == AsLoad }
  predicate IsStore(op: Op) { ClassOf(op) == AsStore }
  predicate IsCondBranch(op: Op) { ClassOf(op) == AsBranch }

  // Instructions that end a basic block.
  predicate IsBranch(op: Op) {
    var c := ClassOf(op);
    c.AsJump? || c.AsBranch? || c.AsZeroBranch? || c.AsService?
  }

  // Instruction length in bytes.
  function Len(op: Op): Word {
    match op
    case Caddi4spn | Clw | Csw | Cnop | Caddi | Cjal | Cli | Caddi16sp | Clui | Csrli | Csrai | Candi | Csub => 2
    case Cxor | Cor | Cand | Cj | Cbeqz | Cbnez | Cslli | Clwsp | Cjr | Cmv | Cjalr | Cadd | Cswsp => 2
    case _ => 4
  }

  // ----- results -----

  function AluImm(op: Op, a: Word, imm: Word): Word {
    match op
    case Addi => Plus(a, imm)
    case Slti => FromBool(SLess(a, imm))
    case Sltiu => FromBool(a < imm)
    case Xori => Xor(a, imm)
    case Ori => Or(a, imm)
    case Andi => And(a, imm)
    case Slli => Shl(a, Shamt(imm))
    case Srli => Shr(a, Shamt(imm))
    case Srai => Sar(a, Shamt(imm))
    case _ => 0
  }

  function AluReg(op: Op, a: Word, b: Word): Word {
    match op
    case Add | Cadd => Plus(a, b)
    case Sub | Csub => Minus(a, b)
    case Sll => Shl(a, Shamt(b))
    case Slt => FromBool(SLess(a, b))
    case Sltu => FromBool(a < b)
    case XorR | Cxor => Xor(a, b)
    case Srl => Shr(a, Shamt(b))
    case Sra => Sar(a, Shamt(b))
    case OrR | Cor => Or(a, b)
    case AndR | Cand => And(a, b)
    case Mul => Wrap(Signed(a) * Signed(b))
    case Mulh => High(Signed(a) * Signed(b))
    case Mulhsu => High(Signed(a) * b)
    case Mulhu => High(a * b)
    case Div =>
      if b == 0 then MOD - 1
      else if Signed(b) == -1 && a == 0x8000_0000 then a
      else Wrap(TruncDiv(Signed(a), Signed(b)))
    case Divu => if b == 0 then MOD - 1 else Quotient(a, b)
    case Rem =>
      if b == 0 then a
      else if Signed(b) == -1 && a == 0x8000_0000 then 0
      else Wrap(TruncRem(Signed(a), Signed(b)))
    case Remu => if b == 0 then a else a % b
    case _ => 0
  }

  function Quotient(a: Word, b: Word): Word
    requires b != 0
  {
    DivLe(a, b);
    a / b
  }

  predicate BranchTaken(op: Op, a: Word, b: Word) {
    match op
    case Beq => a == b
    case Bne => a != b
    case Blt => SLess(a, b)
    case Bge => !SLess(a, b)
    case Bltu => a < b
    case Bgeu => a >= b
    case _ => false
  }

  // ----- memory -----

  type Byte = b: int | 0 <= b < 0x100

  // Guest RAM, little endian; unwritten bytes read as zero.
  type Memory = map<Word, Byte>

  function ByteAt(m: Memory, a: Word): Byte {
    if a in m then m[a] else 0
  }

  function ReadHalf(m: Memory, a: Word): (v: Word)
    ensures v < 0x1_0000
  {
    ByteAt(m, a) + 0x100 * ByteAt(m, Plus(a, 1))
  }

  function ReadWord(m: Memory, a: Word): Word {
    ReadHalf(m, a) + 0x1_0000 * ReadHalf(m, Plus(a, 2))
  }

  function WriteByte(m: Memory, a: Word, v: int): Memory {
    m[a := v % 0x100]
  }

  function WriteHalf(m: Memory, a: Word, v: int): Memory {
    WriteByte(WriteByte(m, a, v), Plus(a, 1), v / 0x100)
  }

  function WriteWord(m: Memory, a: Word, v: int): Memory {
    WriteHalf(WriteHalf(m, a, v), Plus(a, 2), v / 0x1_0000)
  }

  // ----- execution -----

  datatype Cpu = Cpu(x: Regs, pc: Word, cycle: nat, mem: Memory)

  datatype Cause = LoadMisaligned | StoreMisaligned

  // How a block hands control back: with the next PC, through a trap, or to an environment call.
  datatype Outcome =
    | Done(cpu: Cpu)
    | Trap(cause: Cause, addr: Word, compressed: bool, cpu: Cpu)
    | EnvCall(cpu: Cpu)
    | EnvBreak(cpu: Cpu)

  // One handler either falls through to the next IR node or leaves the block.
  datatype Flow = Fall(cpu: Cpu) | Leave(outcome: Outcome)

  function Set(s: Cpu, rd: Reg, v: Word): Cpu {
    s.(x := s.x[rd := v])
  }

  function Next(op: Op, s: Cpu): Flow {
    Fall(s.(pc := Plus(s.pc, Len(op))))
  }

  function JumpTo(s: Cpu, pc: Word): Flow {
    Leave(Done(s.(pc := pc)))
  }

  // Store the return address, except into x0.
  function Link(s: Cpu, rd: Reg, v: Word): Cpu {
    if rd != ZERO then Set(s, rd, v) else s
  }

  // A conditional branch: leave for the target, or go on behind the branch.
  function BranchIf(taken: bool, i: Insn, s: Cpu): Flow {
    if taken then JumpTo(s, Plus(s.pc, i.imm)) else Next(i.op, s)
  }

  // Accesses that are not naturally aligned trap unless misaligned accesses are allowed.
  predicate Misaligned(op: Op, addr: Word) {
    match op
    case Lb | Lbu | Sb => false
    case Lh | Lhu | Sh => addr % 2 != 0
    case _ => addr % 4 != 0
  }

  function Loaded(op: Op, m: Memory, addr: Word): Word {
    match op
    case Lb => Extend8(ByteAt(m, addr))
    case Lbu => ByteAt(m, addr)
    case Lh => Extend16(ReadHalf(m, addr))
    case Lhu => ReadHalf(m, addr)
    case _ => ReadWord(m, addr)
  }

  function Stored(op: Op, m: Memory, addr: Word, v: Word): Memory {
    match op
    case Sb => WriteByte(m, addr, v)
    case Sh => WriteHalf(m, addr, v)
    case _ => WriteWord(m, addr, v)
  }

  function Load(op: Op, s: Cpu, lenient: bool, rd: Reg, addr: Word): Flow {
    if !lenient && Misaligned(op, addr) then Leave(Trap(LoadMisaligned, addr, Len(op) == 2, s))
    else Next(op, Set(s, rd, Loaded(op, s.mem, addr)))
  }

  function Store(op: Op, s: Cpu, lenient: bool, addr: Word, v: Word): Flow {
    if !lenient && Misaligned(op, addr) then Leave(Trap(StoreMisaligned, addr, Len(op) == 2, s))
    else Next(op, s.(mem := Stored(op, s.mem, addr, v)))
  }

  // Base register of a load or store: the stack pointer is implicit in the SP forms.
  function BaseReg(i: Insn): Reg {
    if i.op == Clwsp || i.op == Cswsp then SP else i.rs1
  }

  // The value and destination of the remaining computations, which have one form each.
  function Computed(i: Insn, x: Regs, pc: Word): Word {
    match i.op
    case Lui | Cli | Clui => i.imm
    case Auipc => Plus(i.imm, pc)
    case Caddi4spn => Plus(x[SP], i.imm % 0x1_0000)
    case Caddi => Plus(x[i.rd], Extend16(i.imm))
    case Caddi16sp => Plus(x[i.rd], i.imm)
    case Csrli => if i.shamt < 32 then Shr(x[i.rs1], i.shamt) else 0
    case Csrai => if i.shamt < 32 then SmearRight(x[i.rs1], i.shamt) else 0
    case Candi => And(x[i.rs1], i.imm)
    case Cslli => if i.imm % 0x100 < 32 then Shl(x[i.rd], i.imm % 0x100) else 0
    case Cmv => x[i.rs2]
    case _ =>
      if IsAluImm(i.op) then AluImm(i.op, x[i.rs1], i.imm) else AluReg(i.op, x[i.rs1], x[i.rs2])
  }

  // Instructions whose only effect is to write `Computed` into `Target`.
  predicate IsComputation(op: Op) {
    var c := ClassOf(op);
    || c.AsConstant? || c.AsPcRelative? || c.AsImmediate? || c.AsRegister?
    || c.AsInPlace? || c.AsStackSum? || c.AsCopy?
  }

  // What stays in the block without computing or accessing memory does nothing.
  lemma NopOps(op: Op)
    requires !IsFused(op) && !IsBranch(op) && !IsComputation(op) && !IsLoad(op) && !IsStore(op)
    ensures op == Nop || op == Cnop
  {
  }

  lemma BranchIsControl(op: Op)
    requires IsBranch(op)
    ensures !IsComputation(op) && !IsLoad(op) && !IsStore(op)
  {
  }

  lemma CondBranchOps(op: Op)
    requires IsCondBranch(op)
    ensures op == Beq || op == Bne || op == Blt || op == Bge || op == Bltu || op == Bgeu
  {
  }

  function Target(i: Insn): Reg {
    match i.op
    case Csrli | Csrai | Candi => i.rs1
    case _ => i.rd
  }

  // The handler of an ordinary instruction, once it has counted its cycle.
  function Act(i: Insn, s: Cpu, lenient: bool): Flow {
    if IsComputation(i.op) then Next(i.op, Set(s, Target(i), Computed(i, s.x, s.pc)))
    else if IsLoad(i.op) then Load(i.op, s, lenient, i.rd, Plus(s.x[BaseReg(i)], i.imm))
    else if IsStore(i.op) then Store(i.op, s, lenient, Plus(s.x[BaseReg(i)], i.imm), s.x[i.rs2])
    else Control(i, s)
  }

  // Jumps, branches, environment calls and nops.
  function Control(i: Insn, s: Cpu): Flow {
    match i.op
    case Nop => Next(i.op, Set(s, ZERO, 0))
    case Cnop => Next(i.op, s)
    case Jal => JumpTo(Link(s, i.rd, Plus(s.pc, 4)), Plus(s.pc, i.imm))
    case Jalr =>
      var t := Plus(s.x[i.rs1], i.imm);
      JumpTo(Link(s, i.rd, Plus(s.pc, 4)), t - t % 2)
    case Cjal => JumpTo(Set(s, RA, Plus(s.pc, 2)), Plus(s.pc, i.imm))
    case Cj => JumpTo(s, Plus(s.pc, i.imm))
    case Cjr => JumpTo(s, s.x[i.rs1])
    case Cjalr => JumpTo(Set(s, RA, Plus(s.pc, 2)), s.x[i.rs1])
    case Cbeqz => BranchIf(s.x[i.rs1] == 0, i, s)
    case Cbnez => BranchIf(s.x[i.rs1] != 0, i, s)
    case Ecall => Leave(EnvCall(s))
    case Ebreak => Leave(EnvBreak(s))
    case _ => BranchIf(BranchTaken(i.op, s.x[i.rs1], s.x[i.rs2]), i, s)
  }

  // A block that runs off its last node is done.
  function Finish(f: Flow): Outcome {
    match f
    case Fall(s) => Done(s)
    case Leave(o) => o
  }

  // The state a handler ends in, either way.
  function Final(f: Flow): Cpu {
    match f
    case Fall(t) => t
    case Leave(o) => o.cpu
  }

  function Tick(s: Cpu, n: nat): Cpu {
    s.(cycle := s.cycle + n)
  }
}
