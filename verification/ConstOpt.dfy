// Constant propagation over one basic block, proved against the interpreter.
module ConstOpt {
  import opened Word32
  import opened Isa
  import opened Blocks

  // What the pass knows about the registers: a flag and a value for each.
  type Flags = s: seq<bool> | |s| == 32 witness seq(32, _ => false)

  datatype Info = Info(known: Flags, val: Regs) {
    function Learn(r: Reg, v: Word): Info {
      Info(known[r := true], val[r := v])
    }

    function Forget(r: Reg): Info {
      Info(known[r := false], val)
    }
  }

  // Nothing but x0 is known at block entry.
  function Entry(): Info {
    Info(seq(32, r => r == 0), seq(32, _ => 0))
  }

  // ----- folding, as the pass computes it -----

  function FoldImm(op: Op, c: Word, imm: Word): Word {
    match op
    case Addi => Plus(imm, c)
    case Slti => if SLess(c, imm) then 1 else 0
    case Sltiu => if c < imm then 1 else 0
    case Xori => Xor(c, imm)
    case Ori => Or(c, imm)
    case Andi => And(c, imm)
    case Slli => Shl(c, imm % 32)
    case Srli => Shr(c, imm % 32)
    case Srai => Sar(c, imm % 32)
    case _ => 0
  }

  // MULHU is folded as an arithmetic shift of a signed 64-bit product.
  function FoldMulhu(c1: Word, c2: Word): Word {
    var p := (c1 * c2) % MOD64;
    Wrap((if p < 0x8000_0000_0000_0000 then p else p - MOD64) / MOD)
  }

  function FoldReg(op: Op, c1: Word, c2: Word): Word {
    match op
    case Add => Plus(c1, c2)
    case Sub => Minus(c1, c2)
    case Sll => Shl(c1, c2 % 32)
    case Slt => if SLess(c1, c2) then 1 else 0
    case Sltu => if c1 < c2 then 1 else 0
    case XorR => Xor(c1, c2)
    case Srl => Shr(c1, c2 % 32)
    case Sra => Sar(c1, c2 % 32)
    case OrR => Or(c1, c2)
    case AndR => And(c1, c2)
    case Mul => Wrap(Signed(c1) * Signed(c2))
    case Mulh => High(Signed(c1) * Signed(c2))
    case Mulhsu => High(Signed(c1) * c2)
    case Mulhu => FoldMulhu(c1, c2)
    case Div =>
      if c2 == 0 then MOD - 1
      else if Signed(c2) == -1 && c1 == 0x8000_0000 then c1
      else Wrap(TruncDiv(Signed(c1), Signed(c2)))
    case Divu => if c2 == 0 then MOD - 1 else Quotient(c1, c2)
    case Rem =>
      if c2 == 0 then c1
      else if Signed(c2) == -1 && c1 == 0x8000_0000 then 0
      else Wrap(TruncRem(Signed(c1), Signed(c2)))
    case Remu => if c2 == 0 then c1 else c1 % c2
    case Csub => Minus(c1, c2)
    case Cxor => Xor(c1, c2)
    case Cor => Or(c1, c2)
    case Cand => And(c1, c2)
    case Cadd => Plus(c1, c2)
    case _ => 0
  }

  // The constant a computation folds to.
  function Folded(i: Insn, c: Regs): Word {
    match i.op
    case Auipc => Plus(i.imm, i.pc)
    case Caddi4spn => Plus(c[SP], i.imm % 0x1_0000)
    case Caddi => Plus(c[i.rd], Extend16(i.imm))
    case Caddi16sp => Plus(c[i.rd], i.imm)
    case Csrli => if i.shamt < 32 then Shr(c[i.rs1], i.shamt) else 0
    case Csrai => if i.shamt < 32 then SmearRight(c[i.rs1], i.shamt) else 0
    case Candi => And(c[i.rs1], i.imm)
    case Cslli => if i.imm % 0x100 < 32 then Shl(c[i.rd], i.imm % 0x100) else 0
    case Cmv => c[i.rs2]
    case _ => if IsAluImm(i.op) then FoldImm(i.op, c[i.rs1], i.imm) else FoldReg(i.op, c[i.rs1], c[i.rs2])
  }

  // The registers a computation must know to fold.
  predicate Foldable(i: Insn, known: Flags) {
    match i.op
    case Lui | Cli | Clui => false
    case Auipc => true
    case Caddi4spn => known[SP]
    case Caddi | Caddi16sp | Cslli => known[i.rd]
    case Csrli | Csrai | Candi => known[i.rs1]
    case Cmv => known[i.rs2]
    case _ => if IsAluImm(i.op) then known[i.rs1] else known[i.rs1] && known[i.rs2]
  }

  // The condition under which a folded branch falls through.
  predicate FoldUntaken(op: Op, c1: Word, c2: Word) {
    match op
    case Beq => c1 != c2
    case Bne => c1 == c2
    case Blt => Signed(c1) >= Signed(c2)
    case Bge => Signed(c1) < Signed(c2)
    case Bltu => c1 >= c2
    case Bgeu => c1 < c2
    case _ => false
  }

  // One transfer function: the rewritten node and the knowledge after it.
  function Transfer(i: Insn, info: Info): (Insn, Info) {
    if IsComputation(i.op) then TransferComputation(i, info)
    else if IsLoad(i.op) then (i, info.Forget(i.rd))
    else if IsStore(i.op) then (i, info)
    else TransferControl(i, info)
  }

  // A folded computation becomes a constant load of the same length.
  function TransferComputation(i: Insn, info: Info): (Insn, Info) {
    if IsConstantLoad(i.op) then (i, info.Learn(i.rd, i.imm))
    else if Foldable(i, info.known) then
      var v := Folded(i, info.val);
      (i.(op := if Len(i.op) == 2 then Clui else Lui, rd := Target(i), imm := v), info.Learn(Target(i), v))
    else if IsInPlace(i.op) then (i, info)
    else (i, info.Forget(i.rd))
  }

  function TransferControl(i: Insn, info: Info): (Insn, Info) {
    match i.op
    case Jal | Jalr => (i, if i.rd != ZERO then info.Learn(i.rd, Plus(i.pc, 4)) else info)
    case Cjal => (i, info.Learn(RA, Plus(i.pc, 2)))
    case Cjalr => (i, Info(info.known[RA := true], info.val[i.rd := Plus(i.pc, 2)]))
    case Cbeqz =>
      if info.known[i.rs1] then (i.(op := Cj, imm := if info.val[i.rs1] != 0 then 2 else i.imm), info) else (i, info)
    case Cbnez =>
      if info.known[i.rs1] then (i.(op := Cj, imm := if info.val[i.rs1] == 0 then 2 else i.imm), info) else (i, info)
    case Beq | Bne | Blt | Bge | Bltu | Bgeu =>
      if info.known[i.rs1] && info.known[i.rs2] then
        (i.(op := Jal, imm := if FoldUntaken(i.op, info.val[i.rs1], info.val[i.rs2]) then 4 else i.imm), info)
      else (i, info)
    case _ => (i, info)
  }

  // ----- soundness of one step -----

  // The knowledge is true of the registers.
  ghost predicate Describes(info: Info, x: Regs) {
    forall r: Reg :: info.known[r] ==> x[r] == info.val[r]
  }

  // A nop clears x0, and the pass does not notice: what it believes of x0 has to be zero.
  predicate NoticesNop(i: Insn, info: Info) {
    i.op == Nop && info.known[0] ==> info.val[0] == 0
  }

  lemma FoldMulhuAgrees(a: Word, b: Word)
    ensures FoldMulhu(a, b) == High(a * b)
  {
    ShiftSigned(a * b);
  }

  lemma ShiftSigned(n: int)
    ensures
      var p := n % MOD64;
      Wrap((if p < 0x8000_0000_0000_0000 then p else p - MOD64) / MOD) == p / MOD
  {
  }

  lemma FoldRegAgrees(op: Op, a: Word, b: Word)
    ensures FoldReg(op, a, b) == AluReg(op, a, b)
  {
    hide Xor, Or, And, Shl, Shr, Sar, TruncDiv, TruncRem, Quotient, Plus, Minus, Wrap, High, FoldMulhu, Signed;
    FoldMulhuAgrees(a, b);
  }

  lemma FoldImmAgrees(op: Op, a: Word, imm: Word)
    ensures FoldImm(op, a, imm) == AluImm(op, a, imm)
  {
    hide Xor, Or, And, Shl, Shr, Sar, Plus;
    PlusCommutes(imm, a);
  }

  // What the pass folds a computation to is what the interpreter computes.
  lemma FoldedAgrees(i: Insn, info: Info, x: Regs)
    requires IsComputation(i.op) && Foldable(i, info.known) && Describes(info, x)
    ensures Folded(i, info.val) == Computed(i, x, i.pc)
  {
    hide FoldReg, FoldImm, AluReg, AluImm, Plus, And, Shr, Shl, SmearRight, Extend16;
    FoldRegAgrees(i.op, x[i.rs1], x[i.rs2]);
    FoldImmAgrees(i.op, x[i.rs1], i.imm);
  }

  lemma DescribesLearn(info: Info, x: Regs, r: Reg, v: Word)
    requires Describes(info, x)
    ensures Describes(info.Learn(r, v), x[r := v])
  {
  }

  lemma DescribesForget(info: Info, x: Regs, r: Reg, v: Word)
    requires Describes(info, x)
    ensures Describes(info.Forget(r), x[r := v])
    ensures !info.known[r] ==> Describes(info, x[r := v])
  {
  }

  // A rewritten computation writes the same value, and what is known afterwards is true.
  lemma ComputationSound(i: Insn, info: Info, s: Cpu)
    requires IsComputation(i.op) && Decoded(i) && Describes(info, s.x) && s.pc == i.pc
    ensures
      var (j, after) := TransferComputation(i, info);
      var v := Computed(i, s.x, s.pc);
      && IsComputation(j.op) && Len(j.op) == Len(i.op) && Target(j) == Target(i) && Computed(j, s.x, s.pc) == v
      && Describes(after, s.x[Target(i) := v])
  {
    hide Folded, Computed, Foldable, Describes, Target;
    var v := Computed(i, s.x, s.pc);
    DescribesLearn(info, s.x, Target(i), v);
    DescribesForget(info, s.x, Target(i), v);
    if IsConstantLoad(i.op) {
      ConstantLoads(i, s);
    } else if Foldable(i, info.known) {
      FoldedAgrees(i, info, s.x);
      ConstantLoads(TransferComputation(i, info).0, s);
    } else {
      Unfoldable(i, info.known);
    }
  }

  // Rewriting a node that falls through does not change its effect, and what is known afterwards
  // is true exactly when no nop has cleared a non-zero x0 unnoticed.
  lemma TransferSound(i: Insn, info: Info, s: Cpu, lenient: bool)
    requires Decoded(i) && Describes(info, s.x) && s.pc == i.pc && !IsBranch(i.op)
    ensures Act(Transfer(i, info).0, s, lenient) == Act(i, s, lenient)
    ensures Act(i, s, lenient).Fall? ==>
      (Describes(Transfer(i, info).1, Act(i, s, lenient).cpu.x) <==> NoticesNop(i, info))
  {
    hide TransferComputation, TransferControl, Computed, ClassOf, Plus, Target, Load, Store, Control, IsFused;
    NopClass();
    if IsComputation(i.op) {
      ComputationSound(i, info, s);
    } else {
      MemorySound(i, info, s, lenient);
    }
  }

  // Loads, stores and nops stay, and a loaded register is forgotten.
  lemma MemorySound(i: Insn, info: Info, s: Cpu, lenient: bool)
    requires Describes(info, s.x) && !IsComputation(i.op) && !IsBranch(i.op) && !IsFused(i.op)
    ensures Act(Transfer(i, info).0, s, lenient) == Act(i, s, lenient)
    ensures Act(i, s, lenient).Fall? ==>
      (Describes(Transfer(i, info).1, Act(i, s, lenient).cpu.x) <==> NoticesNop(i, info))
  {
    hide TransferComputation, TransferControl, Control, ClassOf, Stored, Loaded, Plus, Misaligned, Target, Len, Describes, IsFused;
    NopClass();
    if IsLoad(i.op) {
      if Act(i, s, lenient).Fall? { DescribesForget(info, s.x, i.rd, Act(i, s, lenient).cpu.x[i.rd]); }
    } else if !IsStore(i.op) {
      NopSound(i, info, s);
    }
  }

  lemma NopSound(i: Insn, info: Info, s: Cpu)
    requires Describes(info, s.x) && !IsComputation(i.op) && !IsBranch(i.op) && !IsFused(i.op)
    requires !IsLoad(i.op) && !IsStore(i.op)
    ensures TransferControl(i, info) == (i, info)
    ensures Control(i, s).Fall? && (Describes(info, Control(i, s).cpu.x) <==> NoticesNop(i, info))
  {
    hide Plus, Len, BranchTaken, ClassOf;
    NopOps(i.op);
  }

  lemma ConstantLoads(i: Insn, s: Cpu)
    requires IsConstantLoad(i.op)
    ensures Computed(i, s.x, s.pc) == i.imm && Target(i) == i.rd
  {
  }

  // An instruction that was left alone in place did not have a known operand.
  lemma Unfoldable(i: Insn, known: Flags)
    requires IsComputation(i.op) && !Foldable(i, known) && !IsConstantLoad(i.op)
    ensures IsInPlace(i.op) ==> !known[Target(i)]
    ensures !IsInPlace(i.op) ==> Target(i) == i.rd
  {
  }

  // Folding a jump or branch keeps where it goes and what it links.
  lemma ControlSound(i: Insn, info: Info, s: Cpu)
    requires IsBranch(i.op) && Decoded(i) && Describes(info, s.x)
    ensures IsBranch(TransferControl(i, info).0.op) && Len(TransferControl(i, info).0.op) == Len(i.op)
    ensures Finish(Control(TransferControl(i, info).0, s)) == Finish(Control(i, s))
  {
    hide TransferControl, Control, Len, Describes, IsBranch, IsComputation, IsFused;
    if i.op == Cbeqz || i.op == Cbnez {
      ZeroBranchSound(i, info, s);
    } else if IsCondBranch(i.op) {
      CondBranchSound(i, info, s);
    } else {
      JumpStays(i, info);
    }
  }

  lemma ZeroBranchSound(i: Insn, info: Info, s: Cpu)
    requires (i.op == Cbeqz || i.op == Cbnez) && Describes(info, s.x)
    ensures IsBranch(TransferControl(i, info).0.op) && Len(TransferControl(i, info).0.op) == Len(i.op)
    ensures Finish(Control(TransferControl(i, info).0, s)) == Finish(Control(i, s))
  {
    hide Plus, ClassOf;
    JumpClass();
    ZeroBranchClass();
  }

  lemma CondBranchSound(i: Insn, info: Info, s: Cpu)
    requires IsCondBranch(i.op) && i.rd == ZERO && Describes(info, s.x)
    ensures IsBranch(TransferControl(i, info).0.op) && Len(TransferControl(i, info).0.op) == Len(i.op)
    ensures Finish(Control(TransferControl(i, info).0, s)) == Finish(Control(i, s))
  {
    hide Plus;
  }

  lemma JumpStays(i: Insn, info: Info)
    requires !IsCondBranch(i.op) && i.op != Cbeqz && i.op != Cbnez
    ensures TransferControl(i, info).0 == i
  {
    hide Plus;
  }

  // Rewriting the node that ends the block keeps the outcome.
  lemma TransferSoundLast(i: Insn, info: Info, s: Cpu, lenient: bool)
    requires Decoded(i) && Describes(info, s.x) && s.pc == i.pc
    ensures Finish(Act(Transfer(i, info).0, s, lenient)) == Finish(Act(i, s, lenient))
  {
    if IsBranch(i.op) {
      hide *;
      LastBranchSound(i, info, s, lenient);
    } else {
      hide *;
      TransferSound(i, info, s, lenient);
    }
  }

  lemma LastBranchSound(i: Insn, info: Info, s: Cpu, lenient: bool)
    requires IsBranch(i.op) && Decoded(i) && Describes(info, s.x)
    ensures Finish(Act(Transfer(i, info).0, s, lenient)) == Finish(Act(i, s, lenient))
  {
    hide TransferControl, Control, IsBranch, IsComputation, IsLoad, IsStore, Decoded, Describes;
    ControlSound(i, info, s);
    BranchIsControl(i.op);
    BranchIsControl(TransferControl(i, info).0.op);
  }

  lemma TransferKeepsShape(i: Insn, info: Info)
    requires Decoded(i)
    ensures Len(Transfer(i, info).0.op) == Len(i.op) && Transfer(i, info).0.pc == i.pc
  {
    hide Folded, Foldable, FoldUntaken, Plus;
  }

  // ----- what is folded -----

  // The registers the value of a computation depends on.
  function Operands(i: Insn): set<Reg> {
    if IsAluImm(i.op) then {i.rs1}
    else if IsAluReg(i.op) then {i.rs1, i.rs2}
    else if IsInPlace(i.op) then {Target(i)}
    else if i.op == Caddi4spn then {SP}
    else if i.op == Cmv then {i.rs2}
    else {}
  }

  lemma OperandsSuffice(i: Insn, x: Regs, y: Regs)
    requires IsComputation(i.op) && forall r: Reg :: r in Operands(i) ==> x[r] == y[r]
    ensures Computed(i, x, i.pc) == Computed(i, y, i.pc)
  {
    hide Plus, AluImm, AluReg, And, Shr, Shl, SmearRight, Extend16;
  }

  lemma FoldableMeans(i: Insn, known: Flags)
    requires IsComputation(i.op)
    ensures Foldable(i, known) <==> !IsConstantLoad(i.op) && forall r: Reg :: r in Operands(i) ==> known[r]
  {
  }

  // Every computation whose operands are known becomes a load of its value, which is known from
  // then on; a constant load stays and is known as well.
  lemma KnownComputationFolds(i: Insn, info: Info, x: Regs)
    requires IsComputation(i.op) && Describes(info, x) && forall r: Reg :: r in Operands(i) ==> info.known[r]
    ensures
      var (j, after) := Transfer(i, info);
      && (j.op == Lui || j.op == Cli || j.op == Clui) && j.rd == Target(i) && j.imm == Computed(i, x, i.pc)
      && after == info.Learn(Target(i), j.imm)
  {
    hide Foldable, Folded, Computed, Operands, ClassOf, Target, Describes, TransferControl;
    FoldableMeans(i, info.known);
    if IsConstantLoad(i.op) {
      ConstantOps(i.op);
      ConstantLoads(i, Cpu(x, i.pc, 0, map[]));
    } else {
      FoldedAgrees(i, info, x);
    }
  }

  lemma ConstantOps(op: Op)
    requires IsConstantLoad(op)
    ensures op == Lui || op == Cli || op == Clui
  {
  }

  // What is known of a register stays known until an instruction writes it.
  lemma KnowledgeStays(i: Insn, info: Info, r: Reg)
    requires !IsFused(i.op) && !IsBranch(i.op)
    requires (IsComputation(i.op) ==> r != Target(i)) && (IsLoad(i.op) ==> r != i.rd)
    ensures Transfer(i, info).1.known[r] == info.known[r] && Transfer(i, info).1.val[r] == info.val[r]
  {
    hide Folded, Foldable, TransferControl, ClassOf, Target, IsFused;
    if IsComputation(i.op) {
      if !IsConstantLoad(i.op) && !Foldable(i, info.known) { Unfoldable(i, info.known); }
      ConstantTarget(i);
    } else if !IsLoad(i.op) && !IsStore(i.op) {
      NopOps(i.op);
      NopIsKept(i, info);
    }
  }

  lemma ConstantTarget(i: Insn)
    ensures IsConstantLoad(i.op) ==> Target(i) == i.rd
  {
  }

  // Every branch on known registers becomes a direct jump to where it goes, over itself if untaken.
  lemma KnownBranchFolds(i: Insn, info: Info)
    ensures IsCondBranch(i.op) && info.known[i.rs1] && info.known[i.rs2] ==>
      Transfer(i, info).0 == i.(op := Jal, imm := if BranchTaken(i.op, info.val[i.rs1], info.val[i.rs2]) then i.imm else 4)
    ensures i.op == Cbeqz && info.known[i.rs1] ==>
      Transfer(i, info).0 == i.(op := Cj, imm := if info.val[i.rs1] == 0 then i.imm else 2)
    ensures i.op == Cbnez && info.known[i.rs1] ==>
      Transfer(i, info).0 == i.(op := Cj, imm := if info.val[i.rs1] != 0 then i.imm else 2)
  {
    hide TransferComputation, ClassOf, Signed;
    ZeroBranchClass();
    if IsCondBranch(i.op) { CondBranchOps(i.op); }
  }

  // ----- the whole pass -----

  ghost function Optimized(b: seq<Insn>, info: Info): (r: seq<Insn>)
    ensures |r| == |b|
  {
    if b == [] then []
    else
      var (j, after) := Transfer(b[0], info);
      [j] + Optimized(b[1..], after)
  }

  // At every nop along the pass, x0 is believed to be zero or not known at all.
  ghost predicate NoStale(b: seq<Insn>, info: Info) {
    b == [] || (NoticesNop(b[0], info) && NoStale(b[1..], Transfer(b[0], info).1))
  }

  // From any state the knowledge describes, the rewritten block has the outcome of the
  // original: registers, memory, next PC, cycle count, and any misalignment trap.
  lemma {:induction false} OptimizedSound(b: seq<Insn>, info: Info, s: Cpu, lenient: bool)
    requires WellFormed(b, s.pc) && Describes(info, s.x) && NoStale(b, info)
    ensures Run(Optimized(b, info), s, lenient) == Run(b, s, lenient)
    decreases |b|
  {
    hide Transfer, Act, FusedAct, Describes, Decoded, IsBranch, Len, Plus, IsFused;
    if b != [] {
      var (j, after) := Transfer(b[0], info);
      var opt := Optimized(b, info);
      assert opt[1..] == Optimized(b[1..], after);
      HandleRewritten(b[0], info, s, lenient, |b| == 1);
      if |b| == 1 {
        assert b[1..] == [] && opt[1..] == [];
      } else if Handle(b[0], s, lenient).Fall? {
        OptimizedSound(b[1..], after, Handle(b[0], s, lenient).cpu, lenient);
      }
    }
  }

  // One node inside a run: equal flow and true knowledge, or equal outcome at the end.
  lemma HandleRewritten(i: Insn, info: Info, s: Cpu, lenient: bool, last: bool)
    requires Decoded(i) && s.pc == i.pc && Describes(info, s.x) && (IsBranch(i.op) ==> last)
    ensures Finish(Handle(Transfer(i, info).0, s, lenient)) == Finish(Handle(i, s, lenient))
    ensures !last ==> Handle(Transfer(i, info).0, s, lenient) == Handle(i, s, lenient)
    ensures !last && Handle(i, s, lenient).Fall? ==>
      var t := Handle(i, s, lenient).cpu;
      (NoticesNop(i, info) ==> Describes(Transfer(i, info).1, t.x)) && t.pc == Plus(i.pc, Len(i.op))
  {
    hide NoticesNop, Transfer, Act, FusedAct, Describes, Decoded, IsBranch, Len, Plus, IsFused, Finish;
    PlainAfterTransfer(i, info);
    TransferSoundLast(i, info, Tick(s, 1), lenient);
    if !last {
      TransferSound(i, info, Tick(s, 1), lenient);
      if Act(i, Tick(s, 1), lenient).Fall? { FallsBehind(i, Tick(s, 1), lenient); }
    }
  }

  // What a node may become: itself, a constant load into its target, or a direct jump.
  lemma TransferForms(i: Insn, info: Info)
    ensures
      var j := Transfer(i, info).0;
      || j == i
      || (IsComputation(i.op) && !IsConstantLoad(i.op) && (j.op == Lui || j.op == Clui) && j.rd == Target(i))
      || (IsBranch(i.op) && (j == i.(op := Cj, imm := j.imm) || j == i.(op := Jal, imm := j.imm)))
  {
    hide Folded, Foldable, Plus, Target, ClassOf, TransferControl, Len;
    ControlForms(i, info);
  }

  lemma ControlForms(i: Insn, info: Info)
    ensures
      var j := TransferControl(i, info).0;
      || j == i
      || (IsBranch(i.op) && (j == i.(op := Cj, imm := j.imm) || j == i.(op := Jal, imm := j.imm)))
  {
    hide FoldUntaken, Plus;
  }

  lemma PlainAfterTransfer(i: Insn, info: Info)
    requires Decoded(i)
    ensures !IsFused(i.op) && !IsFused(Transfer(i, info).0.op)
  {
    hide Transfer, ClassOf, Target;
    TransferForms(i, info);
  }

  // Every node keeps its address and its length.
  lemma {:induction false} OptimizedKeepsShape(b: seq<Insn>, info: Info, pc: Word)
    requires WellFormed(b, pc)
    ensures forall k :: 0 <= k < |b| ==> Len(Optimized(b, info)[k].op) == Len(b[k].op)
    ensures forall k :: 0 <= k < |b| ==> Optimized(b, info)[k].pc == b[k].pc
    decreases |b|
  {
    hide Transfer, Decoded, IsBranch, Len, Plus;
    if b != [] {
      TransferKeepsShape(b[0], info);
      OptimizedKeepsShape(b[1..], Transfer(b[0], info).1, Plus(pc, Len(b[0].op)));
    }
  }

  // A condition on the block alone: no nop behind a hint `c.li x0` of another value than zero,
  // unless a load into x0 makes the pass forget it.
  ghost predicate NoStaleHint(b: seq<Insn>) {
    NoStale(b, Entry())
  }

  // Constant propagation preserves the meaning of every such block from every state with x0 = 0,
  // and every node keeps its address and its length.
  lemma ConstantPropagationPreserves(b: seq<Insn>, s: Cpu, lenient: bool)
    requires WellFormed(b, s.pc) && s.x[0] == 0 && NoStaleHint(b)
    ensures Run(Optimized(b, Entry()), s, lenient) == Run(b, s, lenient)
    ensures forall k :: 0 <= k < |b| ==> Len(Optimized(b, Entry())[k].op) == Len(b[k].op)
    ensures forall k :: 0 <= k < |b| ==> Optimized(b, Entry())[k].pc == b[k].pc
  {
    hide WellFormed, Run, Optimized, Len, NoStale;
    OptimizedSound(b, Entry(), s, lenient);
    OptimizedKeepsShape(b, Entry(), s.pc);
  }

  // The pass, rewriting the IR list in place.
  method OptimizeConstant(block: Block)
    requires block.Valid()
    modifies block
    ensures block.Valid() && block.ir == Optimized(old(block.ir), Entry())
  {
    hide Transfer;
    var info := Entry();
    var i := 0;
    while i < block.count
      invariant block.Valid() && i <= block.count == |old(block.ir)|
      invariant block.ir[i..] == old(block.ir)[i..]
      invariant Optimized(old(block.ir), Entry()) == block.ir[..i] + Optimized(old(block.ir)[i..], info)
    {
      var rest := old(block.ir)[i..];
      assert rest[0] == block.ir[i] && rest[1..] == old(block.ir)[i + 1..];
      var (j, after) := Transfer(block.ir[i], info);
      block.ir := block.ir[i := j];
      info := after;
      i := i + 1;
    }
  }

  // ----- exactly when it is right -----

  // A read of x0.
  function Probe(pc: Word): Insn {
    Insn(Addi, 1, 0, 0, 0, 0, pc, 0, [])
  }

  // The block up to its nop at `k`, followed by a read of x0.
  function Probed(b: seq<Insn>, k: nat): seq<Insn>
    requires k < |b|
  {
    b[..k + 1] + [Probe(Plus(b[k].pc, 4))]
  }

  lemma {:induction false} ProbedWellFormed(b: seq<Insn>, k: nat, pc: Word)
    requires WellFormed(b, pc) && k < |b| && b[k].op == Nop
    ensures WellFormed(Probed(b, k), pc)
    decreases k
  {
    hide Plus, Decoded, IsBranch;
    NopForm(b[k]);
    var c := Probed(b, k);
    if k == 0 {
      var last := [Probe(Plus(pc, 4))];
      assert c[1..] == last && last[1..] == [];
      assert WellFormed(last, Plus(pc, 4));
    } else {
      assert c[1..] == Probed(b[1..], k - 1);
      ProbedWellFormed(b[1..], k - 1, Plus(pc, Len(b[0].op)));
    }
  }

  lemma NopForm(i: Insn)
    requires i.op == Nop
    ensures !IsBranch(i.op) && Len(i.op) == 4
    ensures forall pc: Word :: Decoded(Probe(pc)) && !IsBranch(Probe(pc).op)
  {
  }

  // The first nop at which the pass goes wrong about x0.
  lemma {:induction false} FirstStale(b: seq<Insn>, info: Info) returns (k: nat)
    requires !NoStale(b, info)
    ensures k < |b| && b[k].op == Nop && NoStale(b[..k], info) && !NoStale(b[..k + 1], info)
    decreases |b|
  {
    hide Transfer;
    if !NoticesNop(b[0], info) {
      k := 0;
    } else {
      var j := FirstStale(b[1..], Transfer(b[0], info).1);
      k := j + 1;
      assert b[..k][1..] == b[1..][..j] && b[..k + 1][1..] == b[1..][..j + 1];
    }
  }

  lemma {:induction false} NoStaleProbed(b: seq<Insn>, k: nat, info: Info)
    requires NoStale(b, info) && k < |b|
    ensures NoStale(Probed(b, k), info)
    decreases k
  {
    hide Transfer, Plus;
    var c := Probed(b, k);
    if k == 0 {
      var last := [Probe(Plus(b[0].pc, 4))];
      assert c[1..] == last && last[1..] == [];
      assert NoStale(last, Transfer(b[0], info).1);
    } else {
      assert c[1..] == Probed(b[1..], k - 1);
      NoStaleProbed(b[1..], k - 1, Transfer(b[0], info).1);
    }
  }

  lemma {:induction false} StaleDiffers(b: seq<Insn>, k: nat, info: Info, s: Cpu)
    requires k < |b| && b[k].op == Nop && WellFormed(Probed(b, k), s.pc) && Describes(info, s.x)
    requires NoStale(b[..k], info) && !NoStale(b[..k + 1], info)
    ensures Run(Optimized(Probed(b, k), info), s, true) != Run(Probed(b, k), s, true)
    decreases k
  {
    hide Transfer, Act, FusedAct, Describes, Decoded, IsBranch, Len, Plus, IsFused, NoticesNop;
    var c := Probed(b, k);
    var opt := Optimized(c, info);
    var (j, after) := Transfer(c[0], info);
    assert opt[1..] == Optimized(c[1..], after);
    if k == 0 {
      assert b[..1][1..] == [];
      StaleReads(b[0], c[1], info, s);
      assert c == [b[0], c[1]];
    } else {
      assert c[1..] == Probed(b[1..], k - 1);
      assert b[..k][1..] == b[1..][..k - 1] && b[..k + 1][1..] == b[1..][..k];
      HandleRewritten(b[0], info, s, true, false);
      StraightFalls(b[0], s);
      StaleDiffers(b[1..], k - 1, after, Handle(b[0], s, true).cpu);
    }
  }

  // A stale nop right before a read of x0: from every state, in either mode, the pass changes what
  // is read, unless a misaligned access traps before.
  lemma StaleBreaks(b: seq<Insn>, k: nat, info: Info, s: Cpu, lenient: bool)
    requires k < |b| && b[k].op == Nop && WellFormed(Probed(b, k), s.pc) && Describes(info, s.x)
    requires NoStale(b[..k], info) && !NoStale(b[..k + 1], info) && !Run(Probed(b, k), s, lenient).Trap?
    ensures Run(Optimized(Probed(b, k), info), s, lenient) != Run(Probed(b, k), s, lenient)
  {
    hide Run, Optimized, Probed, WellFormed, NoStale, Describes;
    StaleDiffers(b, k, info, s);
    if !lenient && Run(Optimized(Probed(b, k), info), s, false) == Run(Probed(b, k), s, false) {
      StrictRun(Probed(b, k), s);
      StrictRun(Optimized(Probed(b, k), info), s);
    }
  }

  lemma StraightFalls(i: Insn, s: Cpu)
    requires Decoded(i) && !IsBranch(i.op)
    ensures Handle(i, s, true).Fall?
  {
    hide Computed, Plus, Target, Loaded, Stored, Len, Misaligned, IsComputation, IsLoad, IsStore, Control;
    if !IsComputation(i.op) && !IsLoad(i.op) && !IsStore(i.op) { NopFalls(i, Tick(s, 1)); }
  }

  lemma NopFalls(i: Insn, s: Cpu)
    requires !IsFused(i.op) && !IsBranch(i.op) && !IsComputation(i.op) && !IsLoad(i.op) && !IsStore(i.op)
    ensures Control(i, s).Fall?
  {
    hide Plus, ClassOf;
    NopOps(i.op);
  }

  lemma StaleReads(i: Insn, n: Insn, info: Info, s: Cpu)
    requires i.op == Nop && !NoticesNop(i, info) && n == Probe(n.pc)
    ensures Run(Optimized([i, n], info), s, true) != Run([i, n], s, true)
  {
    hide Plus, Run, Handle, Transfer;
    var v := info.val[0];
    NopIsKept(i, info);
    SumIsFolded(n, info);
    ZeroPlus(v);
    ZeroPlus(0);
    var m := n.(op := Lui, imm := v);
    assert [i, n][1..] == [n] && [n][1..] == [];
    assert Optimized([n], info) == [m] + Optimized([], Transfer(n, info).1);
    assert Optimized([i, n], info) == [i] + Optimized([n], info);
    assert Optimized([i, n], info) == [i, m];
    HandleNop(i, s, true);
    var t := Handle(i, s, true).cpu;
    HandleSum(n, t, true);
    HandleConstant(m, t, true);
    RunTwo(i, n, s, t);
    RunTwo(i, m, s, t);
    assert Handle(n, t, true).cpu.x[1] != Handle(m, t, true).cpu.x[1];
  }

  lemma RunTwo(i: Insn, n: Insn, s: Cpu, t: Cpu)
    requires Handle(i, s, true) == Fall(t)
    ensures Run([i, n], s, true) == Finish(Handle(n, t, true))
  {
    hide Handle;
    assert [i, n][1..] == [n] && [n][1..] == [];
    RunFrom([i, n], s, true);
    RunFrom([n], t, true);
  }

  // Exactly when no hint goes stale, the pass preserves the block up to any of its nops, whatever
  // reads x0 there.
  lemma PropagationPreservesIff(b: seq<Insn>, pc: Word)
    requires WellFormed(b, pc)
    ensures NoStaleHint(b) <==>
      forall k, s: Cpu, lenient: bool :: 0 <= k < |b| && b[k].op == Nop && s.pc == pc && s.x[0] == 0 ==>
        Run(Optimized(Probed(b, k), Entry()), s, lenient) == Run(Probed(b, k), s, lenient)
  {
    hide WellFormed, Run, Optimized, NoStale, Probed;
    if NoStaleHint(b) {
      forall k, s: Cpu, lenient: bool | 0 <= k < |b| && b[k].op == Nop && s.pc == pc && s.x[0] == 0
        ensures Run(Optimized(Probed(b, k), Entry()), s, lenient) == Run(Probed(b, k), s, lenient)
      {
        ProbedWellFormed(b, k, pc);
        NoStaleProbed(b, k, Entry());
        ConstantPropagationPreserves(Probed(b, k), s, lenient);
      }
    } else {
      var k := FirstStale(b, Entry());
      var s := Cpu(seq(32, _ => 0), pc, 0, map[]);
      ProbedWellFormed(b, k, pc);
      StaleDiffers(b, k, Entry(), s);
    }
  }

  // A block with the hint `c.li x0`: the interpreter writes x0 there and clears it again at the
  // nop, while the pass goes on believing the immediate.
  function HintBlock(pc: Word): (b: seq<Insn>) {
    [Insn(Cli, 0, 0, 0, 5, 0, pc, 0, []),
     Insn(Nop, 0, 0, 0, 0, 0, Plus(pc, 2), 0, []),
     Insn(Addi, 1, 0, 0, 0, 0, Plus(pc, 6), 0, [])]
  }

  lemma HintOptimized(pc: Word)
    ensures Optimized(HintBlock(pc), Entry()) == HintBlock(pc)[2 := HintBlock(pc)[2].(op := Lui, imm := 5)]
  {
    hide Plus, Transfer;
    var b, know := HintBlock(pc), Entry().Learn(0, 5);
    HintIsLearned(b[0]);
    NopIsKept(b[1], know);
    SumIsFolded(b[2], know);
    ZeroPlus(5);
    ZeroPlus(0);
    assert b[1..][1..] == [b[2]];
    assert Optimized([b[2]], know) == [b[2].(op := Lui, imm := 5)] + Optimized([], Transfer(b[2], know).1);
    assert Optimized(b[1..], know) == [b[1]] + Optimized([b[2]], know);
    assert Optimized(b, Entry()) == [b[0]] + Optimized(b[1..], know);
  }

  lemma HintIsLearned(i: Insn)
    requires i.op == Cli && i.rd == ZERO
    ensures Transfer(i, Entry()) == (i, Entry().Learn(0, i.imm))
  {
  }

  lemma NopIsKept(i: Insn, info: Info)
    requires i.op == Nop || i.op == Cnop
    ensures Transfer(i, info) == (i, info)
  {
  }

  lemma SumIsFolded(i: Insn, info: Info)
    requires i.op == Addi && info.known[i.rs1]
    ensures Transfer(i, info).0 == i.(op := Lui, imm := Plus(i.imm, info.val[i.rs1]))
  {
    hide Plus;
  }

  lemma ZeroPlus(v: Word)
    ensures Plus(0, v) == v && Plus(v, 0) == v
  {
  }

  // A hint that goes stale: the pass changes what the block computes.
  lemma HintBreaksPropagation(s: Cpu, lenient: bool)
    ensures
      var b := HintBlock(s.pc);
      var before, after := Run(b, s, lenient), Run(Optimized(b, Entry()), s, lenient);
      before.Done? && before.cpu.x[1] == 0 && after.Done? && after.cpu.x[1] == 5
  {
    hide Plus, Run, Optimized, Handle;
    var b := HintBlock(s.pc);
    var opt := Optimized(b, Entry());
    HintOptimized(s.pc);
    ZeroPlus(0);
    var u := HintSteps(b, s, lenient);
    HandleSum(b[2], u, lenient);
    HandleConstant(opt[2], u, lenient);
    RunThree(b, s, lenient, Handle(b[0], s, lenient).cpu, u);
    RunThree(opt, s, lenient, Handle(b[0], s, lenient).cpu, u);
  }

  lemma HintSteps(b: seq<Insn>, s: Cpu, lenient: bool) returns (u: Cpu)
    requires 2 <= |b| && b[0].op == Cli && b[1].op == Nop
    ensures Handle(b[0], s, lenient).Fall? && Handle(b[1], Handle(b[0], s, lenient).cpu, lenient) == Fall(u) && u.x[0] == 0
  {
    hide Plus, Handle;
    HandleConstant(b[0], s, lenient);
    var t := Handle(b[0], s, lenient).cpu;
    HandleNop(b[1], t, lenient);
    u := Handle(b[1], t, lenient).cpu;
  }

  lemma RunThree(b: seq<Insn>, s: Cpu, lenient: bool, t: Cpu, u: Cpu)
    requires |b| == 3 && Handle(b[0], s, lenient) == Fall(t) && Handle(b[1], t, lenient) == Fall(u)
    ensures Run(b, s, lenient) == Finish(Handle(b[2], u, lenient))
  {
    hide Handle;
    RunFrom(b, s, lenient);
    RunFrom(b[1..], t, lenient);
    RunFrom(b[1..][1..], u, lenient);
    assert b[1..][1..][1..] == [];
  }
}
