// Code generation for one block: every generator through the register allocator, proved against
// the interpreter.
module JitGen {
  import opened Word32
  import opened Isa
  import opened Blocks
  import opened JitHost
  import opened JitAlloc

  // ----- instructions that stay in the block -----

  // From every start, guest memory and the request to the environment are as they were.
  twostate predicate Quiet(j: Jit)
    reads j
  {
    forall st :: j.good(st) ==> j.Now(st).mem == old(j.Now(st)).mem && j.Now(st).call == old(j.Now(st)).call
  }

  // A source register in one host register, and a host register for the destination.
  method PlaceOne(j: Jit, rs: Reg, rd: Reg) returns (a: nat, d: nat)
    requires j.Ready()
    modifies j`regmap, j`code, j`holes
    ensures j.Valid() && j.holes <= {d} && d < |j.regmap| && j.regmap[d].vm == rd && j.SameElse()
    ensures a == d ==> j.holes == {} && rs == rd
    ensures forall st :: j.good(st) ==> Get(j.Now(st), Slot(a)) == j.x(st)[rs]
  {
    hide Sim, RunHost;
    a := j.RaLoad(rs);
    d := j.MapVmReg(rd, a, -1);
  }

  // Two source registers in host registers, and a host register for the destination.
  method PlaceBoth(j: Jit, rs1: Reg, rs2: Reg, rd: Reg) returns (a: nat, b: nat, d: nat)
    requires j.Ready()
    modifies j`regmap, j`code, j`holes
    ensures j.Valid() && j.holes <= {d} && d < |j.regmap| && j.regmap[d].vm == rd && j.SameElse()
    ensures a < |j.regmap| && j.regmap[a].vm == rs1 && a !in j.holes
    ensures forall st :: j.good(st) ==> Get(j.Now(st), Slot(a)) == j.x(st)[rs1] && Get(j.Now(st), Slot(b)) == j.x(st)[rs2]
  {
    hide Sim, RunHost;
    a, b := j.RaLoad2(rs1, rs2);
    d := j.MapVmReg(rd, a, b);
  }

  // A constant into a register.
  method GenConst(j: Jit, rd: Reg, v: Word)
    requires j.Ready() && rd != ZERO
    modifies j`regmap, j`code, j`holes, j`x
    ensures j.Ready() && j.SameElse()
    ensures forall st :: j.good(st) ==> j.x(st) == old(j.x)(st)[rd := v]
  {
    hide Sim, RunHost;
    var k := j.MapVmReg(rd, -1, -1);
    j.Write(LoadImm(Slot(k), v), k);
  }

  // A computation with an immediate: copy the source, then operate in place.
  method GenImm(j: Jit, op: HOp, rs: Reg, rd: Reg, imm: Word)
    requires j.Ready() && rd != ZERO
    modifies j`regmap, j`code, j`holes, j`x
    ensures j.Ready() && j.SameElse()
    ensures forall st :: j.good(st) ==> j.x(st) == old(j.x)(st)[rd := HostAlu(op, old(j.x)(st)[rs], imm)]
  {
    hide Sim, RunHost, HostAlu;
    var d := CopyInto(j, rs, rd);
    j.Write(AluConst(op, Slot(d), imm), d);
  }

  // The source in the host register of the destination.
  method CopyInto(j: Jit, rs: Reg, rd: Reg) returns (d: nat)
    requires j.Ready() && rd != ZERO
    modifies j`regmap, j`code, j`holes, j`x
    ensures j.Ready() && j.SameElse() && d < |j.regmap| && j.regmap[d].vm == rd
    ensures forall st :: j.good(st) ==> j.x(st) == old(j.x)(st)[rd := old(j.x)(st)[rs]]
    ensures forall st :: j.good(st) ==> Get(j.Now(st), Slot(d)) == old(j.x)(st)[rs]
  {
    hide Sim, RunHost;
    var a;
    a, d := PlaceOne(j, rs, rd);
    if a != d { j.Write(Mov(Slot(a), Slot(d)), d); }
    j.Filled(d);
  }

  // A compressed computation on one register.
  method GenInPlace(j: Jit, op: HOp, r: Reg, imm: Word)
    requires j.Ready() && r != ZERO
    modifies j`regmap, j`code, j`holes, j`x
    ensures j.Ready() && j.SameElse()
    ensures forall st :: j.good(st) ==> j.x(st) == old(j.x)(st)[r := HostAlu(op, old(j.x)(st)[r], imm)]
  {
    hide Sim, RunHost, HostAlu;
    var a := j.RaLoad(r);
    j.Write(AluConst(op, Slot(a), imm), a);
  }

  predicate IsShift(op: HOp) {
    op == HShl || op == HShr || op == HSar
  }

  // A computation on two registers: the second operand goes through the scratch register, so that
  // the destination may be either of them.
  method GenReg(j: Jit, op: HOp, rs1: Reg, rs2: Reg, rd: Reg)
    requires j.Ready() && rd != ZERO
    modifies j`regmap, j`code, j`holes, j`x
    ensures j.Ready() && Quiet(j)
    ensures forall st :: j.good(st) ==> j.x(st) == old(j.x)(st)[rd := HostAlu(op, old(j.x)(st)[rs1], old(j.x)(st)[rs2])]
  {
    hide Sim, RunHost, HostAlu;
    ghost var x := j.x;
    var d := BothInto(j, rs1, rs2, rd);
    if IsShift(op) {
      MaskCount(j);
      forall st | j.good(st) ensures HostAlu(op, x(st)[rs1], j.Now(st).temp) == HostAlu(op, x(st)[rs1], x(st)[rs2]) {
        MaskedShift(op, x(st)[rs1], x(st)[rs2]);
      }
    }
    j.Write(Alu(op, Temp, Slot(d)), d);
  }

  // The first operand in the host register of the destination, the second in the scratch register.
  method BothInto(j: Jit, rs1: Reg, rs2: Reg, rd: Reg) returns (d: nat)
    requires j.Ready() && rd != ZERO
    modifies j`regmap, j`code, j`holes, j`x
    ensures j.Ready() && Quiet(j) && d < |j.regmap| && j.regmap[d].vm == rd
    ensures forall st :: j.good(st) ==> j.x(st) == old(j.x)(st)[rd := old(j.x)(st)[rs1]]
    ensures forall st :: j.good(st) ==> Get(j.Now(st), Slot(d)) == old(j.x)(st)[rs1] && j.Now(st).temp == old(j.x)(st)[rs2]
  {
    hide Sim, RunHost;
    var a, b;
    a, b, d := PlaceBoth(j, rs1, rs2, rd);
    j.Prepare(Mov(Slot(b), Temp));
    j.Write(Mov(Slot(a), Slot(d)), d);
    j.Filled(d);
  }

  // Only five bits of a shift count matter.
  method MaskCount(j: Jit)
    requires j.Valid()
    modifies j`code
    ensures j.Valid() && Quiet(j)
    ensures forall st :: j.good(st) ==> j.Now(st).temp == HostAlu(HAnd, old(j.Now(st)).temp, 31)
    ensures forall st :: j.good(st) ==> j.Now(st).regs == old(j.Now(st)).regs
  {
    hide Sim, RunHost, HostAlu;
    j.Prepare(AluConst(HAnd, Temp, 31));
  }

  lemma MaskedShift(op: HOp, a: Word, b: Word)
    requires IsShift(op)
    ensures HostAlu(op, a, HostAlu(HAnd, b, 31)) == HostAlu(op, a, b)
  {
    hide And, Shl, Shr, Sar;
    AndThirtyOne(b);
  }

  // A comparison of two registers.
  method GenSet(j: Jit, cond: Cond, rs1: Reg, rs2: Reg, rd: Reg)
    requires j.Ready() && rd != ZERO
    modifies j`regmap, j`code, j`holes, j`x
    ensures j.Ready() && Quiet(j)
    ensures forall st :: j.good(st) ==>
      j.x(st) == old(j.x)(st)[rd := FromBool(Holds(cond, old(j.x)(st)[rs1], old(j.x)(st)[rs2]))]
  {
    hide Sim, RunHost, Holds;
    var a, b, d := PlaceBoth(j, rs1, rs2, rd);
    j.Compare(Cmp(Slot(a), Slot(b)), a);
    FlagInto(j, cond, d, rd);
  }

  // A comparison with an immediate; the flags survive the mapping of the destination.
  method GenSetImm(j: Jit, cond: Cond, rs: Reg, rd: Reg, imm: Word)
    requires j.Ready() && rd != ZERO
    modifies j`regmap, j`code, j`holes, j`x
    ensures j.Ready() && Quiet(j)
    ensures forall st :: j.good(st) ==> j.x(st) == old(j.x)(st)[rd := FromBool(Holds(cond, old(j.x)(st)[rs], imm))]
  {
    hide Sim, RunHost, Holds;
    var a := j.RaLoad(rs);
    j.Compare(CmpConst(Slot(a), imm), a);
    var d := j.MapVmReg(rd, a, -1);
    FlagInto(j, cond, d, rd);
  }

  // One, then zero unless the condition holds.
  method FlagInto(j: Jit, cond: Cond, d: nat, ghost rd: Reg)
    requires j.Valid() && j.holes <= {d} && d < |j.regmap| && 0 < rd == j.regmap[d].vm
    modifies j`regmap, j`code, j`holes, j`x
    ensures j.Ready() && j.SameElse()
    ensures forall st :: j.good(st) ==>
      j.x(st) == old(j.x)(st)[rd := FromBool(Holds(cond, old(j.Now(st)).left, old(j.Now(st)).right))]
  {
    hide Sim, RunHost, Holds;
    j.Write(LoadImm(Slot(d), 1), d);
    j.Filled(d);
    j.Write(ClearUnless(cond, Slot(d)), d);
  }

  // A register copy; copying a register to itself only marks it.
  method GenMove(j: Jit, rs: Reg, rd: Reg)
    requires j.Ready() && rd != ZERO
    modifies j`regmap, j`code, j`holes, j`x
    ensures j.Ready() && j.SameElse()
    ensures forall st :: j.good(st) ==> j.x(st) == old(j.x)(st)[rd := old(j.x)(st)[rs]]
  {
    hide Sim, RunHost;
    var a, d := PlaceOne(j, rs, rd);
    if a != d { j.Write(Mov(Slot(a), Slot(d)), d); } else { j.MarkDirty(d); }
  }

  // The 32-bit sum of a base and a displacement is the exact one.
  predicate NoWrap(a: Word, imm: Word) {
    a + Signed(imm) == Plus(a, imm)
  }

  // A load: the address is formed in the scratch register before the destination is mapped. From
  // a start whose address wraps the access goes astray.
  method GenLoad(j: Jit, access: Op, base: Reg, rd: Reg, imm: Word)
    requires j.Ready() && rd != ZERO
    modifies j
    ensures j.Ready() && Quiet(j)
    ensures forall st :: j.good(st) <==> old(j.good)(st) && NoWrap(old(j.x)(st)[base], imm)
    ensures forall st :: j.good(st) ==>
      j.x(st) == old(j.x)(st)[rd := Loaded(access, old(j.Now(st)).mem, Plus(old(j.x)(st)[base], imm))]
  {
    hide Sim, RunHost, Loaded;
    FormAddress(j, base, imm);
    var d := j.MapVmReg(rd, -1, -1);
    WindowIsNoWrap(imm);
    j.ReadMemory(access, d);
  }

  // A load into x0: its host register is set to zero, and memory is not read.
  method GenLoadZero(j: Jit, base: Reg, imm: Word)
    requires j.Ready()
    modifies j`regmap, j`code, j`holes
    ensures j.Ready() && Quiet(j)
  {
    hide Sim, RunHost;
    FormAddress(j, base, imm);
    var d := j.MapVmReg(ZERO, -1, -1);
    j.LoadReg(d);
    assert j.holes == {};
  }

  // A store: the address survives the loading of the value.
  method GenStore(j: Jit, access: Op, base: Reg, src: Reg, imm: Word)
    requires j.Ready()
    modifies j
    ensures j.Ready() && forall st :: j.good(st) ==> j.x(st) == old(j.x)(st) && j.Now(st).call == old(j.Now(st)).call
    ensures forall st :: j.good(st) <==> old(j.good)(st) && NoWrap(old(j.x)(st)[base], imm)
    ensures forall st :: j.good(st) ==>
      j.Now(st).mem == Stored(access, old(j.Now(st)).mem, Plus(old(j.x)(st)[base], imm), old(j.x)(st)[src])
  {
    hide Sim, RunHost, Stored;
    FormAddress(j, base, imm);
    var b := j.RaLoad(src);
    WindowIsNoWrap(imm);
    j.WriteMemory(access, b, src);
  }

  // The 64-bit address of an access.
  method FormAddress(j: Jit, base: Reg, imm: Word)
    requires j.Ready()
    modifies j`regmap, j`code, j`holes
    ensures j.Ready() && Quiet(j)
    ensures forall st :: j.good(st) ==> j.Now(st).addr == j.x(st)[base] + Signed(imm)
  {
    hide Sim, RunHost;
    var a := j.RaLoad(base);
    j.Prepare(Address(Slot(a), imm));
  }

  // It stays in the window exactly when the 32-bit sum does not wrap.
  lemma WindowIsNoWrap(imm: Word)
    ensures forall a: Word :: InWindow(a + Signed(imm)) <==> NoWrap(a, imm)
  {
  }

  // ----- dispatch -----

  // The multiplication and division extension.
  predicate IsMul(op: Op) {
    match op
    case Mul | Mulh | Mulhsu | Mulhu | Div | Divu | Rem | Remu => true
    case _ => false
  }

  // The instructions this model generates code for: the base and compressed integer set, without
  // hints that write x0.
  predicate Translatable(i: Insn) {
    && !IsFused(i.op) && !IsMul(i.op)
    && (i.op == Cslli ==> i.imm % 0x100 < 32)
    && (i.op == Cli ==> i.rd != ZERO)
  }

  function HopImm(op: Op): HOp {
    match op
    case Xori => HXor
    case Ori => HOr
    case Andi => HAnd
    case Slli => HShl
    case Srli => HShr
    case Srai => HSar
    case _ => HAdd
  }

  function HopReg(op: Op): HOp {
    match op
    case Sub | Csub => HSub
    case XorR | Cxor => HXor
    case OrR | Cor => HOr
    case AndR | Cand => HAnd
    case Sll => HShl
    case Srl => HShr
    case Sra => HSar
    case _ => HAdd
  }

  lemma HopImmAgrees(op: Op, a: Word, imm: Word)
    requires IsAluImm(op) && op != Slti && op != Sltiu
    ensures
      var m := if IsShift(HopImm(op)) then And(imm, 31) else imm;
      HostAlu(HopImm(op), a, m) == AluImm(op, a, imm)
  {
    hide And, Xor, Or, Shl, Shr, Sar, Plus;
    AndThirtyOne(imm);
  }

  lemma HopRegAgrees(op: Op, a: Word, b: Word)
    requires IsAluReg(op) && !IsMul(op) && op != Slt && op != Sltu
    ensures HostAlu(HopReg(op), a, b) == AluReg(op, a, b)
  {
    hide And, Xor, Or, Shl, Shr, Sar, Plus, Minus;
  }

  method GenAluImm(j: Jit, i: Insn)
    requires j.Ready() && IsAluImm(i.op) && i.rd != ZERO
    modifies j`regmap, j`code, j`holes, j`x
    ensures j.Ready() && Quiet(j)
    ensures forall st :: j.good(st) ==> j.x(st) == old(j.x)(st)[i.rd := AluImm(i.op, old(j.x)(st)[i.rs1], i.imm)]
  {
    hide Sim, RunHost, HostAlu, And, IsAluImm, HopImm;
    if i.op == Slti {
      GenSetImm(j, CLt, i.rs1, i.rd, i.imm);
    } else if i.op == Sltiu {
      GenSetImm(j, CLtu, i.rs1, i.rd, i.imm);
    } else {
      forall a: Word
        ensures HostAlu(HopImm(i.op), a, if IsShift(HopImm(i.op)) then And(i.imm, 31) else i.imm) == AluImm(i.op, a, i.imm)
      {
        HopImmAgrees(i.op, a, i.imm);
      }
      GenImm(j, HopImm(i.op), i.rs1, i.rd, if IsShift(HopImm(i.op)) then And(i.imm, 31) else i.imm);
    }
  }

  method GenAluReg(j: Jit, i: Insn)
    requires j.Ready() && IsAluReg(i.op) && !IsMul(i.op) && i.rd != ZERO
    modifies j`regmap, j`code, j`holes, j`x
    ensures j.Ready() && Quiet(j)
    ensures forall st :: j.good(st) ==>
      j.x(st) == old(j.x)(st)[i.rd := AluReg(i.op, old(j.x)(st)[i.rs1], old(j.x)(st)[i.rs2])]
  {
    hide Sim, RunHost, HostAlu, IsAluReg, HopReg, IsMul;
    if i.op == Slt {
      GenSet(j, CLt, i.rs1, i.rs2, i.rd);
    } else if i.op == Sltu {
      GenSet(j, CLtu, i.rs1, i.rs2, i.rd);
    } else {
      forall a: Word, b: Word ensures HostAlu(HopReg(i.op), a, b) == AluReg(i.op, a, b) {
        HopRegAgrees(i.op, a, b);
      }
      GenReg(j, HopReg(i.op), i.rs1, i.rs2, i.rd);
    }
  }

  // The compressed computations that update their operand.
  function HopInPlace(op: Op): HOp {
    match op
    case Csrli => HShr
    case Csrai => HSar
    case Candi => HAnd
    case Cslli => HShl
    case _ => HAdd
  }

  function ImmInPlace(i: Insn): Word {
    match i.op
    case Csrli | Csrai => i.shamt
    case Cslli => i.imm % 0x100
    case Caddi => Extend16(i.imm)
    case _ => i.imm
  }

  lemma InPlaceAgrees(i: Insn, x: Regs)
    requires Decoded(i) && Translatable(i) && IsInPlace(i.op)
    ensures HostAlu(HopInPlace(i.op), x[Target(i)], ImmInPlace(i)) == Computed(i, x, i.pc)
  {
    hide HostAlu, HopInPlace, Target, ImmInPlace, Computed, ClassOf, IsMul, IsFused;
    InPlaceOps(i.op);
    if i.op == Csrai {
      SmearInPlace(i, x);
    } else if i.op == Csrli || i.op == Cslli {
      ShiftInPlace(i, x);
    } else {
      SumInPlace(i, x);
    }
  }

  lemma ShiftInPlace(i: Insn, x: Regs)
    requires (i.op == Csrli && i.shamt < 32) || (i.op == Cslli && i.imm % 0x100 < 32)
    ensures HostAlu(HopInPlace(i.op), x[Target(i)], ImmInPlace(i)) == Computed(i, x, i.pc)
  {
    hide Shl, Shr, AluImm, AluReg, IsAluImm;
  }

  lemma SmearInPlace(i: Insn, x: Regs)
    requires i.op == Csrai && i.shamt < 32
    ensures HostAlu(HopInPlace(i.op), x[Target(i)], ImmInPlace(i)) == Computed(i, x, i.pc)
  {
    hide Sar, SmearRight, AluImm, AluReg, IsAluImm;
    SmearIsArithmetic(x[i.rs1], i.shamt);
  }

  lemma SumInPlace(i: Insn, x: Regs)
    requires i.op == Caddi || i.op == Caddi16sp || i.op == Candi
    ensures HostAlu(HopInPlace(i.op), x[Target(i)], ImmInPlace(i)) == Computed(i, x, i.pc)
  {
    hide And, Plus, AluImm, AluReg, Extend16, IsAluImm;
  }

  lemma InPlaceOps(op: Op)
    requires IsInPlace(op)
    ensures op == Caddi || op == Caddi16sp || op == Cslli || op == Csrli || op == Csrai || op == Candi
  {
  }

  method GenUpdate(j: Jit, i: Insn)
    requires j.Ready() && Decoded(i) && Translatable(i) && IsInPlace(i.op) && Target(i) != ZERO
    modifies j`regmap, j`code, j`holes, j`x
    ensures j.Ready() && Quiet(j)
    ensures forall st :: j.good(st) ==> j.x(st) == old(j.x)(st)[Target(i) := Computed(i, old(j.x)(st), i.pc)]
  {
    hide Sim, RunHost, HostAlu, Computed, Extend16, Decoded, Translatable, ClassOf, Target;
    forall x: Regs ensures HostAlu(HopInPlace(i.op), x[Target(i)], ImmInPlace(i)) == Computed(i, x, i.pc) {
      InPlaceAgrees(i, x);
    }
    GenInPlace(j, HopInPlace(i.op), Target(i), ImmInPlace(i));
  }

  // What each remaining computation is, and that none of them targets x0.
  lemma ComputedForms(i: Insn, x: Regs)
    requires IsComputation(i.op) && Decoded(i)
    ensures IsAluImm(i.op) ==> Computed(i, x, i.pc) == AluImm(i.op, x[i.rs1], i.imm)
    ensures IsAluReg(i.op) ==> Computed(i, x, i.pc) == AluReg(i.op, x[i.rs1], x[i.rs2])
    ensures IsConstantLoad(i.op) ==> Computed(i, x, i.pc) == i.imm
    ensures i.op == Auipc ==> Computed(i, x, i.pc) == Plus(i.imm, i.pc)
    ensures i.op == Caddi4spn ==> Computed(i, x, i.pc) == Plus(x[SP], i.imm % 0x1_0000)
    ensures i.op == Cmv ==> Computed(i, x, i.pc) == x[i.rs2]
  {
    hide Plus, AluImm, AluReg, And, Shr, Shl, SmearRight, Extend16;
  }

  lemma TargetForms(i: Insn)
    requires IsComputation(i.op) && Decoded(i) && Translatable(i)
    ensures Target(i) != ZERO && (!IsInPlace(i.op) ==> Target(i) == i.rd)
  {
    if i.op != Cli { TargetInPlace(i); }
  }

  lemma TargetInPlace(i: Insn)
    ensures !IsInPlace(i.op) ==> Target(i) == i.rd
  {
  }

  method GenComputation(j: Jit, i: Insn)
    requires j.Ready() && Decoded(i) && Translatable(i) && IsComputation(i.op)
    modifies j`regmap, j`code, j`holes, j`x
    ensures j.Ready() && Quiet(j)
    ensures forall st :: j.good(st) ==> j.x(st) == old(j.x)(st)[Target(i) := Computed(i, old(j.x)(st), i.pc)]
  {
    hide Sim, RunHost, HostAlu, Computed, Plus, Target, AluImm, AluReg, Decoded, IsComputation;
    TargetForms(i);
    forall x: Regs
      ensures IsAluImm(i.op) ==> Computed(i, x, i.pc) == AluImm(i.op, x[i.rs1], i.imm)
      ensures IsAluReg(i.op) ==> Computed(i, x, i.pc) == AluReg(i.op, x[i.rs1], x[i.rs2])
      ensures IsConstantLoad(i.op) ==> Computed(i, x, i.pc) == i.imm
      ensures i.op == Auipc ==> Computed(i, x, i.pc) == Plus(i.imm, i.pc)
      ensures i.op == Caddi4spn ==> Computed(i, x, i.pc) == Plus(x[SP], i.imm % 0x1_0000)
      ensures i.op == Cmv ==> Computed(i, x, i.pc) == x[i.rs2]
    {
      ComputedForms(i, x);
    }
    if IsInPlace(i.op) {
      GenUpdate(j, i);
    } else if IsAluImm(i.op) {
      GenAluImm(j, i);
    } else if IsAluReg(i.op) {
      GenAluReg(j, i);
    } else if i.op == Auipc {
      PlusCommutes(i.imm, i.pc);
      GenConst(j, i.rd, Plus(i.pc, i.imm));
    } else if i.op == Caddi4spn {
      forall a: Word, b: Word ensures HostAlu(HAdd, a, b) == Plus(a, b) { AddIsPlus(a, b); }
      GenImm(j, HAdd, SP, i.rd, i.imm % 0x1_0000);
    } else if i.op == Cmv {
      GenMove(j, i.rs2, i.rd);
    } else {
      ConstantsAreLeft(i.op);
      GenConst(j, i.rd, i.imm);
    }
  }

  lemma AddIsPlus(a: Word, b: Word)
    ensures HostAlu(HAdd, a, b) == Plus(a, b)
  {
  }

  lemma ConstantsAreLeft(op: Op)
    requires IsComputation(op) && !IsInPlace(op) && !IsAluImm(op) && !IsAluReg(op)
    requires op != Auipc && op != Caddi4spn && op != Cmv
    ensures IsConstantLoad(op)
  {
  }

  // What the generated code makes of an instruction: a load into x0 has no effect in it.
  function Muted(i: Insn): Insn {
    if IsLoad(i.op) && i.rd == ZERO then i.(op := if Len(i.op) == 2 then Cnop else Nop) else i
  }

  lemma MutedForm(i: Insn)
    requires Decoded(i) && Translatable(i)
    ensures Decoded(Muted(i)) && KeepsZero(Muted(i)) && Muted(i).pc == i.pc
    ensures Len(Muted(i).op) == Len(i.op) && IsBranch(Muted(i).op) == IsBranch(i.op)
    ensures IsLoad(i.op) && i.rd == ZERO <==> Muted(i) != i
    ensures Muted(i) != i ==> Muted(i).op == Nop || Muted(i).op == Cnop
  {
    hide ClassOf, Target, Len, IsMul;
    NopClass();
    LenOfNops();
  }

  lemma LenOfNops()
    ensures Len(Nop) == 4 && Len(Cnop) == 2 && forall op: Op :: Len(op) == 2 || Len(op) == 4
  {
  }

  // The address of an access does not wrap.
  predicate InReach(i: Insn, x: Regs) {
    IsLoad(i.op) || IsStore(i.op) ==> NoWrap(x[BaseReg(i)], i.imm)
  }

  // One instruction that stays in the block has the effect it has in the interpreter that allows
  // misaligned accesses, unless its address wraps.
  method GenerateNode(j: Jit, i: Insn)
    requires j.Ready() && Decoded(i) && Translatable(i) && !IsBranch(i.op)
    modifies j
    ensures j.Ready() && forall st :: j.good(st) ==> j.Now(st).call == old(j.Now(st)).call
    ensures forall st :: j.good(st) <==> old(j.good)(st) && InReach(Muted(i), old(j.x)(st))
    ensures forall st :: j.good(st) ==>
      var f := Act(Muted(i), Cpu(old(j.x)(st), i.pc, 0, old(j.Now(st)).mem), true);
      f.Fall? && j.x(st) == f.cpu.x && j.Now(st).mem == f.cpu.mem
  {
    hide Sim, RunHost, Computed, Loaded, Stored, Plus, Target, Decoded, Translatable, ClassOf, Misaligned, Control, Muted, NoWrap;
    MutedForm(i);
    NopClass();
    if IsComputation(i.op) {
      GenComputation(j, i);
    } else if IsLoad(i.op) && i.rd != ZERO {
      GenLoad(j, i.op, BaseReg(i), i.rd, i.imm);
    } else if IsStore(i.op) {
      GenStore(j, i.op, BaseReg(i), i.rs2, i.imm);
    } else {
      if IsLoad(i.op) { GenLoadZero(j, BaseReg(i), i.imm); }
      forall st | j.good(st)
        ensures Control(Muted(i), Cpu(j.x(st), i.pc, 0, j.Now(st).mem)).Fall?
        ensures Control(Muted(i), Cpu(j.x(st), i.pc, 0, j.Now(st).mem)).cpu.mem == j.Now(st).mem
        ensures Control(Muted(i), Cpu(j.x(st), i.pc, 0, j.Now(st).mem)).cpu.x == j.x(st)
      {
        assert j.At(st);
        NopKeeps(Muted(i), Cpu(j.x(st), i.pc, 0, j.Now(st).mem));
        SimZero(j.regmap, j.Now(st), j.x(st), j.holes);
      }
    }
  }

  // In either mode of the interpreter it has the effect it has there, or traps there.
  method Generate(j: Jit, i: Insn)
    requires j.Ready() && Decoded(i) && Translatable(i) && !IsBranch(i.op)
    modifies j
    ensures j.Ready() && forall st :: j.good(st) ==> j.Now(st).call == old(j.Now(st)).call
    ensures forall st :: j.good(st) <==> old(j.good)(st) && InReach(Muted(i), old(j.x)(st))
    ensures forall st, lenient: bool :: j.good(st) ==>
      match Act(Muted(i), Cpu(old(j.x)(st), i.pc, 0, old(j.Now(st)).mem), lenient)
      case Fall(t) => j.x(st) == t.x && j.Now(st).mem == t.mem
      case Leave(o) => !lenient && o.Trap?
  {
    hide Sim, RunHost, Act, Decoded, Translatable, IsBranch, Muted, InReach;
    MutedForm(i);
    GenerateNode(j, i);
    forall st, lenient: bool | j.good(st)
      ensures
        match Act(Muted(i), Cpu(old(j.x)(st), i.pc, 0, old(j.Now(st)).mem), lenient)
        case Fall(t) => j.x(st) == t.x && j.Now(st).mem == t.mem
        case Leave(o) => !lenient && o.Trap?
    {
      StrictAct(Muted(i), Cpu(old(j.x)(st), i.pc, 0, old(j.Now(st)).mem));
    }
  }

  lemma NopKeeps(i: Insn, s: Cpu)
    requires Decoded(i) && !IsBranch(i.op) && !IsComputation(i.op) && !IsLoad(i.op) && !IsStore(i.op)
    ensures Control(i, s).Fall? && Control(i, s).cpu.mem == s.mem
    ensures s.x[0] == 0 ==> Control(i, s).cpu.x == s.x
  {
    hide Plus, ClassOf, Target;
    NopOps(i.op);
  }

  lemma SimZero(t: Table, h: Host, x: Regs, holes: set<nat>)
    requires Sim(t, h, x, holes)
    ensures x[0] == 0
  {
  }

  // ----- instructions that leave the block -----

  // The host has left the block with these registers, this memory, this PC and this request.
  ghost predicate Left(h: Host, x: Regs, mem: Memory, pc: Word, call: Service) {
    h.exited && !h.wild && h.x == x && h.mem == mem && h.pc == pc && h.call == call
  }

  // Leave with the PC in the scratch register.
  method ExitAtTemp(j: Jit)
    requires j.Ready() && forall st :: j.good(st) ==> j.Now(st).x == j.x(st)
    modifies j`code
    ensures j.Lost()
    ensures forall st :: j.good(st) ==>
      Left(j.Now(st), j.x(st), old(j.Now(st)).mem, old(j.Now(st)).temp, old(j.Now(st)).call)
  {
    hide Sim, RunHost;
    assert forall st :: j.good(st) ==> j.At(st);
    j.Emit(StorePc(Temp));
    j.Emit(Exit);
  }

  method ExitAt(j: Jit, pc: Word)
    requires j.Ready() && forall st :: j.good(st) ==> j.Now(st).x == j.x(st)
    modifies j`code
    ensures j.Lost()
    ensures forall st :: j.good(st) ==> Left(j.Now(st), j.x(st), old(j.Now(st)).mem, pc, old(j.Now(st)).call)
  {
    hide Sim, RunHost;
    j.Prepare(LoadImm(Temp, pc));
    ExitAtTemp(j);
  }

  // The guest registers after linking, which leaves x0 alone.
  function Linked(x: Regs, rd: Reg, link: Word): Regs {
    if rd != ZERO then x[rd := link] else x
  }

  // A direct jump, linking unless the link register is x0.
  method GenJump(j: Jit, rd: Reg, link: Word, target: Word)
    requires j.Ready()
    modifies j`regmap, j`code, j`holes, j`x
    ensures j.Lost()
    ensures forall st :: j.good(st) ==>
      Left(j.Now(st), Linked(old(j.x)(st), rd, link), old(j.Now(st)).mem, target, old(j.Now(st)).call)
  {
    hide Sim, RunHost, Left;
    if rd != ZERO { GenConst(j, rd, link); }
    j.StoreBack();
    ExitAt(j, target);
  }

  // An indirect jump: the target is computed before the link register is written.
  method GenJumpReg(j: Jit, rs: Reg, jalr: bool, imm: Word, rd: Reg, link: Word)
    requires j.Ready()
    modifies j`regmap, j`code, j`holes, j`x
    ensures j.Lost()
    ensures forall st :: j.good(st) ==>
      Left(j.Now(st), Linked(old(j.x)(st), rd, link), old(j.Now(st)).mem,
           if jalr then Even(Plus(old(j.x)(st)[rs], imm)) else old(j.x)(st)[rs], old(j.Now(st)).call)
  {
    hide Sim, RunHost, Left, And, Plus;
    TargetInto(j, rs, jalr, imm);
    if rd != ZERO { GenConst(j, rd, link); }
    j.StoreBack();
    ExitAtTemp(j);
  }

  // Clear the lowest bit.
  function Even(a: Word): Word {
    a - a % 2
  }

  // The target of an indirect jump in the scratch register.
  method TargetInto(j: Jit, rs: Reg, jalr: bool, imm: Word)
    requires j.Ready()
    modifies j`regmap, j`code, j`holes
    ensures j.Ready() && Quiet(j)
    ensures forall st :: j.good(st) ==>
      j.Now(st).temp == if jalr then Even(Plus(j.x(st)[rs], imm)) else j.x(st)[rs]
  {
    hide Sim, RunHost, And, Plus;
    var a := j.RaLoad(rs);
    j.Prepare(Mov(Slot(a), Temp));
    if jalr {
      j.Prepare(AluConst(HAdd, Temp, imm));
      j.Prepare(AluConst(HAnd, Temp, MOD - 2));
      forall v: Word ensures And(v, MOD - 2) == Even(v) { AndNotOne(v); }
    }
  }

  // Behind the comparison: one exit for each way.
  method ExitEither(j: Jit, cond: Cond, taken: Word, untaken: Word)
    requires j.Ready()
    modifies j`regmap, j`code, j`holes, j`x
    ensures j.Lost()
    ensures forall st :: j.good(st) ==>
      Left(j.Now(st), old(j.x)(st), old(j.Now(st)).mem,
           if Holds(cond, old(j.Now(st)).left, old(j.Now(st)).right) then taken else untaken, old(j.Now(st)).call)
  {
    hide Sim, RunHost, Exec, Holds;
    j.StoreBack();
    var arm := [LoadImm(Temp, taken), StorePc(Temp), Exit];
    forall st | j.good(st)
      ensures
        var h := j.Now(st);
        var out := Exec(Exit, Exec(StorePc(Temp), Exec(LoadImm(Temp, untaken), Exec(JumpIf(cond, arm), h))));
        Left(out, h.x, h.mem, if Holds(cond, h.left, h.right) then taken else untaken, h.call)
    {
      assert j.At(st);
      EitherLeaves(j.Now(st), cond, taken, untaken);
    }
    j.Emit(JumpIf(cond, arm));
    j.Emit(LoadImm(Temp, untaken));
    j.Emit(StorePc(Temp));
    j.Emit(Exit);
  }

  lemma EitherLeaves(h: Host, cond: Cond, taken: Word, untaken: Word)
    requires !h.exited && !h.wild
    ensures
      var arm := [LoadImm(Temp, taken), StorePc(Temp), Exit];
      var out := Exec(Exit, Exec(StorePc(Temp), Exec(LoadImm(Temp, untaken), Exec(JumpIf(cond, arm), h))));
      Left(out, h.x, h.mem, if Holds(cond, h.left, h.right) then taken else untaken, h.call)
  {
    hide Holds, Exec, RunHost;
    var arm := [LoadImm(Temp, taken), StorePc(Temp), Exit];
    ExecJump(h, cond, arm);
    if Holds(cond, h.left, h.right) {
      ArmLeaves(h, taken);
      var g := RunHost(arm, h);
      ExecStays(g, LoadImm(Temp, untaken));
      ExecStays(g, StorePc(Temp));
      ExecStays(g, Exit);
    } else {
      ExecLeaves(h, untaken);
    }
  }

  lemma ExecJump(h: Host, cond: Cond, arm: seq<HostInsn>)
    requires !h.exited && !h.wild
    ensures Exec(JumpIf(cond, arm), h) == if Holds(cond, h.left, h.right) then RunHost(arm, h) else h
  {
    hide Holds, RunHost;
  }

  lemma ExecStays(h: Host, i: HostInsn)
    requires h.exited
    ensures Exec(i, h) == h
  {
  }

  lemma ExecLeaves(h: Host, pc: Word)
    requires !h.exited && !h.wild
    ensures Exec(Exit, Exec(StorePc(Temp), Exec(LoadImm(Temp, pc), h))) == h.(temp := pc, pc := pc, exited := true)
  {
    assert Exec(LoadImm(Temp, pc), h) == h.(temp := pc);
    ExecPc(h.(temp := pc));
  }

  lemma ExecPc(h: Host)
    requires !h.exited && !h.wild
    ensures Exec(Exit, Exec(StorePc(Temp), h)) == h.(pc := h.temp, exited := true)
  {
    assert Exec(StorePc(Temp), h) == h.(pc := h.temp);
  }

  lemma ExecCalls(h: Host, service: Service)
    requires !h.exited && !h.wild
    ensures Exec(Exit, Exec(CallOut(service), Exec(StorePc(Temp), h))) == h.(pc := h.temp, call := service, exited := true)
  {
    assert Exec(StorePc(Temp), h) == h.(pc := h.temp);
    ExecCallOut(h.(pc := h.temp), service);
  }

  lemma ExecCallOut(h: Host, service: Service)
    requires !h.exited && !h.wild
    ensures Exec(Exit, Exec(CallOut(service), h)) == h.(call := service, exited := true)
  {
    assert Exec(CallOut(service), h) == h.(call := service);
  }

  lemma ArmLeaves(h: Host, pc: Word)
    requires !h.exited && !h.wild
    ensures RunHost([LoadImm(Temp, pc), StorePc(Temp), Exit], h) == h.(temp := pc, pc := pc, exited := true)
  {
    hide Exec;
    var a, b, c := LoadImm(Temp, pc), StorePc(Temp), Exit;
    assert [a, b, c] == [a] + [b] + [c] && [a] == [] + [a];
    RunHostAppend([], a, h);
    RunHostAppend([a], b, h);
    RunHostAppend([a] + [b], c, h);
    ExecLeaves(h, pc);
  }

  method GenBranch(j: Jit, cond: Cond, rs1: Reg, rs2: Reg, taken: Word, untaken: Word)
    requires j.Ready()
    modifies j`regmap, j`code, j`holes, j`x
    ensures j.Lost()
    ensures forall st :: j.good(st) ==>
      Left(j.Now(st), old(j.x)(st), old(j.Now(st)).mem,
           if Holds(cond, old(j.x)(st)[rs1], old(j.x)(st)[rs2]) then taken else untaken, old(j.Now(st)).call)
  {
    hide Sim, RunHost, Left, Holds;
    var a, b := j.RaLoad2(rs1, rs2);
    j.Compare(Cmp(Slot(a), Slot(b)), a);
    ExitEither(j, cond, taken, untaken);
  }

  method GenBranchZero(j: Jit, cond: Cond, rs: Reg, taken: Word, untaken: Word)
    requires j.Ready()
    modifies j`regmap, j`code, j`holes, j`x
    ensures j.Lost()
    ensures forall st :: j.good(st) ==>
      Left(j.Now(st), old(j.x)(st), old(j.Now(st)).mem,
           if Holds(cond, old(j.x)(st)[rs], 0) then taken else untaken, old(j.Now(st)).call)
  {
    hide Sim, RunHost, Left, Holds;
    var a := j.RaLoad(rs);
    j.Compare(CmpConst(Slot(a), 0), a);
    ExitEither(j, cond, taken, untaken);
  }

  // Hand the guest state to the environment.
  method GenCall(j: Jit, pc: Word, service: Service)
    requires j.Ready()
    modifies j`regmap, j`code, j`holes, j`x
    ensures j.Lost()
    ensures forall st :: j.good(st) ==> Left(j.Now(st), old(j.x)(st), old(j.Now(st)).mem, pc, service)
  {
    hide Sim, RunHost;
    j.StoreBack();
    j.Prepare(LoadImm(Temp, pc));
    LeaveCalling(j, service);
  }

  method LeaveCalling(j: Jit, service: Service)
    requires j.Ready()
    modifies j`code
    ensures j.Lost()
    ensures forall st :: j.good(st) ==> Left(j.Now(st), old(j.Now(st)).x, old(j.Now(st)).mem, old(j.Now(st)).temp, service)
  {
    hide Sim, RunHost, Exec;
    forall st | j.good(st)
      ensures
        var h := j.Now(st);
        Exec(Exit, Exec(CallOut(service), Exec(StorePc(Temp), h))) == h.(pc := h.temp, call := service, exited := true)
      ensures !j.Now(st).wild
    {
      assert j.At(st);
      ExecCalls(j.Now(st), service);
    }
    j.Emit(StorePc(Temp));
    j.Emit(CallOut(service));
    j.Emit(Exit);
  }

  // ----- a whole block -----

  // The host has left the block the way the interpreter does.
  ghost predicate Ends(h: Host, o: Outcome) {
    match o
    case Done(t) => Left(h, t.x, t.mem, t.pc, NoCall)
    case EnvCall(t) => Left(h, t.x, t.mem, t.pc, OnEcall)
    case EnvBreak(t) => Left(h, t.x, t.mem, t.pc, OnEbreak)
    case Trap(_, _, _, _) => false
  }

  function CondOf(op: Op): Cond {
    match op
    case Bne => CNe
    case Blt => CLt
    case Bge => CGe
    case Bltu => CLtu
    case Bgeu => CGeu
    case _ => CEq
  }

  lemma CondAgrees(op: Op, a: Word, b: Word)
    requires IsCondBranch(op)
    ensures Holds(CondOf(op), a, b) == BranchTaken(op, a, b)
  {
  }

  // From every start, the host state holds this guest state, at this address.
  ghost predicate Holding(j: Jit, s: Start -> Cpu, pc: Word)
    reads j
  {
    forall st :: j.good(st) ==>
      s(st).x == j.x(st) && s(st).mem == j.Now(st).mem && s(st).pc == pc && j.Now(st).call == NoCall
  }

  // The jumps.
  method GenerateJump(j: Jit, i: Insn, ghost s: Start -> Cpu)
    requires j.Ready() && Holding(j, s, i.pc)
    requires i.op == Jal || i.op == Cjal || i.op == Cj || i.op == Jalr || i.op == Cjr || i.op == Cjalr
    modifies j`regmap, j`code, j`holes, j`x
    ensures j.Lost()
    ensures forall st :: j.good(st) ==> Ends(j.Now(st), Finish(Control(i, s(st))))
  {
    hide Sim, RunHost, Left, Plus;
    match i.op {
      case Jal => GenJump(j, i.rd, Plus(i.pc, 4), Plus(i.pc, i.imm));
      case Cjal => GenJump(j, RA, Plus(i.pc, 2), Plus(i.pc, i.imm));
      case Cj => GenJump(j, ZERO, 0, Plus(i.pc, i.imm));
      case Jalr => GenJumpReg(j, i.rs1, true, i.imm, i.rd, Plus(i.pc, 4));
      case Cjr => GenJumpReg(j, i.rs1, false, 0, ZERO, 0);
      case Cjalr => GenJumpReg(j, i.rs1, false, 0, RA, Plus(i.pc, 2));
    }
  }

  // The conditional branches.
  method GenerateBranch(j: Jit, i: Insn, ghost s: Start -> Cpu)
    requires j.Ready() && Holding(j, s, i.pc)
    requires i.op == Cbeqz || i.op == Cbnez || IsCondBranch(i.op)
    modifies j`regmap, j`code, j`holes, j`x
    ensures j.Lost()
    ensures forall st :: j.good(st) ==> Ends(j.Now(st), Finish(Control(i, s(st))))
  {
    hide Sim, RunHost, Left, Plus, Holds, BranchTaken, CondOf, ClassOf, Control;
    forall st | j.good(st)
      ensures i.op == Cbeqz ==> Control(i, s(st)) == BranchIf(s(st).x[i.rs1] == 0, i, s(st)) && Len(i.op) == 2
      ensures i.op == Cbnez ==> Control(i, s(st)) == BranchIf(s(st).x[i.rs1] != 0, i, s(st)) && Len(i.op) == 2
      ensures IsCondBranch(i.op) ==>
        Control(i, s(st)) == BranchIf(BranchTaken(i.op, s(st).x[i.rs1], s(st).x[i.rs2]), i, s(st)) && Len(i.op) == 4
    {
      ControlOfBranch(i, s(st));
    }
    if i.op == Cbeqz {
      ZeroConds();
      GenBranchZero(j, CEq, i.rs1, Plus(i.pc, i.imm), Plus(i.pc, 2));
    } else if i.op == Cbnez {
      ZeroConds();
      GenBranchZero(j, CNe, i.rs1, Plus(i.pc, i.imm), Plus(i.pc, 2));
    } else {
      forall a: Word, b: Word ensures Holds(CondOf(i.op), a, b) == BranchTaken(i.op, a, b) { CondAgrees(i.op, a, b); }
      GenBranch(j, CondOf(i.op), i.rs1, i.rs2, Plus(i.pc, i.imm), Plus(i.pc, 4));
    }
  }

  // The instruction that ends a block leaves it as in the interpreter.
  method GenerateLast(j: Jit, i: Insn, ghost s: Start -> Cpu)
    requires j.Ready() && IsBranch(i.op) && Holding(j, s, i.pc)
    modifies j`regmap, j`code, j`holes, j`x
    ensures j.Lost()
    ensures forall st :: j.good(st) ==> Ends(j.Now(st), Finish(Control(i, s(st))))
  {
    hide Sim, RunHost, Left, Plus, ClassOf, Control;
    WaysOut(i.op);
    forall st | j.good(st)
      ensures i.op == Ecall ==> Control(i, s(st)) == Leave(EnvCall(s(st)))
      ensures i.op == Ebreak ==> Control(i, s(st)) == Leave(EnvBreak(s(st)))
    {
      ControlOfService(i, s(st));
    }
    if i.op == Ecall {
      GenCall(j, i.pc, OnEcall);
    } else if i.op == Ebreak {
      GenCall(j, i.pc, OnEbreak);
    } else if i.op == Cbeqz || i.op == Cbnez || IsCondBranch(i.op) {
      GenerateBranch(j, i, s);
    } else {
      GenerateJump(j, i, s);
    }
  }

  lemma ControlOfBranch(i: Insn, s: Cpu)
    ensures i.op == Cbeqz ==> Control(i, s) == BranchIf(s.x[i.rs1] == 0, i, s) && Len(i.op) == 2
    ensures i.op == Cbnez ==> Control(i, s) == BranchIf(s.x[i.rs1] != 0, i, s) && Len(i.op) == 2
    ensures IsCondBranch(i.op) ==> Control(i, s) == BranchIf(BranchTaken(i.op, s.x[i.rs1], s.x[i.rs2]), i, s) && Len(i.op) == 4
  {
    hide BranchTaken, Plus, BranchIf, Link, IsCondBranch;
    if IsCondBranch(i.op) { CondBranchOps(i.op); }
  }

  lemma WaysOut(op: Op)
    requires IsBranch(op)
    ensures
      || op == Ecall || op == Ebreak || op == Cbeqz || op == Cbnez || IsCondBranch(op)
      || op == Jal || op == Cjal || op == Cj || op == Jalr || op == Cjr || op == Cjalr
  {
  }

  lemma ControlOfService(i: Insn, s: Cpu)
    ensures i.op == Ecall ==> Control(i, s) == Leave(EnvCall(s))
    ensures i.op == Ebreak ==> Control(i, s) == Leave(EnvBreak(s))
  {
  }

  lemma ZeroConds()
    ensures forall a: Word :: Holds(CEq, a, 0) == (a == 0) && Holds(CNe, a, 0) == (a != 0)
  {
  }

  // ----- what the interpreter does along a block -----

  // A block as the generated code takes it.
  function MutedAll(b: seq<Insn>): (c: seq<Insn>)
    ensures |c| == |b| && forall k :: 0 <= k < |b| ==> c[k] == Muted(b[k])
  {
    seq(|b|, k requires 0 <= k < |b| => Muted(b[k]))
  }

  // Without loads into x0 that is the block itself.
  lemma MutedSame(b: seq<Insn>)
    requires forall i :: i in b ==> KeepsZero(i)
    ensures MutedAll(b) == b
  {
    hide ClassOf, Len;
    forall k | 0 <= k < |b| ensures Muted(b[k]) == b[k] { assert b[k] in b; }
  }

  // No address of the run wraps.
  ghost predicate Tame(b: seq<Insn>, s: Cpu) {
    b == [] ||
    (&& InReach(b[0], s.x)
     && (Handle(b[0], s, true).Fall? ==> Tame(b[1..], Handle(b[0], s, true).cpu)))
  }

  // A block the generator takes: decoded, of translatable instructions, ending in a branch.
  ghost predicate Source(b: seq<Insn>, pc: Word) {
    && WellFormed(b, pc) && b != [] && IsBranch(b[|b| - 1].op)
    && forall i :: i in b ==> Translatable(i)
  }

  lemma {:induction false} MutedWellFormed(b: seq<Insn>, pc: Word)
    requires WellFormed(b, pc) && forall i :: i in b ==> Translatable(i)
    ensures WellFormed(MutedAll(b), pc)
    decreases |b|
  {
    hide Muted, Decoded, Translatable, Plus, Len, IsBranch;
    if b != [] {
      MutedForm(b[0]);
      MutedWellFormed(b[1..], Plus(pc, Len(b[0].op)));
      assert MutedAll(b)[1..] == MutedAll(b[1..]);
    }
  }

  lemma TameFront(b: seq<Insn>, k: nat, t: Cpu)
    requires k < |b|
    ensures Tame(b[k..], t) <==>
      InReach(b[k], t.x) && (Handle(b[k], t, true).Fall? ==> Tame(b[k + 1..], Handle(b[k], t, true).cpu))
  {
    hide Handle, InReach;
    assert b[k..][0] == b[k] && b[k..][1..] == b[k + 1..];
  }

  // One step of the interpreter along the block.
  lemma Advances(b: seq<Insn>, k: nat, t: Cpu)
    requires k + 1 < |b| && WellFormed(b[k..], t.pc) && t.x[0] == 0
    requires KeepsZero(b[k]) && Act(b[k], Cpu(t.x, b[k].pc, 0, t.mem), true).Fall?
    ensures
      var h := Handle(b[k], t, true);
      var f := Act(b[k], Cpu(t.x, b[k].pc, 0, t.mem), true);
      && h.Fall? && h.cpu.x == f.cpu.x && h.cpu.mem == f.cpu.mem && h.cpu.x[0] == 0
      && WellFormed(b[k + 1..], h.cpu.pc) && b[k + 1].pc == h.cpu.pc
      && Run(b[k..], t, true) == Run(b[k + 1..], h.cpu, true)
  {
    hide Act, FusedAct, IsFused, IsComputation, IsCondBranch, Target, Plus, Len, KeepsZero, IsBranch;
    assert b[k..][1..] == b[k + 1..] && b[k..][0] == b[k] && b[k + 1..][0] == b[k + 1];
    ActIgnoresCycle(b[k], Cpu(t.x, t.pc, 0, t.mem), Tick(t, 1));
    FallsBehind(b[k], Tick(t, 1), true);
    ActKeepsZero(b[k], Tick(t, 1), true);
  }

  lemma ActIgnoresCycle(i: Insn, s: Cpu, t: Cpu)
    requires t == s.(cycle := t.cycle) && Decoded(i) && !IsBranch(i.op) && Act(i, s, true).Fall?
    ensures Act(i, t, true).Fall? && Act(i, t, true).cpu.x == Act(i, s, true).cpu.x
    ensures Act(i, t, true).cpu.mem == Act(i, s, true).cpu.mem
  {
    hide Computed, Target, Stored, Loaded, Misaligned, Plus, Len, ClassOf, Control;
    if !IsComputation(i.op) && !IsLoad(i.op) && !IsStore(i.op) {
      NopOps(i.op);
      NopIgnoresCycle(i, s, t);
    }
  }

  lemma NopIgnoresCycle(i: Insn, s: Cpu, t: Cpu)
    requires t == s.(cycle := t.cycle) && (i.op == Nop || i.op == Cnop)
    ensures Control(i, t).Fall? && Control(i, s).Fall? && Control(i, t).cpu == Control(i, s).cpu.(cycle := t.cycle)
  {
    hide Plus, Len;
  }

  // The last node of a block decides its outcome, and accesses no memory.
  lemma LastNode(b: seq<Insn>, k: nat, t: Cpu)
    requires k + 1 == |b| && Decoded(b[k]) && IsBranch(b[k].op)
    ensures Run(b[k..], t, true) == Finish(Control(b[k], Tick(t, 1))) && Tame(b[k..], t)
  {
    hide Control, FusedAct, IsComputation, IsLoad, IsStore, IsBranch, IsFused, IsCondBranch, Target;
    assert b[k..][0] == b[k] && b[k..][1..] == [];
    BranchIsControl(b[k].op);
  }

  // ----- translating it -----

  // The starts a block may be entered from: any host state with `n` registers that holds a guest
  // state at the block.
  ghost predicate Enters(n: nat, pc: Word, st: Start) {
    Entered(st, n) && st.cpu.pc == pc
  }

  // Where the interpreter is after `k` nodes of a block, from this start.
  ghost predicate Reached(c: seq<Insn>, k: nat, st: Start, t: Cpu)
    requires k <= |c|
  {
    && WellFormed(c[k..], t.pc) && t.x[0] == 0
    && Run(c[k..], t, true) == Run(c, st.cpu, true)
    && (Tame(c[k..], t) <==> Tame(c, st.cpu))
  }

  // What has been translated so far: from the good starts the interpreter is at `t`, and from the
  // others an address has wrapped.
  ghost predicate Progress(j: Jit, c: seq<Insn>, k: nat, t: Start -> Cpu)
    requires k <= |c|
    reads j
  {
    && (forall st :: j.good(st) ==> Reached(c, k, st, t(st)))
    && (forall st :: j.starts(st) && !j.good(st) ==> !Tame(c, st.cpu))
  }

  lemma StartReached(c: seq<Insn>, n: nat, pc: Word, st: Start)
    requires WellFormed(c, pc) && Enters(n, pc, st)
    ensures Reached(c, 0, st, st.cpu) && st.host.mem == st.cpu.mem && st.host.call == NoCall
  {
    hide WellFormed, Tame, Run;
    assert c[0..] == c;
  }

  // What a block says of its nodes.
  lemma NodeFacts(b: seq<Insn>, k: nat, pc: Word)
    requires Source(b, pc) && k < |b|
    ensures Decoded(b[k]) && Translatable(b[k]) && (k + 1 < |b| ==> !IsBranch(b[k].op)) && b[0].pc == pc
    ensures Decoded(Muted(b[k])) && KeepsZero(Muted(b[k])) && Muted(b[k]).pc == b[k].pc
    ensures k + 1 == |b| ==> IsBranch(b[k].op) && Muted(b[k]) == b[k]
  {
    hide Decoded, Plus, Len, IsBranch, Translatable, Muted, KeepsZero, IsLoad;
    SuffixWellFormed(b, k, pc);
    assert b[k..][0] == b[k];
    MutedForm(b[k]);
    if k + 1 == |b| { BranchIsControl(b[k].op); }
  }

  // One node inside the block: the interpreter and the generated code move on together.
  method TranslateOne(j: Jit, b: seq<Insn>, k: nat, ghost pc: Word, ghost t: Start -> Cpu) returns (ghost u: Start -> Cpu)
    requires Source(b, pc) && k + 1 < |b| && j.Ready() && Holding(j, t, b[k].pc) && Progress(j, MutedAll(b), k, t)
    modifies j
    ensures j.Ready() && Holding(j, u, b[k + 1].pc) && Progress(j, MutedAll(b), k + 1, u)
  {
    hide Sim, RunHost, Run, Tame, WellFormed, Decoded, KeepsZero, Translatable, IsBranch, InReach, Act, Handle, Muted, Source;
    NodeFacts(b, k, pc);
    NodeFacts(b, k + 1, pc);
    ghost var c := MutedAll(b);
    j.RegsRefresh(k);
    ghost var node := c[k];
    u := (st: Start) => Final(Handle(node, t(st), true));
    Generate(j, b[k]);
    forall st | old(j.good)(st) ensures Tame(c, st.cpu) ==> j.good(st) {
      TameFront(c, k, t(st));
    }
    forall st | j.good(st)
      ensures Reached(c, k + 1, st, u(st)) && u(st).x == j.x(st) && u(st).mem == j.Now(st).mem && u(st).pc == b[k + 1].pc
    {
      TameFront(c, k, t(st));
      Advances(c, k, t(st));
    }
  }

  // The last node.
  method TranslateEnd(j: Jit, b: seq<Insn>, k: nat, ghost pc: Word, ghost t: Start -> Cpu)
    requires Source(b, pc) && k + 1 == |b| && j.Ready() && Holding(j, t, b[k].pc) && Progress(j, MutedAll(b), k, t)
    modifies j`regmap, j`code, j`holes, j`x
    ensures j.Lost() && forall st :: j.starts(st) && !j.good(st) ==> !Tame(MutedAll(b), st.cpu)
    ensures forall st :: j.good(st) ==> Ends(j.Now(st), Run(MutedAll(b), st.cpu, true)) && Tame(MutedAll(b), st.cpu)
  {
    hide Sim, RunHost, Run, Tame, WellFormed, Decoded, KeepsZero, Translatable, IsBranch, Ends, Control, Finish, Muted, Source;
    NodeFacts(b, k, pc);
    ghost var c := MutedAll(b);
    j.RegsRefresh(k);
    forall st | j.good(st)
      ensures Run(c, st.cpu, true) == Finish(Control(b[k], Tick(t(st), 1))) && Tame(c, st.cpu)
    {
      LastNode(c, k, t(st));
    }
    GenerateLast(j, b[k], (st: Start) => Tick(t(st), 1));
  }

  // The code generated for a block, from every start at once.
  method TranslateNodes(b: seq<Insn>, n: nat, liveness: seq<int>, queue: seq<int>, marks: bool, ghost pc: Word)
    returns (code: seq<HostInsn>)
    requires 3 <= n && |liveness| == 32 && (forall r: Reg :: r in queue) && Source(b, pc)
    ensures forall st: Start :: Enters(n, pc, st) ==>
      if Tame(MutedAll(b), st.cpu) then Ends(RunHost(code, st.host), Run(MutedAll(b), st.cpu, true))
      else RunHost(code, st.host).wild
  {
    hide Sim, RunHost, Run, Tame, WellFormed, KeepsZero, Translatable, IsBranch, Ends, Muted;
    ghost var starts := (st: Start) => Enters(n, pc, st);
    var j := new Jit(n, liveness, queue, marks, starts);
    ghost var t := (st: Start) => st.cpu;
    var idx := 0;
    NodeFacts(b, 0, pc);
    MutedWellFormed(b, pc);
    forall st | j.good(st)
      ensures Reached(MutedAll(b), 0, st, t(st)) && j.Now(st).mem == t(st).mem && j.Now(st).call == NoCall
    {
      StartReached(MutedAll(b), n, pc, st);
    }
    while idx + 1 < |b|
      invariant idx < |b| && j.Ready() && fresh(j) && j.starts == starts
      invariant Holding(j, t, b[idx].pc) && Progress(j, MutedAll(b), idx, t)
    {
      t := TranslateOne(j, b, idx, pc, t);
      idx := idx + 1;
    }
    TranslateEnd(j, b, idx, pc, t);
    code := j.code;
    forall st: Start | Enters(n, pc, st)
      ensures
        if Tame(MutedAll(b), st.cpu) then Ends(RunHost(code, st.host), Run(MutedAll(b), st.cpu, true))
        else RunHost(code, st.host).wild
    {
      assert j.starts(st) && j.Now(st) == RunHost(code, st.host);
    }
  }

  // Run from any host state that holds a guest state at the block, the generated code leaves the
  // block with the registers, memory, PC and environment request of the interpreter exactly when
  // no address wraps and, unless misaligned accesses are allowed, the interpreter does not trap.
  // Loads into x0 count as nops; a block without them is compared as it is.
  method TranslateBlock(b: seq<Insn>, n: nat, liveness: seq<int>, queue: seq<int>, marks: bool, ghost pc: Word)
    returns (code: seq<HostInsn>)
    requires 3 <= n && |liveness| == 32 && (forall r: Reg :: r in queue) && Source(b, pc)
    ensures forall st: Start, lenient: bool :: Enters(n, pc, st) ==>
      var o := Run(MutedAll(b), st.cpu, lenient);
      Ends(RunHost(code, st.host), o) <==> Tame(MutedAll(b), st.cpu) && !o.Trap?
    ensures (forall i :: i in b ==> KeepsZero(i)) ==> MutedAll(b) == b
  {
    hide Run, Tame, RunHost, Source, MutedAll, KeepsZero, Left, Enters;
    code := TranslateNodes(b, n, liveness, queue, marks, pc);
    if forall i :: i in b ==> KeepsZero(i) { MutedSame(b); }
    forall st: Start, lenient: bool | Enters(n, pc, st)
      ensures
        var o := Run(MutedAll(b), st.cpu, lenient);
        Ends(RunHost(code, st.host), o) <==> Tame(MutedAll(b), st.cpu) && !o.Trap?
    {
      var c, h := MutedAll(b), RunHost(code, st.host);
      if !lenient && !Run(c, st.cpu, false).Trap? { StrictRun(c, st.cpu); }
      if h.wild { WildNeverEnds(h, Run(c, st.cpu, lenient)); }
    }
  }

  // `lw x5, 4(x1); jalr x0, 0(x1)`.
  function ShortBlock(): (b: seq<Insn>) {
    [Insn(Lw, 5, 1, 0, 4, 0, 0, 0, []), Insn(Jalr, 0, 1, 0, 0, 0, 4, 0, [])]
  }

  lemma ShortBlockFacts()
    ensures
      var b := ShortBlock();
      && |b| == 2 && b[0].op == Lw && b[0].rd == 5 && b[0].rs1 == 1 && b[0].imm == 4 && b[0].pc == 0
      && b[1].op == Jalr && b[1].pc == 4
  {
  }

  lemma ShortBlockForm()
    ensures Source(ShortBlock(), 0) && MutedAll(ShortBlock()) == ShortBlock()
  {
    hide Decoded, Translatable, Plus, ClassOf, Muted, ShortBlock, Len, IsBranch;
    var b := ShortBlock();
    ShortBlockFacts();
    ShortBlockNodes(b[0], b[1]);
    ShortBlockSums();
    assert b[1..] == [b[1]] && b[1..][1..] == [];
    assert WellFormed(b[1..], 4);
    assert forall k :: 0 <= k < 2 ==> MutedAll(b)[k] == b[k];
  }

  lemma ShortBlockNodes(a: Insn, n: Insn)
    requires a.op == Lw && a.rd == 5 && n.op == Jalr
    ensures Decoded(a) && Translatable(a) && Muted(a) == a && !IsBranch(a.op) && Len(a.op) == 4
    ensures Decoded(n) && Translatable(n) && Muted(n) == n && IsBranch(n.op)
  {
  }

  lemma ShortBlockSums()
    ensures Plus(0, 4) == 4 && Signed(4) == 4 && Plus(0xffff_fffe, 4) == 2 && Plus(2, 4) == 6
  {
  }

  // From 0xffff_fffe the address wraps, from 2 it is misaligned.
  lemma ShortBlockRuns(s: Cpu)
    ensures s.x[1] == 0xffff_fffe ==> !Tame(ShortBlock(), s)
    ensures s.x[1] == 2 ==> Tame(ShortBlock(), s) && !Run(ShortBlock(), s, true).Trap? && Run(ShortBlock(), s, false).Trap?
  {
    hide Plus, ClassOf, Handle, Run, Control, ReadWord, Signed, ShortBlock, Tame, Decoded, Translatable, Muted, Len, IsBranch, Finish;
    var b := ShortBlock();
    ShortBlockFacts();
    assert b[0..] == b;
    ShortBlockSums();
    MemoryClass();
    HandleLw(b[0], s, true);
    HandleLw(b[0], s, false);
    RunFrom(b, s, true);
    RunFrom(b, s, false);
    TameFront(b, 0, s);
    ShortBlockNodes(b[0], b[1]);
    var t := Handle(b[0], s, true).cpu;
    LastNode(b, 1, t);
    JumpNeverTraps(b[1], t);
  }

  lemma JumpNeverTraps(i: Insn, s: Cpu)
    requires i.op == Jalr
    ensures !Finish(Control(i, Tick(s, 1))).Trap?
  {
    hide Plus;
  }

  // What that does to the generated code: a wrapped address is never right, a misaligned one
  // only when misaligned accesses are allowed.
  method TranslateShortBlock(n: nat, liveness: seq<int>, queue: seq<int>, marks: bool) returns (code: seq<HostInsn>)
    requires 3 <= n && |liveness| == 32 && (forall r: Reg :: r in queue)
    ensures forall st: Start, lenient: bool :: Enters(n, 0, st) && st.cpu.x[1] == 0xffff_fffe ==>
      !Ends(RunHost(code, st.host), Run(ShortBlock(), st.cpu, lenient))
    ensures forall st: Start, lenient: bool :: Enters(n, 0, st) && st.cpu.x[1] == 2 ==>
      (Ends(RunHost(code, st.host), Run(ShortBlock(), st.cpu, lenient)) <==> lenient)
  {
    hide Run, Tame, RunHost, Ends, Source, Enters, ShortBlock, MutedAll;
    ShortBlockForm();
    code := TranslateBlock(ShortBlock(), n, liveness, queue, marks, 0);
    forall st: Start { ShortBlockRuns(st.cpu); }
  }

  lemma WildNeverEnds(h: Host, o: Outcome)
    requires h.wild
    ensures !Ends(h, o)
  {
  }
}
