// Basic blocks of IR nodes and what running one means, fused nodes included.
module Blocks {
  import opened Word32
  import opened Isa

  // What the decoder guarantees of an IR node: results of computations never go to x0 (such
  // instructions are decoded as nops, all but the hint `c.li x0`), branches carry no destination,
  // shift amounts are in range.
  predicate Decoded(i: Insn) {
    && !IsFused(i.op)
    && (IsCondBranch(i.op) ==> i.rd == ZERO)
    && (IsComputation(i.op) && i.op != Cli ==> Target(i) != ZERO)
    && (i.op == Csrli || i.op == Csrai ==> i.shamt < 32)
  }

  // A decoded block at `pc`: consecutive addresses, and only the last node may branch.
  ghost predicate WellFormed(b: seq<Insn>, pc: Word) {
    b == [] ||
    (&& Decoded(b[0]) && b[0].pc == pc
     && (IsBranch(b[0].op) ==> |b| == 1)
     && WellFormed(b[1..], Plus(pc, Len(b[0].op))))
  }

  lemma {:induction false} SuffixWellFormed(b: seq<Insn>, k: nat, pc: Word)
    requires WellFormed(b, pc) && k <= |b|
    ensures WellFormed(b[k..], if k < |b| then b[k].pc else pc)
    decreases k
  {
    hide Plus, Len, IsBranch, Decoded;
    if k == 0 {
      assert b[0..] == b;
    } else {
      assert b[1..][k - 1..] == b[k..];
      SuffixWellFormed(b[1..], k - 1, Plus(pc, Len(b[0].op)));
    }
  }

  // ----- fused handlers -----

  // One element of a fused run: lui, sw, lw, shift-immediate or addi, without moving the PC.
  function FusedStep(kind: Op, f: Fused, s: Cpu, lenient: bool): Flow {
    match kind
    case Fuse1 => Fall(Set(s, f.rd, f.imm))
    case Fuse3 =>
      var addr := Plus(s.x[f.rs1], f.imm);
      if !lenient && addr % 4 != 0 then Leave(Trap(StoreMisaligned, addr, false, s))
      else Fall(s.(mem := WriteWord(s.mem, addr, s.x[f.rs2])))
    case Fuse4 =>
      var addr := Plus(s.x[f.rs1], f.imm);
      if !lenient && addr % 4 != 0 then Leave(Trap(LoadMisaligned, addr, false, s))
      else Fall(Set(s, f.rd, ReadWord(s.mem, addr)))
    case Fuse5 =>
      var n := Shamt(f.imm);
      var v := if f.op == Slli then Shl(s.x[f.rs1], n) else if f.op == Srli then Shr(s.x[f.rs1], n) else Sar(s.x[f.rs1], n);
      Fall(Set(s, f.rd, v))
    case _ => Fall(Set(s, f.rd, Plus(s.x[f.rs1], f.imm)))
  }

  function FusedLoop(kind: Op, fs: seq<Fused>, s: Cpu, lenient: bool): Flow {
    if fs == [] then Fall(s)
    else
      match FusedStep(kind, fs[0], s, lenient)
      case Fall(t) => FusedLoop(kind, fs[1..], t, lenient)
      case Leave(o) => Leave(o)
  }

  // The loop of a fused handler.
  method RunFusedLoop(kind: Op, fs: seq<Fused>, s: Cpu, lenient: bool) returns (f: Flow)
    ensures f == FusedLoop(kind, fs, s, lenient)
  {
    hide FusedStep;
    f := Fall(s);
    var i := 0;
    while i < |fs| && f.Fall?
      invariant i <= |fs|
      invariant f.Fall? ==> FusedLoop(kind, fs[i..], f.cpu, lenient) == FusedLoop(kind, fs, s, lenient)
      invariant f.Leave? ==> f == FusedLoop(kind, fs, s, lenient)
    {
      assert fs[i..][1..] == fs[i + 1..];
      f := FusedStep(kind, fs[i], f.cpu, lenient);
      i := i + 1;
    }
  }

  predicate IsRunKind(op: Op) {
    op == Fuse1 || op == Fuse3 || op == Fuse4 || op == Fuse5 || op == Fuse7
  }

  // The elements a fused run executes: as many as its second immediate says.
  function Elements(i: Insn): seq<Fused> {
    if i.imm2 <= |i.fuse| then i.fuse[..i.imm2] else i.fuse
  }

  // Fused handlers count all their cycles first and move the PC last.
  function FusedAct(i: Insn, s: Cpu, lenient: bool): Flow {
    if IsRunKind(i.op) then
      match FusedLoop(i.op, Elements(i), Tick(s, i.imm2), lenient)
      case Fall(t) => Fall(t.(pc := Plus(t.pc, Wrap(4 * i.imm2))))
      case Leave(o) => Leave(o)
    else FusedPair(i, Tick(s, 2), lenient)
  }

  function FusedPair(i: Insn, s: Cpu, lenient: bool): Flow {
    var past := Plus(s.pc, 8);
    match i.op
    case Fuse2 =>
      var t := Set(s, i.rd, i.imm);
      Fall(Set(t, i.rs2, Plus(t.x[i.rd], t.x[i.rs1])).(pc := past))
    case Fuse6 => Leave(EnvCall(Set(s, A7, i.imm).(pc := Plus(s.pc, 4))))
    case Fuse8 => Fall(Set(s, i.rd, Plus(i.imm, i.imm2)).(pc := past))
    case Fuse9 =>
      var t, addr := Set(s, i.rd, i.imm), Plus(i.imm, i.imm2);
      if !lenient && addr % 4 != 0 then Leave(Trap(LoadMisaligned, addr, false, t))
      else Fall(Set(t, i.rs2, ReadWord(t.mem, addr)).(pc := past))
    case Fuse10 =>
      var t, addr := Set(s, i.rd, i.imm), Plus(i.imm, i.imm2);
      if !lenient && addr % 4 != 0 then Leave(Trap(StoreMisaligned, addr, false, t))
      else Fall(t.(mem := WriteWord(t.mem, addr, t.x[i.rs1]), pc := past))
    case Fuse11 =>
      var addr := Plus(s.x[i.rs1], i.imm);
      if !lenient && addr % 4 != 0 then Leave(Trap(LoadMisaligned, addr, false, s))
      else
        var t := Set(s, i.rd, ReadWord(s.mem, addr));
        Fall(Set(t, i.rs1, Plus(t.x[i.rs1], i.imm2)).(pc := past))
    case Fuse12 =>
      var t := Set(s, i.rd, Plus(s.x[i.rs1], i.imm));
      Leave(Done(t.(pc := if t.x[i.rd] != 0 then Plus(s.pc, Plus(4, i.imm2)) else past)))
    case _ => Fall(s)
  }

  // ----- running a block -----

  function Handle(i: Insn, s: Cpu, lenient: bool): Flow {
    if IsFused(i.op) then FusedAct(i, s, lenient) else Act(i, Tick(s, 1), lenient)
  }

  function Run(b: seq<Insn>, s: Cpu, lenient: bool): Outcome {
    if b == [] then Done(s)
    else
      match Handle(b[0], s, lenient)
      case Fall(t) => Run(b[1..], t, lenient)
      case Leave(o) => o
  }

  // Falling through always moves behind the instruction.
  lemma FallsBehind(i: Insn, s: Cpu, lenient: bool)
    requires Act(i, s, lenient).Fall?
    ensures Act(i, s, lenient).cpu.pc == Plus(s.pc, Len(i.op))
  {
    hide Computed, ClassOf, Target, Stored, Loaded, Misaligned, Plus, Len, Control;
    if !IsComputation(i.op) && !IsLoad(i.op) && !IsStore(i.op) { ControlFallsBehind(i, s); }
  }

  lemma ControlFallsBehind(i: Insn, s: Cpu)
    requires Control(i, s).Fall?
    ensures Control(i, s).cpu.pc == Plus(s.pc, Len(i.op))
  {
    hide Plus, Len, BranchTaken;
  }

  // Loads into x0 and the hint `c.li x0` do write it; everything else leaves it alone.
  predicate KeepsZero(i: Insn) {
    IsLoad(i.op) || i.op == Cli ==> i.rd != ZERO
  }

  lemma ActKeepsZero(i: Insn, s: Cpu, lenient: bool)
    requires Decoded(i) && KeepsZero(i) && s.x[0] == 0 && Act(i, s, lenient).Fall?
    ensures Act(i, s, lenient).cpu.x[0] == 0
  {
    hide Computed, Stored, Loaded, Misaligned, Plus, Len, Control, IsComputation, IsLoad, IsStore, Target;
    if i.op == Cli {
      HintTarget(i);
    } else if !IsComputation(i.op) && !IsLoad(i.op) && !IsStore(i.op) {
      ControlKeepsZero(i, s);
    }
  }

  lemma HintTarget(i: Insn)
    requires i.op == Cli
    ensures IsComputation(i.op) && Target(i) == i.rd
  {
  }

  lemma ControlKeepsZero(i: Insn, s: Cpu)
    requires s.x[0] == 0 && Control(i, s).Fall?
    ensures Control(i, s).cpu.x[0] == 0
  {
    hide Plus, Len, BranchTaken;
  }

  // ----- handlers -----

  // What single handlers do.
  lemma HandleConstant(i: Insn, s: Cpu, lenient: bool)
    requires IsConstantLoad(i.op)
    ensures Handle(i, s, lenient) == Fall(Cpu(s.x[i.rd := i.imm], Plus(s.pc, Len(i.op)), s.cycle + 1, s.mem))
  {
    hide Plus, Len;
  }

  lemma HandleNop(i: Insn, s: Cpu, lenient: bool)
    requires i.op == Nop
    ensures Handle(i, s, lenient) == Fall(Cpu(s.x[0 := 0], Plus(s.pc, 4), s.cycle + 1, s.mem))
  {
    hide Plus;
  }

  lemma HandleSum(i: Insn, s: Cpu, lenient: bool)
    requires i.op == Addi || i.op == Add
    ensures
      var v := Plus(s.x[i.rs1], if i.op == Addi then i.imm else s.x[i.rs2]);
      Handle(i, s, lenient) == Fall(Cpu(s.x[i.rd := v], Plus(s.pc, 4), s.cycle + 1, s.mem))
  {
    hide Plus;
  }

  lemma HandleShift(i: Insn, s: Cpu, lenient: bool)
    requires i.op == Slli || i.op == Srli || i.op == Srai
    ensures Handle(i, s, lenient) ==
      Fall(Cpu(s.x[i.rd := AluImm(i.op, s.x[i.rs1], i.imm)], Plus(s.pc, 4), s.cycle + 1, s.mem))
  {
    hide Plus, AluImm;
  }

  lemma HandleLw(i: Insn, s: Cpu, lenient: bool)
    requires i.op == Lw
    ensures
      var addr := Plus(s.x[i.rs1], i.imm);
      Handle(i, s, lenient) ==
        if !lenient && addr % 4 != 0 then Leave(Trap(LoadMisaligned, addr, false, Cpu(s.x, s.pc, s.cycle + 1, s.mem)))
        else Fall(Cpu(s.x[i.rd := ReadWord(s.mem, addr)], Plus(s.pc, 4), s.cycle + 1, s.mem))
  {
    hide Plus, ReadWord;
  }

  lemma HandleSw(i: Insn, s: Cpu, lenient: bool)
    requires i.op == Sw
    ensures
      var addr := Plus(s.x[i.rs1], i.imm);
      Handle(i, s, lenient) ==
        if !lenient && addr % 4 != 0 then Leave(Trap(StoreMisaligned, addr, false, Cpu(s.x, s.pc, s.cycle + 1, s.mem)))
        else Fall(Cpu(s.x, Plus(s.pc, 4), s.cycle + 1, WriteWord(s.mem, addr, s.x[i.rs2])))
  {
    hide Plus, WriteWord;
  }

  lemma HandleEcall(i: Insn, s: Cpu, lenient: bool)
    requires i.op == Ecall
    ensures Handle(i, s, lenient) == Leave(EnvCall(Cpu(s.x, s.pc, s.cycle + 1, s.mem)))
  {
  }

  lemma HandleBne(i: Insn, s: Cpu, lenient: bool)
    requires i.op == Bne
    ensures Handle(i, s, lenient) ==
      if s.x[i.rs1] != s.x[i.rs2] then Leave(Done(Cpu(s.x, Plus(s.pc, i.imm), s.cycle + 1, s.mem)))
      else Fall(Cpu(s.x, Plus(s.pc, 4), s.cycle + 1, s.mem))
  {
    hide Plus;
  }

  lemma HandlePair(i: Insn, s: Cpu, lenient: bool)
    requires IsFused(i.op) && !IsRunKind(i.op)
    ensures Handle(i, s, lenient) == FusedPair(i, Tick(s, 2), lenient)
  {
    hide FusedPair, FusedLoop, Act;
  }

  // What the fused pairs do.
  lemma HandleFuse2(i: Insn, s: Cpu, lenient: bool)
    requires i.op == Fuse2
    ensures
      var x := s.x[i.rd := i.imm];
      Handle(i, s, lenient) == Fall(Cpu(x[i.rs2 := Plus(x[i.rd], x[i.rs1])], Plus(s.pc, 8), s.cycle + 2, s.mem))
  {
    hide Handle, Plus;
    HandlePair(i, s, lenient);
  }

  lemma HandleFuse6(i: Insn, s: Cpu, lenient: bool)
    requires i.op == Fuse6
    ensures Handle(i, s, lenient) == Leave(EnvCall(Cpu(s.x[A7 := i.imm], Plus(s.pc, 4), s.cycle + 2, s.mem)))
  {
    hide Handle, Plus;
    HandlePair(i, s, lenient);
  }

  lemma HandleFuse8(i: Insn, s: Cpu, lenient: bool)
    requires i.op == Fuse8
    ensures Handle(i, s, lenient) == Fall(Cpu(s.x[i.rd := Plus(i.imm, i.imm2)], Plus(s.pc, 8), s.cycle + 2, s.mem))
  {
    hide Handle, Plus;
    HandlePair(i, s, lenient);
  }

  lemma HandleFuse9(i: Insn, s: Cpu, lenient: bool)
    requires i.op == Fuse9
    ensures
      var x, addr := s.x[i.rd := i.imm], Plus(i.imm, i.imm2);
      Handle(i, s, lenient) ==
        if !lenient && addr % 4 != 0 then Leave(Trap(LoadMisaligned, addr, false, Cpu(x, s.pc, s.cycle + 2, s.mem)))
        else Fall(Cpu(x[i.rs2 := ReadWord(s.mem, addr)], Plus(s.pc, 8), s.cycle + 2, s.mem))
  {
    hide Handle, Plus, ReadWord;
    HandlePair(i, s, lenient);
  }

  lemma HandleFuse10(i: Insn, s: Cpu, lenient: bool)
    requires i.op == Fuse10
    ensures
      var x, addr := s.x[i.rd := i.imm], Plus(i.imm, i.imm2);
      Handle(i, s, lenient) ==
        if !lenient && addr % 4 != 0 then Leave(Trap(StoreMisaligned, addr, false, Cpu(x, s.pc, s.cycle + 2, s.mem)))
        else Fall(Cpu(x, Plus(s.pc, 8), s.cycle + 2, WriteWord(s.mem, addr, x[i.rs1])))
  {
    hide Handle, Plus, WriteWord;
    HandlePair(i, s, lenient);
  }

  lemma HandleFuse11(i: Insn, s: Cpu, lenient: bool)
    requires i.op == Fuse11
    ensures
      var addr := Plus(s.x[i.rs1], i.imm);
      var x := s.x[i.rd := ReadWord(s.mem, addr)];
      Handle(i, s, lenient) ==
        if !lenient && addr % 4 != 0 then Leave(Trap(LoadMisaligned, addr, false, Cpu(s.x, s.pc, s.cycle + 2, s.mem)))
        else Fall(Cpu(x[i.rs1 := Plus(x[i.rs1], i.imm2)], Plus(s.pc, 8), s.cycle + 2, s.mem))
  {
    hide Handle, Plus, ReadWord;
    HandlePair(i, s, lenient);
  }

  lemma HandleFuse12(i: Insn, s: Cpu, lenient: bool)
    requires i.op == Fuse12
    ensures
      var x := s.x[i.rd := Plus(s.x[i.rs1], i.imm)];
      var pc := if x[i.rd] != 0 then Plus(s.pc, Plus(4, i.imm2)) else Plus(s.pc, 8);
      Handle(i, s, lenient) == Leave(Done(Cpu(x, pc, s.cycle + 2, s.mem)))
  {
    hide Handle, Plus, FusedPair;
    HandlePair(i, s, lenient);
    Countdown(i, Tick(s, 2), lenient);
  }

  lemma Countdown(i: Insn, s: Cpu, lenient: bool)
    requires i.op == Fuse12
    ensures
      var v := Plus(s.x[i.rs1], i.imm);
      var pc := if v != 0 then Plus(s.pc, Plus(4, i.imm2)) else Plus(s.pc, 8);
      FusedPair(i, s, lenient) == Leave(Done(Cpu(s.x[i.rd := v], pc, s.cycle, s.mem)))
  {
    hide Plus, ReadWord, WriteWord;
  }

  lemma HandleRun(i: Insn, s: Cpu, lenient: bool)
    requires IsRunKind(i.op)
    ensures Handle(i, s, lenient) ==
      match FusedLoop(i.op, Elements(i), Tick(s, i.imm2), lenient)
      case Fall(t) => Fall(t.(pc := Plus(t.pc, Wrap(4 * i.imm2))))
      case Leave(o) => Leave(o)
  {
    hide FusedPair, FusedLoop, Elements, Plus, Act;
  }

  lemma RunFrom(b: seq<Insn>, s: Cpu, lenient: bool)
    requires b != []
    ensures Run(b, s, lenient) ==
      match Handle(b[0], s, lenient)
      case Fall(t) => Run(b[1..], t, lenient)
      case Leave(o) => o
  {
    hide Handle;
  }

  // ----- the two alignment modes -----

  // A handler does the same in both modes, or traps in the strict one.
  ghost predicate StrictOrTrap(strict: Flow, lenient: Flow) {
    strict == lenient || (strict.Leave? && strict.outcome.Trap?)
  }

  lemma StrictAct(i: Insn, s: Cpu)
    ensures StrictOrTrap(Act(i, s, false), Act(i, s, true))
  {
    hide Computed, Control, Plus, Loaded, Stored, Len, Misaligned, Target, ClassOf;
  }

  lemma {:induction false} StrictLoop(kind: Op, fs: seq<Fused>, s: Cpu)
    ensures StrictOrTrap(FusedLoop(kind, fs, s, false), FusedLoop(kind, fs, s, true))
    decreases |fs|
  {
    hide FusedStep;
    if fs != [] {
      StrictStep(kind, fs[0], s);
      var h := FusedStep(kind, fs[0], s, false);
      if h.Fall? { StrictLoop(kind, fs[1..], h.cpu); }
    }
  }

  lemma StrictStep(kind: Op, f: Fused, s: Cpu)
    ensures StrictOrTrap(FusedStep(kind, f, s, false), FusedStep(kind, f, s, true))
  {
    hide Plus, ReadWord, WriteWord, Shl, Shr, Sar, Shamt, Set;
  }

  lemma StrictPair(i: Insn, s: Cpu)
    ensures StrictOrTrap(FusedPair(i, s, false), FusedPair(i, s, true))
  {
    hide Plus, ReadWord, WriteWord, Set;
  }

  lemma StrictHandle(i: Insn, s: Cpu)
    ensures StrictOrTrap(Handle(i, s, false), Handle(i, s, true))
  {
    hide Act, FusedLoop, FusedPair, Elements, Plus, IsFused, IsRunKind;
    if IsRunKind(i.op) {
      StrictLoop(i.op, Elements(i), Tick(s, i.imm2));
    } else {
      StrictPair(i, Tick(s, 2));
    }
    StrictAct(i, Tick(s, 1));
  }

  // A run that does not trap in the strict mode is the same in the other, fused nodes included.
  lemma {:induction false} StrictRun(b: seq<Insn>, s: Cpu)
    requires !Run(b, s, false).Trap?
    ensures Run(b, s, true) == Run(b, s, false)
    decreases |b|
  {
    hide Handle;
    if b != [] {
      StrictHandle(b[0], s);
      var h := Handle(b[0], s, false);
      if h.Fall? { StrictRun(b[1..], h.cpu); }
    }
  }

  // A translated block: the IR list, its recorded length, and the position of its tail node.
  class Block {
    var ir: seq<Insn>
    var count: nat
    var tail: int

    ghost predicate Valid()
      reads this
    {
      0 < |ir| == count && tail == |ir| - 1
    }

    constructor (ir: seq<Insn>)
      requires 0 < |ir|
      ensures Valid() && this.ir == ir
    {
      this.ir, count, tail := ir, |ir|, |ir| - 1;
    }
  }
}
