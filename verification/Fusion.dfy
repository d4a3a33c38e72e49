// Macro-operation fusion over one basic block, proved against the interpreter.
module Fusion {
  import opened Word32
  import opened Isa
  import opened Blocks

  // ----- the pass -----

  // The instructions a fused run of each kind is made of.
  predicate Member(kind: Op, op: Op) {
    match kind
    case Fuse1 => op == Lui
    case Fuse3 => op == Sw
    case Fuse4 => op == Lw
    case Fuse5 => op == Slli || op == Srli || op == Srai
    case Fuse7 => op == Addi
    case _ => false
  }

  // How many nodes at the front of `b` belong to a run.
  function Leading(kind: Op, b: seq<Insn>): (n: nat)
    ensures n <= |b| && forall k :: 0 <= k < n ==> Member(kind, b[k].op)
    ensures n < |b| ==> !Member(kind, b[n].op)
  {
    if b == [] || !Member(kind, b[0].op) then 0 else 1 + Leading(kind, b[1..])
  }

  function Project(i: Insn): Fused {
    Fused(i.op, i.rd, i.rs1, i.rs2, i.imm)
  }

  function Payload(b: seq<Insn>): (fs: seq<Fused>)
    ensures |fs| == |b|
  {
    if b == [] then [] else [Project(b[0])] + Payload(b[1..])
  }

  datatype Plan = Keep | Pair(op: Op) | RunOf(kind: Op)

  // The pattern that matches at a node with a successor.
  function Match(a: Insn, n: Insn): Plan {
    match a.op
    case Lui => MatchLui(a, n)
    case Sw => RunOf(Fuse3)
    case Lw => if n.op == Addi && a.rs1 == n.rs1 == n.rd && a.rd != a.rs1 then Pair(Fuse11) else RunOf(Fuse4)
    case Slli | Srli | Srai => RunOf(Fuse5)
    case Addi =>
      if a.rd == A7 && a.rs1 == ZERO && n.op == Ecall then Pair(Fuse6)
      else if n.op == Bne && a.rd != ZERO && a.rd == n.rs1 && n.rs2 == ZERO then Pair(Fuse12)
      else RunOf(Fuse7)
    case _ => Keep
  }

  function MatchLui(a: Insn, n: Insn): Plan {
    match n.op
    case Add => if a.rd == n.rs2 || a.rd == n.rs1 then Pair(Fuse2) else Keep
    case Addi => if a.rd != ZERO && a.rd == n.rs1 && a.rd == n.rd then Pair(Fuse8) else Keep
    case Lw => if a.rd != ZERO && a.rd == n.rs1 then Pair(Fuse9) else Keep
    case Sw => if a.rd != ZERO && a.rd == n.rs1 then Pair(Fuse10) else Keep
    case Lui => RunOf(Fuse1)
    case _ => Keep
  }

  // The node that replaces a matched pair.
  function Paired(op: Op, a: Insn, n: Insn): Insn {
    match op
    case Fuse2 => a.(op := op, rs2 := n.rd, rs1 := if a.rd == n.rs2 then n.rs1 else n.rs2)
    case Fuse6 => a.(op := op)
    case Fuse9 => a.(op := op, imm2 := n.imm, rs2 := n.rd)
    case Fuse10 => a.(op := op, imm2 := n.imm, rs1 := n.rs2)
    case _ => a.(op := op, imm2 := n.imm)
  }

  function RunNode(kind: Op, run: seq<Insn>): Insn
    requires run != []
  {
    run[0].(op := kind, imm2 := Wrap(|run|), fuse := Payload(run))
  }

  // The list nodes a fused run takes out count modulo 256: the number to unlink is passed as a byte.
  function Unlinked(count: nat): nat
    requires count > 0
  {
    (count - 1) % 256
  }

  // The node put at the front of `b`, and how many list nodes it stands for. `memory(k)` tells
  // whether the allocation attempted with `k` nodes left succeeds.
  function FuseStep(b: seq<Insn>, memory: nat -> bool): (r: (Insn, nat))
    requires 2 <= |b|
    ensures 1 <= r.1 <= |b|
  {
    match Match(b[0], b[1])
    case Keep => (b[0], 1)
    case Pair(op) => (Paired(op, b[0], b[1]), 2)
    case RunOf(kind) =>
      var count := Leading(kind, b);
      if count <= 1 || !memory(|b|) then (b[0], 1)
      else (RunNode(kind, b[..count]), 1 + Unlinked(count))
  }

  function FuseList(b: seq<Insn>, memory: nat -> bool): seq<Insn>
    decreases |b|
  {
    if |b| <= 1 then b
    else
      var (node, taken) := FuseStep(b, memory);
      [node] + FuseList(b[taken..], memory)
  }

  // Every run the pass fuses has at most 256 instructions.
  predicate ShortRuns(b: seq<Insn>, memory: nat -> bool)
    decreases |b|
  {
    |b| <= 1 ||
    (&& Covered(b, memory) == FuseStep(b, memory).1
     && ShortRuns(b[FuseStep(b, memory).1..], memory))
  }

  // How many instructions the node put at the front of `b` executes.
  function Covered(b: seq<Insn>, memory: nat -> bool): (n: nat)
    requires 2 <= |b|
    ensures FuseStep(b, memory).1 <= n <= |b|
  {
    match Match(b[0], b[1])
    case Keep => 1
    case Pair(op) => 2
    case RunOf(kind) =>
      var count := Leading(kind, b);
      if count <= 1 || !memory(|b|) then 1 else count
  }

  // ----- meaning of a group -----

  // Running some nodes without deciding what comes behind them.
  function Steps(b: seq<Insn>, s: Cpu, lenient: bool): Flow {
    if b == [] then Fall(s)
    else
      match Handle(b[0], s, lenient)
      case Fall(t) => Steps(b[1..], t, lenient)
      case Leave(o) => Leave(o)
  }

  lemma {:induction false} StepsSplit(b: seq<Insn>, k: nat, s: Cpu, lenient: bool)
    requires k <= |b|
    ensures Run(b, s, lenient) ==
      match Steps(b[..k], s, lenient)
      case Fall(t) => Run(b[k..], t, lenient)
      case Leave(o) => o
    decreases k
  {
    hide Handle;
    if k == 0 {
      assert b[0..] == b;
    } else {
      assert b[..k][1..] == b[1..][..k - 1] && b[1..][k - 1..] == b[k..];
      var h := Handle(b[0], s, lenient);
      if h.Fall? { StepsSplit(b[1..], k - 1, h.cpu, lenient); }
    }
  }

  // Equal registers and memory.
  ghost predicate SameWork(f: Cpu, s: Cpu) {
    f.x == s.x && f.mem == s.mem
  }

  // Equal outcomes, except that a trap inside a fused group reports the address of the group and
  // has counted all its cycles.
  ghost predicate Alike(a: Outcome, b: Outcome) {
    a == b ||
    (a.Trap? && b.Trap? && a.cause == b.cause && a.addr == b.addr && a.compressed == b.compressed
     && SameWork(a.cpu, b.cpu))
  }

  ghost predicate AlikeFlow(a: Flow, b: Flow) {
    a == b || (a.Leave? && b.Leave? && Alike(a.outcome, b.outcome))
  }

  // ----- fused runs -----

  // One element of a fused run does the work of its instruction.
  lemma MemberStep(kind: Op, i: Insn, f: Cpu, s: Cpu, lenient: bool)
    requires IsRunKind(kind) && Member(kind, i.op) && SameWork(f, s)
    ensures
      var a, h := FusedStep(kind, Project(i), f, lenient), Handle(i, s, lenient);
      && (a.Fall? ==> h.Fall? && SameWork(a.cpu, h.cpu) && a.cpu.pc == f.pc && a.cpu.cycle == f.cycle
                      && h.cpu.pc == Plus(s.pc, 4) && h.cpu.cycle == s.cycle + 1)
      && (a.Leave? ==> h.Leave? && a.outcome.Trap? && Alike(a.outcome, h.outcome))
  {
    hide Shl, Shr, Sar, Plus, Shamt, ReadWord, WriteWord, Handle;
    match kind {
      case Fuse1 => HandleConstant(i, s, lenient);
      case Fuse3 => HandleSw(i, s, lenient);
      case Fuse4 => HandleLw(i, s, lenient);
      case Fuse5 => HandleShift(i, s, lenient);
      case Fuse7 => HandleSum(i, s, lenient);
    }
  }

  // The loop of a fused run does the work of its instructions one after the other.
  lemma {:induction false} LoopSteps(kind: Op, b: seq<Insn>, f: Cpu, s: Cpu, lenient: bool)
    requires IsRunKind(kind) && SameWork(f, s) && forall k :: 0 <= k < |b| ==> Member(kind, b[k].op)
    ensures
      var a, h := FusedLoop(kind, Payload(b), f, lenient), Steps(b, s, lenient);
      && (a.Fall? ==> h.Fall? && SameWork(a.cpu, h.cpu) && a.cpu.pc == f.pc && a.cpu.cycle == f.cycle
                      && h.cpu.pc == Plus(s.pc, Wrap(4 * |b|)) && h.cpu.cycle == s.cycle + |b|)
      && (a.Leave? ==> h.Leave? && a.outcome.Trap? && Alike(a.outcome, h.outcome))
    decreases |b|
  {
    hide Handle, FusedStep, Member, IsRunKind, Alike, SameWork, Plus, Wrap;
    PlusFours(s.pc, |b|);
    if b != [] {
      MemberStep(kind, b[0], f, s, lenient);
      assert Payload(b)[1..] == Payload(b[1..]);
      var a, h := FusedStep(kind, Project(b[0]), f, lenient), Handle(b[0], s, lenient);
      if a.Fall? { LoopSteps(kind, b[1..], a.cpu, h.cpu, lenient); }
    }
  }

  // The stored count is the number of instructions in the payload.
  lemma RunCount(kind: Op, run: seq<Insn>)
    requires 0 < |run| < MOD
    ensures RunNode(kind, run).imm2 == |run| && Elements(RunNode(kind, run)) == Payload(run)
  {
    hide Payload;
    var fs := Payload(run);
    assert fs[..|run|] == fs;
  }

  lemma PlusFours(pc: Word, n: nat)
    ensures n == 0 ==> Plus(pc, Wrap(4 * n)) == pc
    ensures n > 0 ==> Plus(Plus(pc, 4), Wrap(4 * (n - 1))) == Plus(pc, Wrap(4 * n))
  {
    if n > 0 { StepFour(Wrap(4 * (n - 1)), 4 * (n - 1), pc); }
  }

  lemma StepFour(w: Word, m: int, pc: Word)
    requires w == Wrap(m)
    ensures Plus(Plus(pc, 4), w) == Plus(pc, Wrap(m + 4))
  {
    PlusCommutes(4, w);
    PlusAssociates(pc, 4, w);
    assert Wrap(m + 4) == Plus(w, 4);
  }

  // A fused run does what its instructions do.
  lemma RunSound(kind: Op, run: seq<Insn>, s: Cpu, lenient: bool)
    requires IsRunKind(kind) && 0 < |run| < MOD && forall k :: 0 <= k < |run| ==> Member(kind, run[k].op)
    ensures AlikeFlow(Handle(RunNode(kind, run), s, lenient), Steps(run, s, lenient))
  {
    hide FusedLoop, Steps, Plus, Member, Handle;
    RunCount(kind, run);
    HandleRun(RunNode(kind, run), s, lenient);
    LoopSteps(kind, run, Tick(s, |run|), s, lenient);
  }

  // ----- fused pairs -----

  lemma StepsTwo(a: Insn, n: Insn, s: Cpu, lenient: bool)
    ensures Steps([a, n], s, lenient) ==
      match Handle(a, s, lenient)
      case Fall(t) => Handle(n, t, lenient)
      case Leave(o) => Leave(o)
  {
    hide Handle;
    assert [a, n][1..] == [n] && [n][1..] == [];
    var h := Handle(a, s, lenient);
    if h.Fall? { assert Steps([n], h.cpu, lenient) == Handle(n, h.cpu, lenient); }
  }

  // A lui and the instruction that uses its result.
  lemma LuiAddSound(a: Insn, n: Insn, s: Cpu, lenient: bool)
    requires a.op == Lui && n.op == Add && (a.rd == n.rs2 || a.rd == n.rs1)
    ensures Handle(Paired(Fuse2, a, n), s, lenient) == Steps([a, n], s, lenient)
  {
    hide Plus, Steps, Handle;
    StepsTwo(a, n, s, lenient);
    TwiceFour(s.pc);
    HandleFuse2(Paired(Fuse2, a, n), s, lenient);
    HandleConstant(a, s, lenient);
    HandleSum(n, Handle(a, s, lenient).cpu, lenient);
    var x := s.x[a.rd := a.imm];
    PlusCommutes(x[n.rs1], x[n.rs2]);
  }

  lemma LuiAddiSound(a: Insn, n: Insn, s: Cpu, lenient: bool)
    requires a.op == Lui && n.op == Addi && a.rd == n.rs1 == n.rd
    ensures Handle(Paired(Fuse8, a, n), s, lenient) == Steps([a, n], s, lenient)
  {
    hide Plus, Steps, Handle;
    StepsTwo(a, n, s, lenient);
    TwiceFour(s.pc);
    HandleFuse8(Paired(Fuse8, a, n), s, lenient);
    HandleConstant(a, s, lenient);
    HandleSum(n, Handle(a, s, lenient).cpu, lenient);
    var v := Plus(a.imm, n.imm);
    assert s.x[a.rd := a.imm][a.rd := v] == s.x[a.rd := v];
  }

  lemma LuiLwSound(a: Insn, n: Insn, s: Cpu, lenient: bool)
    requires a.op == Lui && n.op == Lw && a.rd == n.rs1
    ensures AlikeFlow(Handle(Paired(Fuse9, a, n), s, lenient), Steps([a, n], s, lenient))
  {
    hide Plus, Steps, Handle, ReadWord, Paired;
    PairedMemory(a, n);
    StepsTwo(a, n, s, lenient);
    TwiceFour(s.pc);
    HandleFuse9(Paired(Fuse9, a, n), s, lenient);
    HandleConstant(a, s, lenient);
    HandleLw(n, Handle(a, s, lenient).cpu, lenient);
  }

  lemma LuiSwSound(a: Insn, n: Insn, s: Cpu, lenient: bool)
    requires a.op == Lui && n.op == Sw && a.rd == n.rs1
    ensures AlikeFlow(Handle(Paired(Fuse10, a, n), s, lenient), Steps([a, n], s, lenient))
  {
    hide Plus, Steps, Handle, WriteWord, Paired;
    PairedMemory(a, n);
    StepsTwo(a, n, s, lenient);
    TwiceFour(s.pc);
    HandleFuse10(Paired(Fuse10, a, n), s, lenient);
    HandleConstant(a, s, lenient);
    HandleSw(n, Handle(a, s, lenient).cpu, lenient);
  }

  lemma PairedMemory(a: Insn, n: Insn)
    ensures Paired(Fuse9, a, n) == a.(op := Fuse9, imm2 := n.imm, rs2 := n.rd)
    ensures Paired(Fuse10, a, n) == a.(op := Fuse10, imm2 := n.imm, rs1 := n.rs2)
  {
  }

  lemma LuiPairSound(op: Op, a: Insn, n: Insn, s: Cpu, lenient: bool)
    requires a.op == Lui && MatchLui(a, n) == Pair(op)
    ensures AlikeFlow(Handle(Paired(op, a, n), s, lenient), Steps([a, n], s, lenient))
  {
    hide Paired, Steps, Handle;
    if n.op == Add {
      LuiAddSound(a, n, s, lenient);
    } else if n.op == Addi {
      LuiAddiSound(a, n, s, lenient);
    } else if n.op == Lw {
      LuiLwSound(a, n, s, lenient);
    } else {
      LuiSwSound(a, n, s, lenient);
    }
  }

  // A load followed by the increment of its base register.
  lemma PostIncrementSound(a: Insn, n: Insn, s: Cpu, lenient: bool)
    requires a.op == Lw && n.op == Addi && a.rs1 == n.rs1 == n.rd && a.rd != a.rs1
    ensures AlikeFlow(Handle(Paired(Fuse11, a, n), s, lenient), Steps([a, n], s, lenient))
  {
    hide Plus, ReadWord, Steps, Handle;
    StepsTwo(a, n, s, lenient);
    TwiceFour(s.pc);
    HandleFuse11(Paired(Fuse11, a, n), s, lenient);
    HandleLw(a, s, lenient);
    if Handle(a, s, lenient).Fall? { HandleSum(n, Handle(a, s, lenient).cpu, lenient); }
  }

  // The two pairs that end a block take x0 for zero. When it is not, the environment call gets a
  // wrong a7, and the branch goes the wrong way if the counter is zero or equals x0.
  predicate Misled(i: Insn, s: Cpu) {
    var v := Plus(s.x[i.rs1], i.imm);
    || (i.op == Fuse6 && s.x[0] != 0)
    || (i.op == Fuse12 && s.x[0] != 0 && (v == 0 || v == s.x[0]) && i.imm2 != 4)
  }

  lemma EcallPairSound(a: Insn, n: Insn, s: Cpu, lenient: bool)
    requires a.op == Addi && a.rd == A7 && a.rs1 == ZERO && n.op == Ecall
    ensures
      var h, g := Handle(Paired(Fuse6, a, n), s, lenient), Steps([a, n], s, lenient);
      Alike(Finish(h), Finish(g)) <==> !Misled(Paired(Fuse6, a, n), s)
  {
    hide Plus, Steps, Handle;
    StepsTwo(a, n, s, lenient);
    HandleFuse6(Paired(Fuse6, a, n), s, lenient);
    HandleSum(a, s, lenient);
    HandleEcall(n, Handle(a, s, lenient).cpu, lenient);
    PlusMoves(s.x[0], a.imm);
    assert s.x[A7 := a.imm][A7] == a.imm;
  }

  lemma CountdownPairSound(a: Insn, n: Insn, s: Cpu, lenient: bool)
    requires a.op == Addi && n.op == Bne && a.rd != ZERO && a.rd == n.rs1 && n.rs2 == ZERO
    ensures
      var h, g := Handle(Paired(Fuse12, a, n), s, lenient), Steps([a, n], s, lenient);
      Alike(Finish(h), Finish(g)) <==> !Misled(Paired(Fuse12, a, n), s)
  {
    hide Plus, Steps, Handle, Paired;
    var v := Plus(s.x[a.rs1], a.imm);
    var x := s.x[a.rd := v];
    var taken, past := Plus(Plus(s.pc, 4), n.imm), Plus(s.pc, 8);
    assert Finish(Steps([a, n], s, lenient)) == Done(Cpu(x, if v != s.x[0] then taken else past, s.cycle + 2, s.mem)) by {
      StepsTwo(a, n, s, lenient);
      TwiceFour(s.pc);
      HandleSum(a, s, lenient);
      HandleBne(n, Handle(a, s, lenient).cpu, lenient);
    }
    CountdownPaired(a, n);
    assert Handle(Paired(Fuse12, a, n), s, lenient) == Leave(Done(Cpu(x, if v != 0 then taken else past, s.cycle + 2, s.mem))) by {
      HandleFuse12(Paired(Fuse12, a, n), s, lenient);
      PlusAssociates(s.pc, 4, n.imm);
    }
    TwiceFour(s.pc);
    PlusCancels(Plus(s.pc, 4), n.imm, 4);
  }

  lemma CountdownPaired(a: Insn, n: Insn)
    ensures Paired(Fuse12, a, n) == a.(op := Fuse12, imm2 := n.imm)
  {
  }

  lemma LastPairSound(op: Op, a: Insn, n: Insn, s: Cpu, lenient: bool)
    requires Match(a, n) == Pair(op) && (op == Fuse6 || op == Fuse12)
    ensures
      var h, g := Handle(Paired(op, a, n), s, lenient), Steps([a, n], s, lenient);
      Alike(Finish(h), Finish(g)) <==> !Misled(Paired(op, a, n), s)
  {
    hide Paired, Steps, Handle, Misled, Alike;
    if op == Fuse6 { EcallPairSound(a, n, s, lenient); } else { CountdownPairSound(a, n, s, lenient); }
  }

  lemma TwiceFour(pc: Word)
    ensures Plus(Plus(pc, 4), 4) == Plus(pc, 8)
  {
  }

  lemma PlusMoves(v: Word, n: Word)
    ensures Plus(v, n) == n <==> v == 0
  {
  }

  lemma PlusCancels(a: Word, b: Word, c: Word)
    ensures Plus(a, b) == Plus(a, c) <==> b == c
  {
  }

  lemma PairKinds(a: Insn, n: Insn)
    requires Match(a, n).Pair?
    ensures
      var op := Match(a, n).op;
      || (a.op == Lui && MatchLui(a, n) == Pair(op) && !IsBranch(n.op))
      || op == Fuse11 || op == Fuse6 || op == Fuse12
    ensures Match(a, n).op == Fuse11 ==> a.op == Lw && n.op == Addi && a.rs1 == n.rs1 == n.rd && a.rd != a.rs1
    ensures IsBranch(n.op) <==> Match(a, n).op == Fuse6 || Match(a, n).op == Fuse12
    ensures MayLeave(Match(a, n).op) ==> IsBranch(n.op)
    ensures Paired(Match(a, n).op, a, n).op == Match(a, n).op && IsFused(Match(a, n).op) && !IsRunKind(Match(a, n).op)
  {
    hide ClassOf, Match, MatchLui, Paired;
    PairForms(a, n);
    PairedOp(Match(a, n).op, a, n);
    FusedClass(Match(a, n).op);
    ConstantClass();
    ImmediateClass();
    RegisterClass();
    MemoryClass();
    BranchClass();
    ServiceClass();
  }

  lemma PairForms(a: Insn, n: Insn)
    requires Match(a, n).Pair?
    ensures
      var op := Match(a, n).op;
      || (a.op == Lui && MatchLui(a, n) == Pair(op) && (op == Fuse2 || op == Fuse8 || op == Fuse9 || op == Fuse10)
          && (n.op == Add || n.op == Addi || n.op == Lw || n.op == Sw))
      || (op == Fuse11 && a.op == Lw && n.op == Addi && a.rs1 == n.rs1 == n.rd && a.rd != a.rs1)
      || (op == Fuse6 && n.op == Ecall)
      || (op == Fuse12 && n.op == Bne)
  {
  }

  lemma PairedOp(op: Op, a: Insn, n: Insn)
    ensures Paired(op, a, n).op == op
  {
  }

  lemma RunKinds(a: Insn, n: Insn)
    requires Match(a, n).RunOf?
    ensures IsRunKind(Match(a, n).kind) && Member(Match(a, n).kind, a.op)
  {
  }

  // What is fused: two neighbours of one kind start a run, and these pairs are matched.
  lemma RunsFuse(b: seq<Insn>, memory: nat -> bool, kind: Op)
    requires 2 <= |b| && Member(kind, b[0].op) && Member(kind, b[1].op) && memory(|b|)
    ensures
      var n := Leading(kind, b);
      2 <= n && FuseStep(b, memory).0 == RunNode(kind, b[..n])
  {
    hide RunNode, Paired, Match, Member;
    MatchesRun(kind, b[0], b[1]);
    assert Leading(kind, b[1..]) >= 1 && b[1..][0] == b[1];
  }

  lemma MatchesRun(kind: Op, a: Insn, n: Insn)
    requires Member(kind, a.op) && Member(kind, n.op)
    ensures Match(a, n) == RunOf(kind)
  {
  }

  lemma PairsFuse(a: Insn, n: Insn)
    ensures a.op == Lui && n.op == Add ==> (Match(a, n).Pair? <==> a.rd == n.rs1 || a.rd == n.rs2)
    ensures a.op == Lui && n.op == Addi ==> (Match(a, n).Pair? <==> a.rd != ZERO && a.rd == n.rs1 == n.rd)
    ensures a.op == Lui && (n.op == Lw || n.op == Sw) ==> (Match(a, n).Pair? <==> a.rd != ZERO && a.rd == n.rs1)
    ensures a.op == Lw && n.op == Addi ==> (Match(a, n).Pair? <==> a.rs1 == n.rs1 == n.rd && a.rd != a.rs1)
    ensures a.op == Addi && n.op == Ecall ==> (Match(a, n).Pair? <==> a.rd == A7 && a.rs1 == ZERO)
    ensures a.op == Addi && n.op == Bne ==> (Match(a, n).Pair? <==> a.rd != ZERO && a.rd == n.rs1 && n.rs2 == ZERO)
  {
  }

  // ----- what stays true from group to group -----

  lemma HandlePlain(i: Insn, s: Cpu, lenient: bool)
    requires Decoded(i)
    ensures Handle(i, s, lenient) == Act(i, Tick(s, 1), lenient)
  {
    hide Act;
  }

  lemma HandleKeepsForm(b: seq<Insn>, s: Cpu, lenient: bool)
    requires b != [] && WellFormed(b, s.pc) && Handle(b[0], s, lenient).Fall?
    ensures WellFormed(b[1..], Handle(b[0], s, lenient).cpu.pc)
  {
    hide Act, Plus, Len, IsBranch, Handle;
    HandlePlain(b[0], s, lenient);
    FallsBehind(b[0], Tick(s, 1), lenient);
  }

  lemma {:induction false} StepsKeep(b: seq<Insn>, k: nat, s: Cpu, lenient: bool)
    requires k <= |b| && WellFormed(b, s.pc) && Steps(b[..k], s, lenient).Fall?
    ensures WellFormed(b[k..], Steps(b[..k], s, lenient).cpu.pc)
    decreases k
  {
    hide Handle, WellFormed;
    if k == 0 {
      assert b[0..] == b;
    } else {
      assert b[..k][1..] == b[1..][..k - 1] && b[1..][k - 1..] == b[k..];
      HandleKeepsForm(b, s, lenient);
      StepsKeep(b[1..], k - 1, Handle(b[0], s, lenient).cpu, lenient);
    }
  }

  // ----- the whole pass -----

  // The node put at the front of a block does what the instructions it covers do, exactly unless
  // it is misled by x0.
  lemma StepSound(b: seq<Insn>, memory: nat -> bool, s: Cpu, lenient: bool)
    requires 2 <= |b| && WellFormed(b, s.pc)
    requires Covered(b, memory) == FuseStep(b, memory).1
    ensures
      var (node, taken) := FuseStep(b, memory);
      var h, g := Handle(node, s, lenient), Steps(b[..taken], s, lenient);
      (Alike(Finish(h), Finish(g)) <==> !Misled(node, s)) && (taken < |b| ==> AlikeFlow(h, g))
  {
    hide Handle, Match, Paired, RunNode, Member, IsRunKind, IsBranch, Len, Plus, Decoded, Misled, SameWork;
    var (node, taken) := FuseStep(b, memory);
    if !Match(b[0], b[1]).Pair? { Unmisled(b, memory, s); }
    match Match(b[0], b[1]) {
      case Keep => StepsOne(b, s, lenient);
      case Pair(op) =>
        assert b[..2] == [b[0], b[1]] && b[1..][0] == b[1];
        PairKinds(b[0], b[1]);
        PairSound(op, b[0], b[1], s, lenient);
      case RunOf(kind) =>
        RunKinds(b[0], b[1]);
        if taken == 1 { StepsOne(b, s, lenient); } else { RunSound(kind, b[..taken], s, lenient); }
    }
  }

  lemma DecodedUnmisled(i: Insn, s: Cpu)
    requires Decoded(i)
    ensures !Misled(i, s)
  {
    hide Plus, ClassOf;
  }

  lemma Unmisled(b: seq<Insn>, memory: nat -> bool, s: Cpu)
    requires 2 <= |b| && Decoded(b[0]) && !Match(b[0], b[1]).Pair?
    ensures !Misled(FuseStep(b, memory).0, s)
  {
    hide Match, Paired, Member, Payload, Plus, Decoded;
    DecodedUnmisled(b[0], s);
    if Match(b[0], b[1]).RunOf? { RunKinds(b[0], b[1]); }
  }

  lemma StepsOne(b: seq<Insn>, s: Cpu, lenient: bool)
    requires b != []
    ensures Steps(b[..1], s, lenient) == Handle(b[0], s, lenient)
  {
    hide Handle;
    assert b[..1][1..] == [];
  }

  lemma PairSound(op: Op, a: Insn, n: Insn, s: Cpu, lenient: bool)
    requires Match(a, n) == Pair(op)
    ensures
      var h, g := Handle(Paired(op, a, n), s, lenient), Steps([a, n], s, lenient);
      (Alike(Finish(h), Finish(g)) <==> !Misled(Paired(op, a, n), s)) && (!IsBranch(n.op) ==> AlikeFlow(h, g))
  {
    hide Handle, Match, MatchLui, Paired, Steps, IsBranch, SameWork, Plus;
    PairKinds(a, n);
    if op == Fuse6 || op == Fuse12 {
      LastPairSound(op, a, n, s, lenient);
    } else if op == Fuse11 {
      PostIncrementSound(a, n, s, lenient);
    } else {
      LuiPairSound(op, a, n, s, lenient);
    }
  }

  // The last node of a fused block, if it is reached, is not misled by x0.
  ghost predicate EndsRight(f: seq<Insn>, s: Cpu, lenient: bool) {
    f != [] ==>
      match Steps(f[..|f| - 1], s, lenient)
      case Fall(t) => !Misled(f[|f| - 1], t)
      case Leave(_) => true
  }

  lemma EndsRightStep(f: seq<Insn>, s: Cpu, lenient: bool)
    requires 2 <= |f|
    ensures EndsRight(f, s, lenient) <==>
      match Handle(f[0], s, lenient)
      case Fall(t) => EndsRight(f[1..], t, lenient)
      case Leave(_) => true
  {
    hide Handle, Misled;
    assert f[..|f| - 1][1..] == f[1..][..|f| - 2];
  }

  lemma EndsRightNone(s: Cpu, lenient: bool)
    ensures EndsRight([], s, lenient)
  {
  }

  lemma EndsRightOne(f: seq<Insn>, s: Cpu, lenient: bool)
    requires |f| == 1
    ensures EndsRight(f, s, lenient) <==> !Misled(f[0], s)
    ensures Run(f, s, lenient) == Finish(Handle(f[0], s, lenient))
  {
    hide Handle, Misled;
    assert f[..0] == [] && f[1..] == [];
  }

  // Fusing a block keeps the outcome of a run, registers, memory, next PC and cycle count, exactly
  // when the closing pair is not misled. A run that traps on a misaligned access still traps, on
  // the same access and with the same registers and memory.
  lemma {:induction false} FuseExact(b: seq<Insn>, memory: nat -> bool, s: Cpu, lenient: bool)
    requires WellFormed(b, s.pc) && ShortRuns(b, memory)
    ensures Alike(Run(FuseList(b, memory), s, lenient), Run(b, s, lenient)) <==> EndsRight(FuseList(b, memory), s, lenient)
    decreases |b|
  {
    hide Handle, FuseStep, Covered, Steps, SameWork, Misled, EndsRight, Decoded, Len, Plus, IsBranch;
    if |b| == 1 {
      EndsRightOne(b, s, lenient);
      DecodedUnmisled(b[0], s);
    } else if 2 <= |b| {
      var (node, taken) := FuseStep(b, memory);
      var out, rest := FuseList(b, memory), FuseList(b[taken..], memory);
      assert out[0] == node && out[1..] == rest;
      StepsSplit(b, taken, s, lenient);
      StepSound(b, memory, s, lenient);
      var h, g := Handle(node, s, lenient), Steps(b[..taken], s, lenient);
      if taken == |b| {
        assert b[taken..] == [] && rest == [];
        EndsRightOne(out, s, lenient);
      } else {
        EndsRightStep(out, s, lenient);
        if g.Fall? {
          StepsKeep(b, taken, s, lenient);
          FuseExact(b[taken..], memory, g.cpu, lenient);
        }
      }
    } else {
      EndsRightNone(s, lenient);
    }
  }

  // ----- exactly when it is right -----

  // How many instructions a node executes.
  function Work(i: Insn): nat {
    if IsRunKind(i.op) then i.imm2 else if IsFused(i.op) then 2 else 1
  }

  function Weight(b: seq<Insn>): nat {
    if b == [] then 0 else Work(b[0]) + Weight(b[1..])
  }

  predicate MayLeave(op: Op) {
    IsBranch(op) || op == Fuse6 || op == Fuse12
  }

  // Only the last node may leave the block.
  predicate Straight(b: seq<Insn>) {
    b == [] || ((MayLeave(b[0].op) ==> |b| == 1) && Straight(b[1..]))
  }

  // With misaligned accesses allowed, every node runs to its end and counts its cycles.
  lemma HandleCycles(i: Insn, s: Cpu)
    ensures
      var h := Handle(i, s, true);
      Final(h).cycle == s.cycle + Work(i) && (h.Leave? ==> MayLeave(i.op) && !h.outcome.Trap?)
  {
    hide FusedLoop, FusedPair, Act, ClassOf;
    if IsRunKind(i.op) {
      LoopCycles(i.op, Elements(i), Tick(s, i.imm2));
    } else if IsFused(i.op) {
      PairCycles(i, Tick(s, 2));
    } else {
      ActCycles(i, Tick(s, 1));
    }
  }

  lemma {:induction false} LoopCycles(kind: Op, fs: seq<Fused>, s: Cpu)
    ensures FusedLoop(kind, fs, s, true).Fall? && FusedLoop(kind, fs, s, true).cpu.cycle == s.cycle
    decreases |fs|
  {
    hide FusedStep;
    if fs != [] {
      ElementCycles(kind, fs[0], s);
      LoopCycles(kind, fs[1..], FusedStep(kind, fs[0], s, true).cpu);
    }
  }

  lemma ElementCycles(kind: Op, f: Fused, s: Cpu)
    ensures FusedStep(kind, f, s, true).Fall? && FusedStep(kind, f, s, true).cpu.cycle == s.cycle
  {
    hide Plus, ReadWord, WriteWord, Shl, Shr, Sar, Shamt, Set;
    SetCycle(s);
  }

  lemma SetCycle(s: Cpu)
    ensures forall rd: Reg, v: Word :: Set(s, rd, v).cycle == s.cycle
  {
  }

  lemma PairCycles(i: Insn, s: Cpu)
    requires IsFused(i.op) && !IsRunKind(i.op)
    ensures
      var h := FusedPair(i, s, true);
      Final(h).cycle == s.cycle && (h.Leave? ==> MayLeave(i.op) && !h.outcome.Trap?)
  {
    hide FusedPair;
    PairKeepsCycle(i, s);
    PairLeaves(i, s);
  }

  lemma PairKeepsCycle(i: Insn, s: Cpu)
    ensures Final(FusedPair(i, s, true)).cycle == s.cycle
  {
    hide Plus, ReadWord, WriteWord;
  }

  lemma PairLeaves(i: Insn, s: Cpu)
    ensures
      var h := FusedPair(i, s, true);
      h.Leave? ==> (i.op == Fuse6 || i.op == Fuse12) && !h.outcome.Trap?
  {
    hide Plus, ReadWord, WriteWord;
  }

  lemma ActCycles(i: Insn, s: Cpu)
    requires !IsFused(i.op)
    ensures
      var h := Act(i, s, true);
      Final(h).cycle == s.cycle && (h.Leave? ==> MayLeave(i.op) && !h.outcome.Trap?)
  {
    hide Plus, Computed, Stored, Loaded, BranchTaken, IsComputation, IsLoad, IsStore, Target, Control, MayLeave, Len;
    if !IsComputation(i.op) && !IsLoad(i.op) && !IsStore(i.op) { ControlCycles(i, s); }
  }

  lemma ControlCycles(i: Insn, s: Cpu)
    requires !IsFused(i.op) && !IsComputation(i.op) && !IsLoad(i.op) && !IsStore(i.op)
    ensures
      var h := Control(i, s);
      Final(h).cycle == s.cycle && (h.Leave? ==> MayLeave(i.op) && !h.outcome.Trap?)
  {
    hide Plus, BranchTaken;
  }

  lemma {:induction false} RunCycles(b: seq<Insn>, s: Cpu)
    requires Straight(b)
    ensures Run(b, s, true).cpu.cycle == s.cycle + Weight(b) && !Run(b, s, true).Trap?
    decreases |b|
  {
    hide Handle, Work, MayLeave;
    if b != [] {
      HandleCycles(b[0], s);
      var h := Handle(b[0], s, true);
      if h.Fall? { RunCycles(b[1..], h.cpu); } else { assert b[1..] == []; }
    }
  }

  lemma DecodedPlain(i: Insn)
    requires Decoded(i)
    ensures Work(i) == 1 && MayLeave(i.op) == IsBranch(i.op)
  {
    hide ClassOf, IsBranch;
  }

  lemma {:induction false} DecodedWeight(b: seq<Insn>, pc: Word)
    requires WellFormed(b, pc)
    ensures Weight(b) == |b| && Straight(b)
    decreases |b|
  {
    hide Plus, Len, IsBranch, Decoded, Work, MayLeave;
    if b != [] {
      DecodedPlain(b[0]);
      DecodedWeight(b[1..], Plus(pc, Len(b[0].op)));
    }
  }

  // Few enough instructions for the 32-bit counters that count them.
  predicate Countable(b: seq<Insn>) {
    |b| < 0x8000_0000
  }

  // The node at the front executes what it covers, and leaves only at the end of the block.
  lemma StepWork(b: seq<Insn>, memory: nat -> bool, pc: Word)
    requires 2 <= |b| && WellFormed(b, pc) && Countable(b)
    ensures Work(FuseStep(b, memory).0) == Covered(b, memory)
    ensures MayLeave(FuseStep(b, memory).0.op) ==> FuseStep(b, memory).1 == |b|
  {
    hide Plus, Len, Match, Paired, MatchLui, IsBranch, Member, IsRunKind, IsFused, Decoded, MayLeave;
    assert b[1..][0] == b[1];
    DecodedPlain(b[0]);
    match Match(b[0], b[1]) {
      case Keep =>
      case Pair(op) => PairKinds(b[0], b[1]);
      case RunOf(kind) =>
        RunKinds(b[0], b[1]);
        RunNeverLeaves(kind);
        var count := Leading(kind, b);
        if count > 1 { RunCount(kind, b[..count]); }
    }
  }

  lemma RunNeverLeaves(kind: Op)
    requires IsRunKind(kind)
    ensures !MayLeave(kind)
  {
  }

  // The fused list executes at least the instructions of the block, and no more exactly when all
  // fused runs are short.
  lemma {:induction false} FuseWeight(b: seq<Insn>, memory: nat -> bool, pc: Word)
    requires WellFormed(b, pc) && Countable(b)
    ensures Straight(FuseList(b, memory)) && |b| <= Weight(FuseList(b, memory))
    ensures Weight(FuseList(b, memory)) == |b| <==> ShortRuns(b, memory)
    decreases |b|
  {
    hide Work, MayLeave, FuseStep, Covered, WellFormed;
    if |b| <= 1 {
      DecodedWeight(b, pc);
    } else {
      var (node, taken) := FuseStep(b, memory);
      var out, rest := FuseList(b, memory), FuseList(b[taken..], memory);
      assert out[0] == node && out[1..] == rest;
      StepWork(b, memory, pc);
      SuffixWellFormed(b, taken, pc);
      FuseWeight(b[taken..], memory, if taken < |b| then b[taken].pc else pc);
      if taken == |b| { assert b[taken..] == [] && rest == []; }
    }
  }

  // In both modes, fusion is right for a run of a block that does not trap exactly when no fused run
  // is longer than 256 and the closing pair is not misled; with misaligned accesses allowed no run
  // traps. Without long runs the second half is the condition for runs that trap as well.
  lemma FusionPreservesIff(b: seq<Insn>, memory: nat -> bool, pc: Word)
    requires WellFormed(b, pc)
    ensures
      var f := FuseList(b, memory);
      && (Countable(b) ==> forall s: Cpu, lenient: bool :: s.pc == pc && !Run(b, s, lenient).Trap? ==>
           (Alike(Run(f, s, lenient), Run(b, s, lenient)) <==> ShortRuns(b, memory) && EndsRight(f, s, lenient)))
      && (ShortRuns(b, memory) ==> forall s: Cpu, lenient: bool :: s.pc == pc ==>
           (Alike(Run(f, s, lenient), Run(b, s, lenient)) <==> EndsRight(f, s, lenient)))
    ensures forall s: Cpu :: s.pc == pc ==> !Run(b, s, true).Trap?
  {
    hide Run, FuseList, ShortRuns, WellFormed, SameWork, EndsRight, Straight, Weight;
    DecodedWeight(b, pc);
    forall s: Cpu | s.pc == pc ensures !Run(b, s, true).Trap? {
      RunCycles(b, s);
    }
    if ShortRuns(b, memory) {
      forall s: Cpu, lenient: bool | s.pc == pc
        ensures Alike(Run(FuseList(b, memory), s, lenient), Run(b, s, lenient)) <==> EndsRight(FuseList(b, memory), s, lenient)
      {
        FuseExact(b, memory, s, lenient);
      }
    } else if Countable(b) {
      forall s: Cpu, lenient: bool | s.pc == pc && !Run(b, s, lenient).Trap?
        ensures !Alike(Run(FuseList(b, memory), s, lenient), Run(b, s, lenient))
      {
        LongRunsDiffer(b, memory, s, lenient);
      }
    }
  }

  // A long run makes every run that does not trap differ, because it counts more cycles.
  lemma LongRunsDiffer(b: seq<Insn>, memory: nat -> bool, s: Cpu, lenient: bool)
    requires WellFormed(b, s.pc) && Countable(b) && !ShortRuns(b, memory) && !Run(b, s, lenient).Trap?
    ensures !Alike(Run(FuseList(b, memory), s, lenient), Run(b, s, lenient))
  {
    hide Run, FuseList, ShortRuns, WellFormed, Straight, Weight, SameWork;
    var f := FuseList(b, memory);
    FuseWeight(b, memory, s.pc);
    DecodedWeight(b, s.pc);
    RunCycles(b, s);
    RunCycles(f, s);
    if !lenient && Run(f, s, false) == Run(b, s, false) {
      StrictRun(b, s);
      StrictRun(f, s);
    }
  }

  // ----- a condition on the block alone -----

  // Whether x0 is sure to be zero behind a node, given that before it.
  predicate ZeroAfter(i: Insn, zero: bool) {
    if i.op == Nop then true
    else if i.op == Cli && i.rd == ZERO then i.imm == 0
    else zero && KeepsZero(i)
  }

  predicate ZeroBehind(b: seq<Insn>, zero: bool) {
    if b == [] then zero else ZeroBehind(b[1..], ZeroAfter(b[0], zero))
  }

  // Nothing but zero is left in x0 by the instructions before the last two.
  predicate ClosesOnZero(b: seq<Insn>) {
    2 <= |b| ==> ZeroBehind(b[..|b| - 2], true)
  }

  lemma ZeroAfterStep(i: Insn, zero: bool, s: Cpu, lenient: bool)
    requires Decoded(i) && (zero ==> s.x[0] == 0) && Handle(i, s, lenient).Fall?
    ensures ZeroAfter(i, zero) ==> Handle(i, s, lenient).cpu.x[0] == 0
  {
    hide Act, Plus, ClassOf, Len, Handle;
    if i.op == Nop {
      HandleNop(i, s, lenient);
    } else if i.op == Cli && i.rd == ZERO {
      HintSets(i, s, lenient);
    } else if zero && KeepsZero(i) {
      HandlePlain(i, s, lenient);
      ActKeepsZero(i, Tick(s, 1), lenient);
    }
  }

  lemma HintSets(i: Insn, s: Cpu, lenient: bool)
    requires i.op == Cli
    ensures Handle(i, s, lenient).Fall? && Handle(i, s, lenient).cpu.x == s.x[i.rd := i.imm]
  {
    hide Plus, Handle;
    HandleConstant(i, s, lenient);
  }

  lemma {:induction false} ZeroBehindSteps(b: seq<Insn>, k: nat, zero: bool, s: Cpu, lenient: bool)
    requires k <= |b| && WellFormed(b, s.pc) && (zero ==> s.x[0] == 0) && Steps(b[..k], s, lenient).Fall?
    ensures ZeroBehind(b[..k], zero) ==> Steps(b[..k], s, lenient).cpu.x[0] == 0
    decreases k
  {
    hide Handle, Plus, Len, IsBranch, Decoded, ZeroAfter;
    if k > 0 {
      assert b[..k][1..] == b[1..][..k - 1];
      ZeroAfterStep(b[0], zero, s, lenient);
      HandleKeepsForm(b, s, lenient);
      ZeroBehindSteps(b[1..], k - 1, ZeroAfter(b[0], zero), Handle(b[0], s, lenient).cpu, lenient);
    }
  }

  lemma {:induction false} ZeroBehindSplit(a: seq<Insn>, c: seq<Insn>, zero: bool)
    ensures ZeroBehind(a + c, zero) == ZeroBehind(c, ZeroBehind(a, zero))
    decreases |a|
  {
    hide ZeroAfter;
    if a == [] {
      assert a + c == c;
    } else {
      assert (a + c)[1..] == a[1..] + c;
      ZeroBehindSplit(a[1..], c, ZeroAfter(a[0], zero));
    }
  }

  lemma {:induction false} ClosingUnmisled(b: seq<Insn>, memory: nat -> bool, zero: bool, s: Cpu, lenient: bool)
    requires WellFormed(b, s.pc) && ShortRuns(b, memory) && (zero ==> s.x[0] == 0)
    requires 2 <= |b| ==> ZeroBehind(b[..|b| - 2], zero)
    ensures EndsRight(FuseList(b, memory), s, lenient)
    decreases |b|
  {
    hide Handle, FuseStep, Covered, Steps, SameWork, Misled, EndsRight, Decoded, Len, Plus, IsBranch, ZeroAfter;
    if |b| == 1 {
      EndsRightOne(b, s, lenient);
      DecodedUnmisled(b[0], s);
    } else if 2 <= |b| {
      var (node, taken) := FuseStep(b, memory);
      var out, rest := FuseList(b, memory), FuseList(b[taken..], memory);
      assert out[0] == node && out[1..] == rest;
      if taken == |b| {
        assert b[taken..] == [] && rest == [];
        EndsRightOne(out, s, lenient);
        LastUnmisled(b, memory, s);
      } else {
        EndsRightStep(out, s, lenient);
        StepSound(b, memory, s, lenient);
        if Steps(b[..taken], s, lenient).Fall? {
          var t := Steps(b[..taken], s, lenient).cpu;
          StepsKeep(b, taken, s, lenient);
          ZeroBehindSteps(b, taken, zero, s, lenient);
          if taken <= |b| - 2 {
            assert b[..|b| - 2] == b[..taken] + b[taken..][..|b| - taken - 2];
            ZeroBehindSplit(b[..taken], b[taken..][..|b| - taken - 2], zero);
          }
          ClosingUnmisled(b[taken..], memory, ZeroBehind(b[..taken], zero), t, lenient);
        }
      }
    } else {
      EndsRightNone(s, lenient);
    }
  }

  // A group that takes the whole block is a pair, or it has nothing to do with x0.
  lemma LastUnmisled(b: seq<Insn>, memory: nat -> bool, s: Cpu)
    requires 2 <= |b| && Decoded(b[0]) && FuseStep(b, memory).1 == |b| && (|b| == 2 ==> s.x[0] == 0)
    ensures !Misled(FuseStep(b, memory).0, s)
  {
    hide Match, Paired, RunNode, Member, Plus, Decoded;
    if !Match(b[0], b[1]).Pair? { Unmisled(b, memory, s); }
  }

  // Blocks that leave nothing but zero in x0 before their last two instructions are fused rightly
  // from every state with x0 = 0.
  lemma ClosesOnZeroSuffices(b: seq<Insn>, memory: nat -> bool, s: Cpu, lenient: bool)
    requires WellFormed(b, s.pc) && ShortRuns(b, memory) && s.x[0] == 0 && ClosesOnZero(b)
    ensures EndsRight(FuseList(b, memory), s, lenient)
    ensures Alike(Run(FuseList(b, memory), s, lenient), Run(b, s, lenient))
  {
    hide *;
    ClosesOnZeroMeans(b);
    ClosingUnmisled(b, memory, true, s, lenient);
    FuseExact(b, memory, s, lenient);
  }

  lemma ClosesOnZeroMeans(b: seq<Insn>)
    requires ClosesOnZero(b)
    ensures 2 <= |b| ==> ZeroBehind(b[..|b| - 2], true)
  {
  }

  // Blocks of up to 256 instructions are always fused correctly.
  lemma {:induction false} SmallBlocksAreShort(b: seq<Insn>, memory: nat -> bool)
    requires |b| <= 256
    ensures ShortRuns(b, memory)
    decreases |b|
  {
    hide FuseStep, Covered;
    if 2 <= |b| {
      SmallRunsAreCovered(b, memory);
      SmallBlocksAreShort(b[FuseStep(b, memory).1..], memory);
    }
  }

  lemma SmallRunsAreCovered(b: seq<Insn>, memory: nat -> bool)
    requires 2 <= |b| <= 256
    ensures Covered(b, memory) == FuseStep(b, memory).1
  {
    hide Match, Paired, RunNode, Member;
  }

  // A block of `n` equal instructions.
  ghost function LuiBlock(n: nat, pc: Word): (b: seq<Insn>)
    ensures |b| == n && (forall k :: 0 <= k < n ==> b[k].op == Lui && KeepsZero(b[k])) && WellFormed(b, pc)
    decreases n
  {
    if n == 0 then []
    else
      var b := [Insn(Lui, 1, 0, 0, 0, 0, pc, 0, [])] + LuiBlock(n - 1, Plus(pc, 4));
      assert b[1..] == LuiBlock(n - 1, Plus(pc, 4));
      b
  }

  lemma {:induction false} LuisNeverTrap(b: seq<Insn>, s: Cpu, lenient: bool)
    requires forall k :: 0 <= k < |b| ==> b[k].op == Lui
    ensures !Run(b, s, lenient).Trap?
    decreases |b|
  {
    hide Handle, Plus, ClassOf;
    if b != [] {
      ConstantClass();
      HandleConstant(b[0], s, lenient);
      LuisNeverTrap(b[1..], Handle(b[0], s, lenient).cpu, lenient);
    }
  }

  // From 257 on they make a run that is fused wrongly: every run of the block ends differently.
  lemma LongRunIsFusedWrongly(n: nat, memory: nat -> bool, s: Cpu, lenient: bool)
    requires 256 < n < 0x8000_0000 && memory(n)
    ensures
      var b := LuiBlock(n, s.pc);
      WellFormed(b, s.pc) && !ShortRuns(b, memory) && !Alike(Run(FuseList(b, memory), s, lenient), Run(b, s, lenient))
  {
    hide LuiBlock, WellFormed, Plus, KeepsZero, Run, FuseList, Alike;
    var b := LuiBlock(n, s.pc);
    assert Match(b[0], b[1]) == RunOf(Fuse1);
    assert Leading(Fuse1, b) == n;
    LuisNeverTrap(b, s, lenient);
    LongRunsDiffer(b, memory, s, lenient);
  }

  // A block that loads into x0 and then makes an environment call.
  function ZeroLoadBlock(): (b: seq<Insn>) {
    [Insn(Lw, 0, 1, 0, 0, 0, 0, 0, []),
     Insn(Addi, A7, 0, 0, 7, 0, 4, 0, []),
     Insn(Ecall, 0, 0, 0, 0, 0, 8, 0, [])]
  }

  lemma ZeroLoadFused(memory: nat -> bool)
    ensures FuseList(ZeroLoadBlock(), memory) == [ZeroLoadBlock()[0], ZeroLoadBlock()[1].(op := Fuse6)]
  {
    hide RunNode, Unlinked, Payload, FuseStep;
    var b := ZeroLoadBlock();
    ZeroLoadSteps(memory);
    var rest := b[1..];
    assert rest == [b[1], b[2]] && rest[2..] == [];
    assert FuseList(rest, memory) == [b[1].(op := Fuse6)] + FuseList(rest[2..], memory);
    assert FuseList(b, memory) == [b[0]] + FuseList(rest, memory);
  }

  lemma ZeroLoadSteps(memory: nat -> bool)
    ensures
      var b := ZeroLoadBlock();
      FuseStep(b, memory) == (b[0], 1) && FuseStep([b[1], b[2]], memory) == (b[1].(op := Fuse6), 2)
  {
    hide RunNode, Unlinked, Payload, Match, Leading;
    var b := ZeroLoadBlock();
    LoadStays(b[0], b[1], b[2]);
    EcallPairs(b[1], b[2]);
    assert b == [b[0], b[1], b[2]];
  }

  lemma LoadStays(a: Insn, n: Insn, m: Insn)
    requires a.op == Lw && n.op == Addi && a.rs1 != n.rs1
    ensures Match(a, n) == RunOf(Fuse4) && Leading(Fuse4, [a, n, m]) == 1
  {
    assert Match(a, n) == RunOf(Fuse4) by { hide Leading, Member; }
    assert Leading(Fuse4, [a, n, m]) == 1 by {
      hide Match;
      assert [a, n, m][1..] == [n, m] && Leading(Fuse4, [n, m]) == 0;
    }
  }

  lemma EcallPairs(a: Insn, n: Insn)
    requires a.op == Addi && a.rd == A7 && a.rs1 == ZERO && n.op == Ecall
    ensures Match(a, n) == Pair(Fuse6) && Paired(Fuse6, a, n) == a.(op := Fuse6)
  {
    assert Match(a, n) == Pair(Fuse6) by { hide Paired; }
    assert Paired(Fuse6, a, n) == a.(op := Fuse6) by { hide Match; }
  }

  lemma ZeroLoadPlain(s: Cpu, lenient: bool)
    requires lenient || Plus(s.x[1], 0) % 4 == 0
    ensures
      var o := Run(ZeroLoadBlock(), s, lenient);
      o.EnvCall? && o.cpu.x[A7] == Plus(ReadWord(s.mem, Plus(s.x[1], 0)), 7)
  {
    hide Handle, Run, Plus, ReadWord;
    var b := ZeroLoadBlock();
    RunFrom(b, s, lenient);
    HandleLw(b[0], s, lenient);
    var t := Handle(b[0], s, lenient).cpu;
    assert t.x[0] == ReadWord(s.mem, Plus(s.x[1], 0));
    var rest, last := [b[1], b[2]], [b[2]];
    assert b[1..] == rest && rest[1..] == last;
    RunFrom(rest, t, lenient);
    HandleSum(b[1], t, lenient);
    var u := Handle(b[1], t, lenient).cpu;
    RunFrom(last, u, lenient);
    HandleEcall(b[2], u, lenient);
  }

  // A load into x0 that reaches the pair: a7 is set as if x0 were still zero, so it is wrong
  // whenever the word loaded is not.
  lemma ZeroLoadIsFusedWrongly(memory: nat -> bool, s: Cpu, lenient: bool)
    requires (lenient || Plus(s.x[1], 0) % 4 == 0) && ReadWord(s.mem, Plus(s.x[1], 0)) != 0
    ensures
      var plain, fused := Run(ZeroLoadBlock(), s, lenient), Run(FuseList(ZeroLoadBlock(), memory), s, lenient);
      plain.EnvCall? && fused.EnvCall? && fused.cpu.x[A7] == 7 && plain.cpu.x[A7] != 7
  {
    hide Handle, Run, FuseList, Plus, ReadWord;
    var b := ZeroLoadBlock();
    ZeroLoadFused(memory);
    ZeroLoadPlain(s, lenient);
    PlusMoves(ReadWord(s.mem, Plus(s.x[1], 0)), 7);
    var fused := FuseList(b, memory);
    RunFrom(fused, s, lenient);
    HandleLw(b[0], s, lenient);
    var t := Handle(b[0], s, lenient).cpu;
    RunFrom(fused[1..], t, lenient);
    HandleFuse6(fused[1], t, lenient);
  }

  // ----- the list operations -----

  // Take out the nodes behind position `i`; only the low byte of `n` counts.
  method RemoveNextNth(block: Block, i: nat, n: nat)
    requires block.Valid() && i + n % 256 < |block.ir|
    modifies block
    ensures block.Valid() && block.ir == old(block.ir)[..i + 1] + old(block.ir)[i + 1 + n % 256..]
  {
    var m := n % 256;
    var k := 0;
    while k < m
      invariant k <= m && block.count == old(block.count) && block.tail == old(block.tail)
      invariant block.ir == old(block.ir)[..i + 1] + old(block.ir)[i + 1 + k..]
    {
      block.ir := block.ir[..i + 1] + block.ir[i + 2..];
      k := k + 1;
    }
    block.tail := if i + 1 == |block.ir| then i else block.tail - m;
    block.count := block.count - m;
  }

  // Count the nodes of a run from position `i` on.
  method CountConsecutive(kind: Op, ir: seq<Insn>, i: nat) returns (count: nat)
    requires i < |ir| && Member(kind, ir[i].op)
    ensures count == Leading(kind, ir[i..])
  {
    hide Member;
    count := 1;
    var next := i + 1;
    while next < |ir| && Member(kind, ir[next].op)
      invariant i + count == next <= |ir|
      invariant Leading(kind, ir[i..]) == count + Leading(kind, ir[next..])
    {
      assert ir[next..][1..] == ir[next + 1..];
      count := count + 1;
      next := next + 1;
    }
  }

  // What a fused node keeps of the instructions of its run.
  method CopyRun(run: seq<Insn>) returns (fuse: seq<Fused>)
    ensures fuse == Payload(run)
  {
    fuse := [];
    var j := 0;
    while j < |run|
      invariant j <= |run| && Payload(run) == fuse + Payload(run[j..])
    {
      assert run[j..][1..] == run[j + 1..];
      fuse := fuse + [Project(run[j])];
      j := j + 1;
    }
  }

  // Copy a run into the node at `i` and unlink the rest of it.
  method TryFuseSequence(block: Block, i: nat, count: nat, kind: Op, granted: bool)
    requires block.Valid() && i + count <= |block.ir| && 0 < count
    modifies block
    ensures block.Valid()
    ensures count <= 1 || !granted ==> block.ir == old(block.ir)
    ensures count > 1 && granted ==>
      block.ir == old(block.ir)[..i] + [RunNode(kind, old(block.ir)[i..i + count])]
                  + old(block.ir)[i + 1 + Unlinked(count)..]
  {
    hide Payload;
    if count <= 1 || !granted { return; }
    ghost var orig := block.ir;
    var node := block.ir[i];
    var run := block.ir[i..i + count];
    var fuse := CopyRun(run);
    block.ir := block.ir[i := node.(op := kind, imm2 := Wrap(count), fuse := fuse)];
    assert block.ir[i] == RunNode(kind, run);
    RemoveNextNth(block, i, count - 1);
    assert block.ir == orig[..i] + [RunNode(kind, run)] + orig[i + 1 + Unlinked(count)..];
  }

  // Replace the nodes at `i` and behind it by one.
  method FusePair(block: Block, i: nat, node: Insn)
    requires block.Valid() && i + 1 < |block.ir|
    modifies block
    ensures block.Valid() && block.ir == old(block.ir)[..i] + [node] + old(block.ir)[i + 2..]
  {
    block.ir := block.ir[i := node];
    RemoveNextNth(block, i, 1);
  }

  // Match at position `i`.
  method FuseAt(block: Block, i: nat, granted: bool, ghost memory: nat -> bool)
    requires block.Valid() && i + 1 < |block.ir| && granted == memory(|block.ir| - i)
    modifies block
    ensures block.Valid()
    ensures
      var (node, taken) := FuseStep(old(block.ir)[i..], memory);
      block.ir == old(block.ir)[..i] + [node] + old(block.ir)[i + taken..]
  {
    hide Match, Paired, Leading, RunNode, Unlinked, Member, IsRunKind;
    ghost var orig := block.ir;
    var a, n := block.ir[i], block.ir[i + 1];
    ghost var rest := orig[i..];
    assert rest[0] == a && rest[1] == n && |rest| == |orig| - i;
    match Match(a, n) {
      case Keep =>
        assert FuseStep(rest, memory) == (a, 1);
      case Pair(op) =>
        assert FuseStep(rest, memory) == (Paired(op, a, n), 2);
        FusePair(block, i, Paired(op, a, n));
      case RunOf(kind) =>
        RunKinds(a, n);
        var count := CountConsecutive(kind, block.ir, i);
        assert rest[..count] == orig[i..i + count];
        assert FuseStep(rest, memory) ==
          if count <= 1 || !granted then (a, 1) else (RunNode(kind, orig[i..i + count]), 1 + Unlinked(count));
        TryFuseSequence(block, i, count, kind, granted);
        assert count <= 1 || !granted ==> orig == orig[..i] + [a] + orig[i + 1..];
    }
  }

  // One turn of the pass: the list so far and what is left of it still add up to the result.
  lemma FuseListStep(before: seq<Insn>, after: seq<Insn>, i: nat, memory: nat -> bool)
    requires i + 1 < |before|
    requires
      var (node, taken) := FuseStep(before[i..], memory);
      after == before[..i] + [node] + before[i + taken..]
    ensures before[..i] + FuseList(before[i..], memory) == after[..i + 1] + FuseList(after[i + 1..], memory)
  {
    hide FuseStep;
    var (node, taken) := FuseStep(before[i..], memory);
    assert after[..i + 1] == before[..i] + [node];
    assert after[i + 1..] == before[i + taken..] == before[i..][taken..];
  }

  lemma LastStays(b: seq<Insn>, memory: nat -> bool)
    requires |b| <= 1
    ensures FuseList(b, memory) == b
  {
  }

  // The pass, rewriting the IR list in place.
  method MatchPattern(block: Block, memory: nat -> bool)
    requires block.Valid()
    modifies block
    ensures block.Valid() && block.ir == FuseList(old(block.ir), memory)
  {
    hide FuseStep, FuseList;
    var i := 0;
    assert block.ir[..0] == [] && block.ir[0..] == block.ir;
    while i + 1 < block.count
      invariant block.Valid() && i <= block.count
      invariant FuseList(old(block.ir), memory) == block.ir[..i] + FuseList(block.ir[i..], memory)
      decreases block.count - i
    {
      ghost var before := block.ir;
      FuseAt(block, i, memory(block.count - i), memory);
      FuseListStep(before, block.ir, i, memory);
      i := i + 1;
    }
    assert FuseList(block.ir[i..], memory) == block.ir[i..] by { LastStays(block.ir[i..], memory); }
  }
}
