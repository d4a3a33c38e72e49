// The optimizations a freshly translated block goes through, end to end.
module Translate {
  import opened Word32
  import opened Isa
  import opened Blocks
  import opened ConstOpt
  import opened Fusion

  // Constant propagation hands the fusion pass a block the decoder could have produced, whose
  // nodes treat x0 as before.
  lemma TransferKeepsDecoded(i: Insn, info: Info)
    requires Decoded(i)
    ensures
      var j := Transfer(i, info).0;
      Decoded(j) && IsBranch(j.op) == IsBranch(i.op) && forall zero :: ZeroAfter(j, zero) == ZeroAfter(i, zero)
  {
    hide Transfer, Target, ClassOf, ZeroAfter, Decoded, IsBranch, IsComputation, IsConstantLoad;
    var j := Transfer(i, info).0;
    TransferForms(i, info);
    if j != i {
      if IsBranch(i.op) {
        BranchIsControl(i.op);
        JumpDecoded(i, j);
      } else {
        LoadDecoded(i, j);
      }
    }
  }

  lemma LoadDecoded(i: Insn, j: Insn)
    requires Decoded(i) && IsComputation(i.op) && !IsConstantLoad(i.op) && (j.op == Lui || j.op == Clui) && j.rd == Target(i)
    ensures Decoded(j) && !IsBranch(j.op) && !IsBranch(i.op) && forall zero :: ZeroAfter(j, zero) == ZeroAfter(i, zero)
  {
    hide ClassOf;
    ConstantClass();
    NopClass();
  }

  lemma JumpDecoded(i: Insn, j: Insn)
    requires Decoded(i) && IsBranch(i.op) && (j == i.(op := Cj, imm := j.imm) || j == i.(op := Jal, imm := j.imm))
    ensures Decoded(j) && IsBranch(j.op) && forall zero :: ZeroAfter(j, zero) == ZeroAfter(i, zero)
  {
    hide ClassOf, Target;
    ConstantClass();
    NopClass();
    JumpClass();
  }

  lemma {:induction false} OptimizedWellFormed(b: seq<Insn>, info: Info, pc: Word)
    requires WellFormed(b, pc)
    ensures WellFormed(Optimized(b, info), pc)
    decreases |b|
  {
    hide Transfer, Decoded, IsBranch, Len, Plus, ZeroAfter;
    if b != [] {
      var (j, after) := Transfer(b[0], info);
      TransferKeepsDecoded(b[0], info);
      TransferKeepsShape(b[0], info);
      OptimizedWellFormed(b[1..], after, Plus(pc, Len(b[0].op)));
      assert Optimized(b, info)[1..] == Optimized(b[1..], after);
    }
  }

  lemma {:induction false} OptimizedZeroBehind(b: seq<Insn>, k: nat, info: Info, pc: Word, zero: bool)
    requires WellFormed(b, pc) && k <= |b|
    ensures ZeroBehind(Optimized(b, info)[..k], zero) == ZeroBehind(b[..k], zero)
    decreases k
  {
    hide Transfer, Decoded, IsBranch, Len, Plus, ZeroAfter;
    if k > 0 {
      var (j, after) := Transfer(b[0], info);
      var opt := Optimized(b, info);
      TransferKeepsDecoded(b[0], info);
      OptimizedZeroBehind(b[1..], k - 1, after, Plus(pc, Len(b[0].op)), ZeroAfter(b[0], zero));
      assert opt[1..] == Optimized(b[1..], after);
      assert opt[..k][1..] == opt[1..][..k - 1] && b[..k][1..] == b[1..][..k - 1];
    }
  }

  // Both passes together keep the outcome of a run that does not trap exactly when the second pass
  // meets no run of more than 256 instructions, which blocks of up to 256 never have, and makes no
  // closing pair that is misled by x0, which blocks that close on a zero x0 never have.
  lemma TranslationPreservesIff(b: seq<Insn>, memory: nat -> bool, pc: Word)
    requires WellFormed(b, pc) && NoStaleHint(b)
    ensures
      var opt := Optimized(b, Entry());
      var f := FuseList(opt, memory);
      && (Countable(b) ==> forall s: Cpu, lenient: bool :: s.pc == pc && s.x[0] == 0 && !Run(b, s, lenient).Trap? ==>
           (Alike(Run(f, s, lenient), Run(b, s, lenient)) <==> ShortRuns(opt, memory) && EndsRight(f, s, lenient)))
      && (ShortRuns(opt, memory) ==> forall s: Cpu, lenient: bool :: s.pc == pc && s.x[0] == 0 ==>
           (Alike(Run(f, s, lenient), Run(b, s, lenient)) <==> EndsRight(f, s, lenient)))
    ensures |b| <= 256 ==> ShortRuns(Optimized(b, Entry()), memory)
    ensures forall s: Cpu :: s.pc == pc && s.x[0] == 0 ==> !Run(b, s, true).Trap?
  {
    hide WellFormed, Run, Optimized, FuseList, ShortRuns, Alike, NoStaleHint, EndsRight;
    var opt := Optimized(b, Entry());
    OptimizedWellFormed(b, Entry(), pc);
    FusionPreservesIff(opt, memory, pc);
    forall s: Cpu, lenient: bool | s.pc == pc && s.x[0] == 0
      ensures Run(opt, s, lenient) == Run(b, s, lenient)
    {
      ConstantPropagationPreserves(b, s, lenient);
    }
    if |b| <= 256 { SmallBlocksAreShort(opt, memory); }
  }

  // Without conditions on the run: blocks of up to 256 instructions with no stale hint that close
  // on a zero x0.
  lemma TranslationPreserves(b: seq<Insn>, memory: nat -> bool, s: Cpu, lenient: bool)
    requires WellFormed(b, s.pc) && NoStaleHint(b) && |b| <= 256 && ClosesOnZero(b) && s.x[0] == 0
    ensures Alike(Run(FuseList(Optimized(b, Entry()), memory), s, lenient), Run(b, s, lenient))
  {
    hide WellFormed, Run, Optimized, FuseList, ShortRuns, Alike, NoStaleHint, EndsRight, ZeroBehind;
    var opt := Optimized(b, Entry());
    OptimizedWellFormed(b, Entry(), s.pc);
    SmallBlocksAreShort(opt, memory);
    if 2 <= |b| { OptimizedZeroBehind(b, |b| - 2, Entry(), s.pc, true); }
    ClosesOnZeroSuffices(opt, memory, s, lenient);
    ConstantPropagationPreserves(b, s, lenient);
  }

  // ----- what the first pass leaves for the second -----

  predicate LoadsZero(i: Insn) {
    IsLoad(i.op) && i.rd == ZERO
  }

  // As long as nothing is loaded into x0 the first pass knows it and folds every sum with it.
  lemma {:induction false} SumsOfZeroFold(b: seq<Insn>, info: Info)
    requires info.known[0] && forall i :: i in b ==> !LoadsZero(i) && Decoded(i)
    ensures forall i :: i in Optimized(b, info) ==> !(i.op == Addi && i.rs1 == ZERO)
    decreases |b|
  {
    hide Transfer, Decoded, LoadsZero;
    if b != [] {
      ZeroStaysKnown(b[0], info);
      SumsOfZeroFold(b[1..], Transfer(b[0], info).1);
    }
  }

  lemma ZeroStaysKnown(i: Insn, info: Info)
    requires info.known[0] && Decoded(i) && !LoadsZero(i)
    ensures Transfer(i, info).1.known[0]
    ensures
      var j := Transfer(i, info).0;
      !(j.op == Addi && j.rs1 == ZERO)
  {
    hide Transfer, Decoded, LoadsZero;
    KnownAfter(i, info);
    SumIsGone(i, info);
  }

  lemma KnownAfter(i: Insn, info: Info)
    requires info.known[0] && Decoded(i) && !LoadsZero(i)
    ensures Transfer(i, info).1.known[0]
  {
    hide Folded, Foldable, TransferControl, Plus, Len, ClassOf, Target;
    ControlKnows(i, info);
    if IsComputation(i.op) && !Foldable(i, info.known) && !IsConstantLoad(i.op) {
      Unfoldable(i, info.known);
      ConstantClass();
    }
  }

  lemma ControlKnows(i: Insn, info: Info)
    requires info.known[0]
    ensures TransferControl(i, info).1.known[0]
  {
    hide FoldUntaken, Plus;
  }

  lemma SumIsGone(i: Insn, info: Info)
    requires info.known[0] && Decoded(i)
    ensures
      var j := Transfer(i, info).0;
      !(j.op == Addi && j.rs1 == ZERO)
  {
    hide Transfer, Plus, ClassOf, Target;
    TransferForms(i, info);
    if i.op == Addi && i.rs1 == ZERO { SumIsFolded(i, info); }
  }

  lemma {:induction false} NoEcallPair(b: seq<Insn>, memory: nat -> bool)
    requires forall i :: i in b ==> i.op != Fuse6 && !(i.op == Addi && i.rs1 == ZERO)
    ensures forall i :: i in FuseList(b, memory) ==> i.op != Fuse6
    decreases |b|
  {
    hide FuseStep;
    if 2 <= |b| {
      NoEcallStep(b, memory);
      NoEcallPair(b[FuseStep(b, memory).1..], memory);
    }
  }

  lemma NoEcallStep(b: seq<Insn>, memory: nat -> bool)
    requires 2 <= |b| && b[0].op != Fuse6 && !(b[0].op == Addi && b[0].rs1 == ZERO)
    ensures FuseStep(b, memory).0.op != Fuse6
  {
    hide Match, Paired, Member, Payload, MatchLui;
    if Match(b[0], b[1]).Pair? { PairedOp(Match(b[0], b[1]).op, b[0], b[1]); }
    if Match(b[0], b[1]).RunOf? { RunKinds(b[0], b[1]); }
    if Match(b[0], b[1]) == Pair(Fuse6) { EcallPairsSum(b[0], b[1]); }
  }

  lemma EcallPairsSum(a: Insn, n: Insn)
    requires Match(a, n) == Pair(Fuse6)
    ensures a.op == Addi && a.rs1 == ZERO
  {
  }

  // In the order the passes run in, the pair `li a7; ecall` is fused only in blocks that load into
  // x0; in all others the first pass has folded its sum.
  lemma EcallFusesOnlyAfterZeroLoad(b: seq<Insn>, memory: nat -> bool)
    requires forall i :: i in b ==> Decoded(i) && !LoadsZero(i)
    ensures forall i :: i in FuseList(Optimized(b, Entry()), memory) ==> i.op != Fuse6
  {
    hide FuseList, LoadsZero, Decoded;
    SumsOfZeroFold(b, Entry());
    OptimizedPlain(b, Entry());
    NoEcallPair(Optimized(b, Entry()), memory);
  }

  lemma {:induction false} OptimizedPlain(b: seq<Insn>, info: Info)
    requires forall i :: i in b ==> Decoded(i)
    ensures forall i :: i in Optimized(b, info) ==> !IsFused(i.op)
    decreases |b|
  {
    hide Transfer, Decoded, IsFused;
    if b != [] {
      PlainAfterTransfer(b[0], info);
      OptimizedPlain(b[1..], Transfer(b[0], info).1);
    }
  }

  // What happens to a block between decoding and its first run.
  method OptimizeBlock(block: Block, memory: nat -> bool, ghost pc: Word)
    requires block.Valid() && WellFormed(block.ir, pc) && NoStaleHint(block.ir)
    modifies block
    ensures block.Valid() && block.ir == FuseList(Optimized(old(block.ir), Entry()), memory)
    ensures old(block.count) <= 256 ==> ShortRuns(Optimized(old(block.ir), Entry()), memory)
    ensures forall s: Cpu :: s.pc == pc && s.x[0] == 0 ==> !Run(old(block.ir), s, true).Trap?
    ensures Countable(old(block.ir)) ==>
      forall s: Cpu, lenient: bool :: s.pc == pc && s.x[0] == 0 && !Run(old(block.ir), s, lenient).Trap? ==>
        (Alike(Run(block.ir, s, lenient), Run(old(block.ir), s, lenient)) <==>
         ShortRuns(Optimized(old(block.ir), Entry()), memory) && EndsRight(block.ir, s, lenient))
    ensures ShortRuns(Optimized(old(block.ir), Entry()), memory) ==>
      forall s: Cpu, lenient: bool :: s.pc == pc && s.x[0] == 0 ==>
        (Alike(Run(block.ir, s, lenient), Run(old(block.ir), s, lenient)) <==> EndsRight(block.ir, s, lenient))
  {
    hide WellFormed, Run, Optimized, FuseList, ShortRuns, Alike, NoStaleHint, EndsRight;
    TranslationPreservesIff(block.ir, memory, pc);
    OptimizeConstant(block);
    MatchPattern(block, memory);
  }
}
