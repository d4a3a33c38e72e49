# rv32emu: a verified model of its core

rv32emu interprets RISC-V programs block by block, rewrites the blocks it has decoded, and
compiles hot blocks to host code. This project models the parts of it whose correctness is an
argument over many steps, and proves that argument in Dafny:

* `LlrbTree`, `LlrbMap`, `LlrbIter`: the left-leaning red-black map (`src/map.c`) with its path
  array in place of parent pointers; insertion, removal with all its rotations, and iteration.
* `Word32`, `Isa`, `Blocks`: 32-bit arithmetic, the RV32IMC integer instructions as the
  interpreter executes them, and what it means to run a block of decoded or fused nodes. This is
  the yardstick for the modules below; `IsaLaws` says what it means in terms of bytes, bits,
  equations and the expansion of compressed instructions.
* `ConstOpt`, `Fusion`, `Translate`: constant propagation, macro-operation fusion, and the two
  together, each with the exact condition under which it keeps the outcome of a run of a block.
* `JitHost`, `JitAlloc`, `JitGen`: the host machine, the register allocator and the code
  generators of the first-tier compiler, compared with the interpreter for whole blocks.
* `Sv32Tlb`: Sv32 page walks and the two TLBs in front of them, proved invisible in every run
  that follows the fence rules.
* `SanitizePath`: the one-pass path canonicaliser, proved to return the shortest path with the
  same meaning.
* `BlockCache`, `BlockMap`: the cache of translated blocks with its history of evicted entries,
  and the open-addressed block map.
* `Mpool`, `DemandPaging`: the chunk pool and the demand-paged guest memory with its collector.
* `Clmul`: the carry-less multiplications of Zbc (RISC-V Bit-Manipulation extensions, 1.0.0).
* `Arith`, `Ring`, `Lists`, `Options`: shared arithmetic, positions on a ring, lists, optional
  results.

`dafny verify dfyconfig.toml` checks everything. Every precondition is one the code has or relies
on; where the code does not do what its comments promise, the model follows the code and the
exact condition is proved:

* Fusing a run of more than 256 equal instructions goes wrong, because the number of nodes to
  unlink is passed as a byte (`src/emulate.c:1229-1232`; `Fusion.LongRunIsFusedWrongly`).
* Loads into x0 write it (`src/rv32_template.c:703-710`), and two fused pairs, `li a7; ecall` and
  `addi; bne`, take x0 for zero (`Fusion.ZeroLoadIsFusedWrongly`). `Fusion.FusionPreservesIff` and
  `Translate.TranslationPreservesIff` give the exact condition, in both alignment modes, for every
  run that does not trap, and without long runs for every run; `Fusion.ClosesOnZeroSuffices` gives
  one that needs only the block.
* The hint `c.li x0` writes x0 too, and constant propagation then believes a value a nop has
  cleared (`ConstOpt.HintBreaksPropagation`). `ConstOpt.PropagationPreservesIff` shows for which
  blocks that can matter.
* Generated code checks no alignment, while the interpreter traps on misaligned accesses unless
  told otherwise (`src/main.c:56`), and it adds addresses in 64 bits, the interpreter in 32.
  `JitGen.TranslateBlock` shows that it is right for a run if and only if no address wraps and the
  interpreter does not trap; `JitGen.TranslateShortBlock` is a block that breaks both ways.
* `c.jr` and `c.jalr` do not clear the lowest bit of their target, which `jalr` does
  (`IsaLaws.CompressedJumps`).
* The load check of the block map leaves an empty slot if and only if there are at least six slots
  (`BlockMap.LoadCheck`); without an empty slot a search for an absent block does not end
  (`BlockMap.FullMapNeverStops`). The map is built with 1024 slots.
* A hit in the block cache never moves its entry, so eviction is by order of insertion and not by
  use (`BlockCache.HitDoesNotSave`), although the comment speaks of least recently used.

## Model

| member | source | states |
|---|---|---|
| `LlrbTree.SortedMeans` | src/map.c:640-664 | the recursive and the pairwise reading of "keys increase along the in-order sequence" agree, which is what lets every descent compare one key at a time |
| `LlrbTree.PlugItems` | src/map.c:119-132 | plugging a subtree back under a path puts its bindings between what lies left and what lies right of the path, whatever the subtree was rotated into |
| `LlrbTree.PlugLlrb` | src/map.c:139-454 | plugging a subtree of the height and colour its path expects gives a tree with no red right child, no two reds in a row and equal black height |
| `LlrbTree.HeightBound` | src/map.c:33-43 | a valid tree of n bindings has 2^((height+1)/2) <= n+1 |
| `LlrbTree.PathArraySuffices` | src/map.c:33-43 | for every n below 2^63 the path of any descent fits the 128-entry path array |
| `LlrbMap.InsertStepClimbs` | src/map.c:592-631 | one step of the insertion fix-up (split a 4-node, lean left, rotate) leaves a subtree that climbs further or is finished, with the same bindings |
| `LlrbMap.RepairLessWorks` | src/map.c:242-323 | each repair of a left subtree that lost one black either restores the black height or hands the same deficit one level up, keeps the bindings, and never meets the cases the code asserts away: a missing sibling, or a red node at the root of the path |
| `LlrbMap.RepairGreaterWorks` | src/map.c:324-450 | the same for a right subtree, whose red sibling always has an inner child |
| `LlrbMap.Link` | src/map.c:592-636 | a climb that stops early leaves a tree: under the ancestors it did not reach, the finished subtree makes a valid tree with a black root and with the bindings of both |
| `LlrbMap.NewNodeClimbs` | src/map.c:584-590 | the new red leaf fits where the search ended and adds exactly its binding |
| `LlrbMap.InsertFixup` | src/map.c:592-634 | the climb from the new leaf ends in a valid tree with a black root and unchanged bindings |
| `LlrbMap.RemoveFixup` | src/map.c:238-453 | the climb from the pruned leaf ends in a valid tree with a black root and unchanged bindings |
| `LlrbMap.Prune` | src/map.c:226-237 | cutting the last node off its path, red or black, drops its binding and leaves the invariants to be repaired above |
| `LlrbMap.RbMap.constructor` | src/map.c:511-535 | a new map is valid and empty |
| `LlrbMap.RbMap.InsertUnique` | src/map.c:538-566 | the descent finds the key, or records the path to the only open slot for it; "too deep" is impossible below 2^63 bindings |
| `LlrbMap.RbMap.Insert` | src/map.c:569-637 | inserting a fresh key adds exactly that binding and keeps all invariants; a present key, or a failed allocation, changes nothing; the answer says which |
| `LlrbMap.RbMap.LocateNode` | src/map.c:144-156 | the path array leads to the node of the key, which is marked as left to the right |
| `LlrbMap.RbMap.LocateSuccessor` | src/map.c:155-168 | the path goes on to the leftmost node of the right subtree |
| `LlrbMap.RbMap.SwapWithSuccessor` | src/map.c:170-197 | exchanging the node with its successor leaves a leaf whose removal drops exactly the key |
| `LlrbMap.RbMap.RbRemove` | src/map.c:139-454 | removing a node of any valid tree gives a valid tree with a black root whose bindings are the old ones without the key |
| `LlrbMap.RbMap.Erase` | src/map.c:680-697 | erasing through an iterator removes exactly that key and lowers the size by one; the end iterator changes nothing |
| `LlrbIter.Find` | src/map.c:640-664 | finds the node of a key, at its in-order position, and fails only for keys that are not bound |
| `LlrbIter.First` | src/map.c:726-743 | the first iterator is the node of the smallest key, or the end |
| `LlrbIter.Last` | src/map.c:745-763 | the last iterator is the node of the largest key, or the end |
| `LlrbIter.Next` | src/map.c:765-801 | moves from in-order position i to i+1, or to the end |
| `LlrbIter.Prev` | src/map.c:803-843 | moves from in-order position i to i-1, or off the front |
| `LlrbIter.Traverse` | src/map.c:726-843 | first and repeated next visit every binding once, in increasing key order |
| `LlrbIter.NextThenPrev` | src/map.c:765-843 | prev undoes next, wherever next does not reach the end |
| `Word32.SmearIsArithmetic` | src/rv32_template.c:2467-2484 | the c.srai loop that ors in sign bits computes the arithmetic right shift, for every operand and amount below 32 |
| `Word32.DivRemLaw` | src/rv32_template.c:1523-1612 | truncated quotient and remainder satisfy a = b*q + r, with r smaller than b in magnitude and of the sign of a |
| `Blocks.RunFusedLoop` | src/emulate.c:716-886 | the loop of a fused handler runs its elements in order and stops at the first trap |
| `Blocks.FallsBehind` | src/rv32_template.c:123-1150 | every handler that does not leave the block moves the PC by the length of its instruction |
| `Blocks.ActKeepsZero` | src/rv32_template.c:123-1150 | apart from loads into x0, no handler of a decoded instruction changes x0 |
| `Blocks.StrictRun` | src/main.c:56 | a run that does not trap in the strict mode is the same with misaligned accesses allowed, fused nodes included |
| `IsaLaws.StoredBytes` | src/io.c:389-397 | a store changes exactly the one, two or four bytes it covers, to the low bytes of the value, the lowest first |
| `IsaLaws.LoadedBytes` | src/io.c:377-387 | a load puts its bytes together, and lb and lh read them in two's complement |
| `IsaLaws.StoreThenLoad` | src/rv32_template.c:666-830 | what sw, sh and sb store is loaded back by lw, lhu and lbu, and by lh and lb up to sign, at every address |
| `IsaLaws.LoadMeans` | src/rv32_template.c:666-757 | in the strict mode a load traps exactly when its address is no multiple of its width, otherwise it changes its destination and the PC only |
| `IsaLaws.StoreMeans` | src/rv32_template.c:765-830 | the same for stores, which change memory and the PC only |
| `IsaLaws.SumMeans` | src/rv32_template.c:1007-1085 | add and sub modulo 2^32, slt and sltu on the signed and the unsigned reading |
| `IsaLaws.BitsMean` | src/rv32_template.c:1086-1160 | and, or and xor, bit by bit |
| `IsaLaws.ShiftMeans` | src/rv32_template.c:1035-1130 | sll multiplies modulo 2^32, srl and sra divide rounding down, by two to the low five bits |
| `IsaLaws.ImmediateMeans` | src/rv32_template.c:837-1006 | every immediate instruction computes what its register form computes |
| `IsaLaws.MulMeans` | src/rv32_template.c:1439-1522 | mulh, mulhsu and mulhu each complete the word of mul to the full product of the operands as they read them |
| `IsaLaws.DivMeans` | src/rv32_template.c:1524-1597 | div and rem obey the division law with the sign of the dividend; division by zero and the one overflow give what the standard says |
| `IsaLaws.DivUnsignedMeans` | src/rv32_template.c:1551-1615 | the same for divu and remu |
| `IsaLaws.BranchMeans` | src/rv32_template.c:475-640 | the six conditions on the signed and the unsigned reading, in complementary pairs |
| `IsaLaws.CompressedExpands` | src/rv32_template.c:2279-2910 | every compressed instruction that stays in the block does, with x0 zero, what the instruction it stands for does, but for its length |
| `IsaLaws.CompressedBranches` | src/rv32_template.c:2598-2760 | c.beqz and c.bnez go where beq and bne with x0 go, and fall through two bytes on |
| `IsaLaws.CompressedJumps` | src/rv32_template.c:2791-2860 | c.j, c.jal, c.jr and c.jalr do what jal and jalr do, except that they link two bytes on, and that the indirect ones reach the same PC if and only if the target is even |
| `ConstOpt.FoldMulhuAgrees` | src/rv32_constopt.c:463-482 | folding mulhu through a signed 64-bit product gives the high word of the unsigned product |
| `ConstOpt.FoldRegAgrees` | src/rv32_constopt.c:233-568 | what the pass folds every register-register operation to is what the interpreter computes, division corner cases included |
| `ConstOpt.FoldImmAgrees` | src/rv32_constopt.c:112-231 | the same for register-immediate operations |
| `ConstOpt.FoldedAgrees` | src/rv32_constopt.c:11-1021 | the same for every foldable computation, compressed ones included, from any registers the knowledge is true of |
| `ConstOpt.ComputationSound` | src/rv32_constopt.c:11-1021 | a rewritten computation has the same length, destination and value, and the new knowledge is true afterwards |
| `ConstOpt.ControlSound` | src/rv32_constopt.c:33-81 | a folded branch is a direct jump of the same length that goes where the branch would |
| `ConstOpt.KnownComputationFolds` | src/rv32_constopt.c:11-1021 | every computation whose operands are known becomes a load of its value, which is known from then on |
| `ConstOpt.OperandsSuffice` | src/rv32_constopt.c:11-1021 | the value of a computation depends on no register but the operands the pass asks for |
| `ConstOpt.KnownBranchFolds` | src/rv32_constopt.c:33-81 | every conditional branch on known registers becomes a direct jump to where it goes, over itself when untaken |
| `ConstOpt.KnowledgeStays` | src/rv32_constopt.c:1-1024 | what is known of a register stays known until an instruction of the block writes it |
| `ConstOpt.TransferSound` | src/rv32_constopt.c:1-1024 | rewriting a node that stays in the block changes neither its effect nor its trap, and what is known afterwards is true if and only if no nop has cleared a non-zero x0 the pass still believes in |
| `ConstOpt.OptimizedSound` | src/emulate.c:1774-1783 | from every state the knowledge describes, a block without such a nop has the outcome of the original after rewriting |
| `ConstOpt.OptimizedKeepsShape` | src/emulate.c:1774-1783 | every node keeps its address and its length |
| `ConstOpt.ConstantPropagationPreserves` | src/emulate.c:1774-1783 | for every decoded block without a stale hint and every state with x0 = 0: same registers, memory, next PC, cycle count and trap, and every node keeps its address and length |
| `ConstOpt.StaleBreaks` | src/rv32_constopt.c:1-4 | conversely, from every state and in either mode: where a nop first clears a believed non-zero x0, a read of x0 behind it is changed by the pass, unless a misaligned access traps before |
| `ConstOpt.PropagationPreservesIff` | src/emulate.c:1774-1783 | a block has no stale hint if and only if the pass preserves it up to each of its nops followed by a read of x0, in every state with x0 = 0 |
| `ConstOpt.OptimizeConstant` | src/emulate.c:1774-1783 | the in-place pass over the list computes exactly that rewritten block |
| `ConstOpt.HintBreaksPropagation` | src/rv32_constopt.c:811-818 | c.li x0, 5; nop; addi x1, x0, 0: in either mode the pass makes x1 five instead of zero |
| `Fusion.MemberStep` | src/emulate.c:716-886 | one element of a fused run does the work of its instruction, or traps on the same access |
| `Fusion.LoopSteps` | src/emulate.c:716-886 | the loop of a fused run does the work of its instructions one after the other |
| `Fusion.RunSound` | src/emulate.c:716-886 | a fused run of lui, sw, lw, shifts or addi of any length behaves like its instructions, cycles and PC included |
| `Fusion.RunCount` | src/emulate.c:1295-1309 | the count the handlers run on is the number of instructions copied into the fused node |
| `Fusion.RunsFuse` | src/emulate.c:1394-1669 | two neighbours of one kind always start a fused run of all that follow, when memory allows |
| `Fusion.PairsFuse` | src/emulate.c:1394-1669 | for which registers each of the neighbouring pairs is fused |
| `Fusion.LuiPairSound` | src/emulate.c:732-960 | lui fused with add, addi, lw or sw behaves like the pair, for every choice of registers the matcher accepts |
| `Fusion.PostIncrementSound` | src/emulate.c:969-990 | lw fused with the increment of its base behaves like the pair |
| `Fusion.EcallPairSound` | src/emulate.c:830-848 | li a7 fused with ecall reaches the environment in the same state if and only if x0 is zero |
| `Fusion.CountdownPairSound` | src/emulate.c:998-1045 | addi fused with bne leaves for the same PC if and only if x0 is zero, or the counter is neither zero nor x0, or both ways lead to the same place |
| `Fusion.StepSound` | src/emulate.c:1394-1669 | whatever the matcher puts at the front of a block behaves like the instructions it covers, exactly unless it is one of these two pairs and misled by x0 |
| `Fusion.FuseExact` | src/emulate.c:1394-1669 | for every block whose fused runs are short, every state and both alignment modes: the fused list has the same outcome if and only if its last node, when reached, is not misled by x0; a misaligned access traps with the same cause, address, registers and memory |
| `Fusion.FuseWeight` | src/emulate.c:1229-1244 | the fused list executes at least the instructions of the block, and no more exactly when all fused runs are short |
| `Fusion.FusionPreservesIff` | src/emulate.c:1229-1312 | for every state and in either mode: fusion is right for a run that does not trap if and only if no fused run has more than 256 instructions and the closing pair is not misled, in blocks the 32-bit counters can count; without long runs the second half is the exact condition for every run of every block; with misaligned accesses allowed no run traps |
| `Fusion.ClosesOnZeroSuffices` | src/emulate.c:1394-1669 | a check on the block alone that rules the misled pair out: no load into x0, and no c.li x0 of another value than zero, reaches the last two instructions without a nop between |
| `Fusion.SmallBlocksAreShort` | src/emulate.c:1229-1312 | blocks of up to 256 instructions always meet that condition, whatever allocations fail |
| `Fusion.LongRunIsFusedWrongly` | src/emulate.c:1229-1244 | n equal instructions end differently after fusion in every state and in either mode, for every n above 256 that fits the counter |
| `Fusion.ZeroLoadIsFusedWrongly` | src/emulate.c:830-848 | after a load of any non-zero word into x0, aligned in the strict mode, the fused li a7 sets a7 to a value the pair does not |
| `Fusion.RemoveNextNth` | src/emulate.c:1229-1244 | unlinks the next n mod 256 nodes; count and tail stay those of the list |
| `Fusion.CountConsecutive` | src/emulate.c:1245-1275 | counts the whole run and nothing else |
| `Fusion.TryFuseSequence` | src/emulate.c:1280-1312 | copies the run and its length into one node and unlinks the rest, or changes nothing when there is no run or no memory |
| `Fusion.FuseAt` | src/emulate.c:1394-1669 | one turn of the matcher rewrites the front of the remaining list as the specification says |
| `Fusion.MatchPattern` | src/emulate.c:1394-1669 | the in-place pass computes the fused list; n_insn stays its length and ir_tail its last node |
| `Translate.TransferKeepsDecoded` | src/emulate.c:1836-1839 | constant propagation hands the fusion pass nodes the decoder could have produced, which treat x0 as before |
| `Translate.TranslationPreservesIff` | src/emulate.c:1836-1839 | both passes together keep the outcome of a run that does not trap, of a block without stale hints and in either mode, if and only if the second pass meets no run of more than 256 instructions and its closing pair is not misled by x0; without long runs this decides runs that trap as well |
| `Translate.TranslationPreserves` | src/emulate.c:1836-1839 | without conditions on the run: blocks of up to 256 instructions with no stale hint that close on a zero x0 keep their outcome from every state with x0 = 0, in both alignment modes |
| `Translate.EcallFusesOnlyAfterZeroLoad` | src/emulate.c:1836-1839 | in this order of the passes li a7; ecall is fused only in blocks that load into x0, because the first pass folds every sum with a known x0 |
| `Translate.OptimizeBlock` | src/emulate.c:1836-1839 | running both passes in place leaves the fused list of the rewritten block, with that effect |
| `JitHost.SimSave` | src/jit.c:1781-1791 | writing a dirty entry back keeps the correspondence between host and guest registers |
| `JitHost.SimAssign` | src/jit.c:2113-2128 | giving a clean entry to another guest register keeps it, with that entry to be filled |
| `JitHost.SimFill` | src/jit.c:923-978 | loading an entry from the guest register file fills it with the current value |
| `JitHost.SimWrite` | src/jit.c:640-700 | writing a host register changes exactly one guest register |
| `JitHost.SimClean` | src/jit.c:1793-1800 | once nothing is dirty the guest register file in memory is right |
| `JitAlloc.Jit.constructor` | src/jit.c:1771-1778 | at block entry nothing is mapped and the guest registers are those in memory |
| `JitAlloc.Jit.SaveReg` | src/jit.c:1781-1791 | saves one entry, x0 as a constant, and touches nothing else |
| `JitAlloc.Jit.StoreBack` | src/jit.c:1793-1800 | afterwards the guest register file in memory equals the guest registers, every entry is clean and holds what it held |
| `JitAlloc.Jit.LoadReg` | src/jit.c:923-978 | an assigned entry holds its guest register afterwards |
| `JitAlloc.Jit.Write` | src/jit.c:640-700 | every instruction that writes a mapped host register updates that guest register and marks it dirty |
| `JitAlloc.Jit.Compare` | src/jit.c:855-876 | comparing a register changes no guest value, whether or not the host marks it dirty |
| `JitAlloc.Jit.WriteMemory` | src/jit.c:1152-1190 | a store of a mapped register stores its guest value, x0 as a constant; from exactly the starts whose address has left the guest window the access goes astray |
| `JitAlloc.Jit.ReadMemory` | src/jit.c:923-1029 | a load puts the loaded value into the guest register; from exactly the starts whose address has left the guest window the access goes astray |
| `JitAlloc.Jit.RegsRefresh` | src/jit.c:2038-2047 | exactly the entries past the last use of their register stop being alive, and no value changes |
| `JitAlloc.Jit.RegPick` | src/jit.c:2049-2110 | always finds an entry, never a reserved one, for any liveness table and any queue of all registers: the first that is not alive, or else the one whose register comes first in the queue |
| `JitAlloc.Jit.MapVmReg` | src/jit.c:2130-2212 | finds the entry of a guest register or evicts another one for it: no register is held twice, reserved entries stay, nothing but the evicted entry changes |
| `JitAlloc.Jit.RaLoad` | src/jit.c:2146-2161 | the guest register is in the returned host register, and nothing else changed |
| `JitAlloc.Jit.RaLoad2` | src/jit.c:2214-2242 | both guest registers are in the returned host registers, also when loading one evicts the other |
| `JitGen.GenConst` | src/rv32_jit.c:2-9 | lui, auipc, c.li and c.lui: the destination gets the constant |
| `JitGen.GenImm` | src/rv32_jit.c:557-632 | register-immediate operations, for any aliasing of source and destination |
| `JitGen.GenInPlace` | src/rv32_jit.c:881-910 | compressed operations on one register |
| `JitGen.GenReg` | src/rv32_jit.c:633-711 | register-register operations, for any aliasing of the three registers, masked shifts included |
| `JitGen.GenSet` | src/rv32_jit.c:655-676 | slt and sltu through compare, load one, jump over load zero |
| `JitGen.GenSetImm` | src/rv32_jit.c:565-584 | slti and sltiu: the flags survive the stores that mapping the destination may emit |
| `JitGen.GenMove` | src/rv32_jit.c:1006-1014 | c.mv, also onto itself |
| `JitGen.GenLoad` | src/rv32_jit.c:197-414 | loads: the address survives the mapping of the destination, and the load is right from exactly the starts whose address does not wrap |
| `JitGen.GenLoadZero` | src/jit.c:930-939 | a load into x0 reads no memory and leaves all guest registers alone |
| `JitGen.GenStore` | src/rv32_jit.c:416-556 | stores: the address survives the loading of the value, and the store is right from exactly the starts whose address does not wrap |
| `JitGen.Generate` | src/rv32_jit.c:1-1030 | every generator of an instruction that stays in the block has the effect of the interpreter on registers and memory, in either alignment mode, unless the interpreter traps; its access goes astray from exactly the starts whose address wraps |
| `JitGen.GenJump` | src/rv32_jit.c:10-20 | direct jumps link, write everything back, and leave for the target |
| `JitGen.GenJumpReg` | src/rv32_jit.c:21-34 | indirect jumps take their target before the link register is written |
| `JitGen.GenBranch` | src/rv32_jit.c:35-196 | conditional branches compare, write everything back without disturbing the flags, and leave for the right PC |
| `JitGen.GenCall` | src/rv32_jit.c:713-726 | environment calls see the guest registers, memory and PC |
| `JitGen.GenerateLast` | src/rv32_jit.c:10-196 | the instruction that ends a block leaves it as in the interpreter |
| `JitGen.TranslateBlock` | src/jit.c:2613-2627 | for every block of base and compressed integer instructions, every liveness table, every eviction order and both hosts: one and the same generated code, run from every host state that holds a guest state at the block, leaves with the registers, memory, PC and environment request of the interpreter if and only if no address of the run wraps and the interpreter, strict or not, does not trap; loads into x0 count as nops, and a block without them is compared as it is |
| `JitGen.TranslateShortBlock` | src/rv32_jit.c:257-300 | lw x5, 4(x1); jalr: with x1 = 0xfffffffe the generated code is wrong in both modes, with x1 = 2 it is right exactly in the mode that allows misaligned accesses |
| `Sv32Tlb.MmuWalk` | src/system.c:200-242 | the loop over the two levels finds what the walk defines, and faults on invalid tables, reserved codes, misaligned superpages and a third level |
| `Sv32Tlb.WalkMeans` | src/system.c:200-242 | which leaf is found, as an if-and-only-if over the two words at table * 1024 + va[31:22] and next * 1024 + va[21:12] and their bits; everything else is a fault |
| `Sv32Tlb.TranslateMeans` | src/system.c:527-577 | an access is granted exactly when the page is found and its permission bit is set, the address is page base plus offset, and exactly the accessed and dirty bits of the leaf are set |
| `Sv32Tlb.TouchKeeps` | src/system.c:566-570 | marking an entry accessed or dirty changes neither its kind, its target nor its permissions, and marking twice changes nothing |
| `Sv32Tlb.WalkSame` | src/system.c:200-242 | no walk notices that an entry was marked |
| `Sv32Tlb.TouchTlb` | src/system.c:78-183 | marking any entry in memory breaks no TLB entry |
| `Sv32Tlb.WalkFrame` | src/system.c:200-242 | a store off the path of a page does not change its walk |
| `Sv32Tlb.StoreTlb` | src/system.c:78-183 | a store makes stale at most the pages translated through the word since they were last fenced; everything else the TLBs hold stays right, and without an address space nothing goes stale |
| `Sv32Tlb.WriteMarks` | src/system.c:566-570 | a successful translation leaves the leaf accessed, after a write dirty, and all other memory alone |
| `Sv32Tlb.PhysIsBasePlusOffset` | src/system.h:215-222 | or-ing page base and offset adds them, for 4 KiB pages and superpages |
| `Sv32Tlb.Mmu.FlushAll` | src/system.c:56-60 | makes any TLB state coherent |
| `Sv32Tlb.Mmu.Flush` | src/system.c:62-71 | forgets exactly the entries of one page, which is then no longer stale, whatever other pages are |
| `Sv32Tlb.Mmu.WriteSatp` | src/emulate.c:361-366 | changing the address space leaves coherent TLBs with no stale page |
| `Sv32Tlb.Mmu.DtlbLookup` | src/system.c:78-114 | hits exactly when the slot of the page holds it with the permission; a hit gives the address, verdict and memory of a fresh walk, lazy dirty bit included; a miss changes nothing |
| `Sv32Tlb.Mmu.ItlbLookup` | src/system.c:119-142 | hits exactly when the slot of the page holds it with the permission, and then gives the address and verdict of a fresh walk |
| `Sv32Tlb.Mmu.TranslateData` | src/system.c:527-577 | a data translation has the result and the effect on memory of walking every time, and leaves the page in its slot and the other slots alone |
| `Sv32Tlb.Mmu.TranslateFetch` | src/system.c:337-387 | so has an instruction fetch |
| `Sv32Tlb.Handle` | src/system.c:56-577 | each event on the MMU has the result it has without a TLB, and pages become held and stale as the fence rules say |
| `Sv32Tlb.Replay` | src/system.c:56-577 | in every run of accesses, SATP writes, fences and stores, page tables included, in which no page that has been translated is accessed between an edit of its tables and a fence for it, all answers and the final memory are those of an MMU without TLBs |
| `Sv32Tlb.BareIsDisciplined` | src/system.c:527-577 | without an address space every run of stores, fences and accesses obeys the fence rules |
| `Sv32Tlb.MappingIsDisciplined` | src/system.c:527-577 | a page that has not been translated since its last fence may be mapped and accessed without a fence |
| `SanitizePath.MeaningCanonical` | src/utils.h:43-64 | every path means a place without empty or "." names and with ".." only in front of a relative one |
| `SanitizePath.SanitizedMeansSame` | src/utils.h:43-64 | sanitizing keeps where a path leads |
| `SanitizePath.SanitizedIdempotent` | src/utils.h:43-64 | sanitizing twice is sanitizing once |
| `SanitizePath.SanitizedDecides` | src/utils.h:43-64 | two paths sanitize to the same text if and only if they lead to the same place |
| `SanitizePath.SanitizedElements` | src/utils.h:43-64 | apart from "/" and ".", the elements are leading ".." of a relative path and proper names |
| `SanitizePath.SanitizedNoLonger` | src/utils.c:93-95 | the result is never longer than a non-empty input, which is what lets the buffer be reused |
| `SanitizePath.SanitizedIsShortest` | src/utils.h:43-45 | no non-empty path that leads to the same place is shorter |
| `SanitizePath.Backtrack` | src/utils.c:131-137 | stepping back removes exactly the last element with its separator |
| `SanitizePath.StepUp` | src/utils.c:126-148 | a ".." element removes a name, is kept in front of a relative path, or vanishes at the root |
| `SanitizePath.StepName` | src/utils.c:149-161 | a name is appended with a separator exactly when one is needed |
| `SanitizePath.Step` | src/utils.c:119-162 | every turn of the loop keeps the buffer equal to the text of the place reached, and inside the space of the input read |
| `SanitizePath.Sanitize` | src/utils.c:85-176 | the buffer holds the sanitized path and zeros; writes stay inside it; the empty path gives "." |
| `BlockCache.PutLaw` | src/cache.c:253-341 | the bounded map: after a put the key has the new value, other keys keep theirs except the first inserted one of a full map, and what is given back is what was lost |
| `BlockCache.ViewDistinct` | src/cache.c:253-341 | no key is live twice |
| `BlockCache.ContentsDistinct` | src/cache.c:253-341 | so the law of puts applies to every reachable cache |
| `BlockCache.Cache.constructor` | src/cache.c:150-186 | a new cache is empty |
| `BlockCache.Cache.Find` | src/cache.c:253-283 | the first entry of a key in its bucket is its newest one |
| `BlockCache.Cache.Get` | src/cache.c:188-227 | a lookup finds exactly what the bounded map holds, and counts updating hits |
| `BlockCache.Cache.Freq` | src/cache.c:349-370 | the frequency of a live key is its puts and updating hits since it was first inserted or last replaced in place |
| `BlockCache.Cache.Evict` | src/cache.c:292-301 | moves one entry from the live list to the history and keeps every other link |
| `BlockCache.Cache.GhostListUpdate` | src/cache.c:233-245 | drops the oldest history entry exactly when there are too many; forgets its key only when that has no newer entry |
| `BlockCache.Cache.MakeRoom` | src/cache.c:257-301 | evicts exactly the binding a put displaces, and finds the history entry it revives |
| `BlockCache.Cache.Put` | src/cache.c:253-341 | a put is a put on the bounded map and returns the displaced value; sizes stay within capacity; counting goes on through eviction and revival, and only a full history forgets a key, the one it has known longest |
| `BlockCache.HitDoesNotSave` | src/cache.c:188-301 | in every full cache the key inserted first goes at the next put of a new key, even when it has just been hit |
| `BlockMap.AbsentAtGap` | src/emulate.c:544-560 | a probe that meets a gap has passed every slot the block could be in |
| `BlockMap.InsertOk` | src/emulate.c:527-541 | filling the first gap keeps every block reachable and unique |
| `BlockMap.LoadCheck` | src/emulate.c:1812-1817 | an insertion that passed the load check leaves an empty slot if and only if there are at least six slots |
| `BlockMap.FullMapNeverStops` | src/emulate.c:544-560 | in a full map a probe for an absent address meets neither a gap nor the address |
| `BlockMap.Map.constructor` | src/riscv.c:53-60 | a new map is empty |
| `BlockMap.Map.Find` | src/emulate.c:544-560 | ends, and returns the block of an address exactly when it was inserted since the last clear, for any hash function |
| `BlockMap.Map.Insert` | src/emulate.c:527-541 | adds exactly the block |
| `BlockMap.Map.Clear` | src/riscv.c:63-83 | forgets every block |
| `BlockMap.Map.FindOrInsert` | src/emulate.c:1786-1844 | finds the block or enters the translated one, clearing first when more than four fifths are used; an empty slot always remains |
| `Mpool.Carve` | src/mpool.c:89-95 | the chunks of an arena are threaded in order and lie side by side from its start |
| `Mpool.Pool.constructor` | src/mpool.c:59-106 | a new pool has its chunks free, in order, in one arena; one whose size leaves no room for a header gets exactly one chunk |
| `Mpool.Pool.Extend` | src/mpool.c:108-145 | a fresh zeroed arena is carved into as many chunks as fit, side by side, and becomes the free list; chunks never overlap older ones |
| `Mpool.Pool.Alloc` | src/mpool.c:148-161 | hands out the first free chunk, or the first of a new arena when the list is empty, and leaves the payloads of all others alone; fails only when extending fails |
| `Mpool.Pool.Free` | src/mpool.c:172-178 | puts the chunk at the head of the free list and touches no payload |
| `Mpool.Pool.Write` | src/mpool.c:59-178 | what the owner of a chunk writes into it reaches neither the free list nor any other chunk |
| `Mpool.Pool.Calloc` | src/mpool.c:163-170 | the same as allocation, with the payload of the chunk cleared |
| `Mpool.HandedOutApart` | src/mpool.c:59-178 | chunks handed out never overlap and lie inside an arena |
| `Mpool.ChunksConserved` | src/mpool.c:59-178 | free chunks and chunks handed out add up to all chunks ever carved |
| `DemandPaging.IsRegionZero` | src/io.c:80-88 | is true exactly for regions of zeros |
| `DemandPaging.DropUnseen` | src/io.c:329-337 | giving back pages of zeros cannot be seen |
| `DemandPaging.ChunkMeans` | src/io.c:99-110 | an address belongs to the 64 KiB piece it rounds down to, cut off at the end of memory |
| `DemandPaging.Memory.Fault` | src/io.c:97-141 | opens exactly the chunk of the faulting address and keeps bitmap and active count right, with the peak the largest count so far |
| `DemandPaging.Memory.Load` | src/io.c:97-141 | returns the byte of flat memory, and opens exactly the chunk of the address |
| `DemandPaging.Memory.Store` | src/io.c:97-141 | changes one byte of flat memory, and opens exactly the chunk of the address |
| `DemandPaging.Memory.Collect` | src/io.c:294-352 | a collector step changes no byte; it closes the scanned chunk exactly when it is open, all zero and the system agrees |
| `DemandPaging.Memory.CollectRound` | src/io.c:294-352 | one round closes exactly the open chunks that are all zero and comes back to its start |
| `Clmul.ClmulLow` | src/rv32_template.c:3249-3262 | clmul is bits 0 to 31 of the carry-less product |
| `Clmul.ClmulHigh` | src/rv32_template.c:3264-3277 | clmulh is bits 32 to 63 |
| `Clmul.ClmulReversed` | src/rv32_template.c:3279-3291 | clmulr is bits 31 to 62 |
| `Clmul.ReversedFromHalves` | src/rv32_template.c:3249-3291 | clmulr is clmulh shifted up by one, with the top bit of clmul below it |
| `Clmul.ProductCommutes` | src/rv32_template.c:3249-3291 | the operands may be exchanged |
| `Clmul.ProductBound` | src/rv32_template.c:3249-3291 | the product has 63 bits |
| `Clmul.UnitShifts` | src/rv32_template.c:3249-3291 | multiplying by a single bit shifts |
| `Clmul.ProductAdds` | src/rv32_template.c:3249-3291 | the product distributes over exclusive or, so single bits determine it |

## Left out

- LlrbMap.RbMap.Erase: nodes are values, so the moving of a node in memory, iterators other than the erased one, and key and value copies are not modelled; keys are integers compared by `<`, which is what both comparators in use do.
- LlrbMap.RbMap.SwapWithSuccessor: nodes are values, so the moment in which the exchanged node is linked to itself is not represented.
- LlrbMap.RbMap.Insert: the allocation of a node is a yes-or-no argument; overflow checks on key and value sizes are not modelled.
- ConstOpt.ConstantPropagationPreserves: c.slli by 32 or more passes the decoder, and its shift is undefined in C; the interpreter and the pass are both taken to give zero. Does not cover SC.W, whose transfer function is empty although the instruction writes a register; floating point, atomics and CSR instructions are not modelled.
- ConstOpt.FoldMulhuAgrees: the signed 64-bit product may overflow, which C leaves undefined; it is taken to wrap.
- IsaLaws.StoredBytes: an access over the end of the 32-bit address space wraps in the model, while the source runs past its buffer.
- Fusion.FusionPreservesIff: the run length is an `int` in the source, so a block of 2^31 instructions or more with a long run is not decided. Of a block with a run of more than 256 instructions, runs that trap are not decided: what is unlinked too little may execute the same instructions again to the same effect before the trap.
- Fusion.FuseExact: a trap inside a fused group reports the address and the cycles of the group, and block chaining, the lazy fusion of MMIO builds and the branch history are not modelled.
- Blocks.RunFusedLoop: the cycle counter is an unbounded number; interrupts between handlers and the trace and profiling counters are not modelled.
- JitGen.TranslateBlock: host registers are named by their place in the register map and hold 32 bits; instruction encodings, jump patching, chaining between translated blocks, the jump cache of indirect jumps, the multiplication, division and fused generators, and the MMIO path are not modelled. c.slli by 32 or more, undefined in C, is excluded, and so is the hint c.li x0, whose effect depends on which registers are evicted.
- JitAlloc.Jit.RegPick: the liveness analysis and the sort of the eviction queue are arbitrary; that the choice is a good one is not claimed.
- Sv32Tlb.Mmu.TranslateData: the user, SUM and MXR checks, which the TLB does not repeat, are not modelled; a page fault is an outcome, and the guest handler is not run.
- Sv32Tlb.Mmu.Flush: does not claim to clear other 4 KiB slots of the same superpage.
- SanitizePath.Sanitize: an allocation failure is not modelled; paths are sequences of characters without a terminator.
- BlockCache.Cache.Put: the failed allocation of an entry is not modelled, and putting the value a key already has is excluded, as the source asserts.
- BlockMap.Map.FindOrInsert: translation itself is an argument, and the freeing of blocks on a clear is not modelled; stated for at least six slots.
- Mpool.Pool.constructor: a pool smaller than the payload of one chunk, for which the count of chunks is zero and the source counts down past it, is excluded, and arenas are taken to be zeroed as anonymous mappings are.
- DemandPaging.Memory.Fault: the bitmap is a sequence of flags, signals arrive between steps, and the compare-and-swap of the peak counter is one step; file-backed memory is not modelled.
- The second-tier LLVM compiler, system calls, ELF loading, the GDB stub, devices, floating point and the command line are foreign code or input and output.
