// The host machine the code generator targets, and when its state stands for a guest state.
module JitHost {
  import opened Word32
  import opened Isa

  // ----- host code -----

  // A host register: one the allocator hands out, by its position in the register map, or the
  // scratch register, which is never handed out.
  datatype HReg = Temp | Slot(i: nat)

  datatype HOp = HAdd | HSub | HXor | HOr | HAnd | HShl | HShr | HSar

  datatype Cond = CEq | CNe | CLt | CGe | CLtu | CGeu

  datatype Service = NoCall | OnEcall | OnEbreak

  // Host instructions work on the low 32 bits of a register, except for guest addresses.
  datatype HostInsn =
    | LoadX(dst: HReg, vm: Reg)                 // read the guest register file
    | StoreX(src: HReg, vm: Reg)                // write it
    | StoreZeroX(vm: Reg)
    | LoadImm(dst: HReg, imm: Word)
    | Mov(src: HReg, dst: HReg)
    | Alu(op: HOp, src: HReg, dst: HReg)
    | AluConst(op: HOp, dst: HReg, imm: Word)
    | Cmp(left: HReg, right: HReg)
    | CmpConst(left: HReg, imm: Word)
    | ClearUnless(cond: Cond, dst: HReg)        // a conditional jump over a load of zero
    | Address(src: HReg, imm: Word)             // guest RAM base + displacement + register
    | ReadMem(access: Op, dst: HReg)
    | WriteMem(access: Op, src: HReg)
    | WriteZeroMem(access: Op)
    | StorePc(src: HReg)
    | CallOut(service: Service)
    | Exit
    | JumpIf(cond: Cond, arm: seq<HostInsn>)    // a conditional jump to code that leaves the block

  // `addr` is the 64-bit address in the scratch register, relative to the guest RAM base; an
  // access outside the 4 GiB window is not defined.
  datatype Host = Host(regs: seq<Word>, temp: Word, x: Regs, mem: Memory, left: Word, right: Word,
                       addr: int, pc: Word, call: Service, exited: bool, wild: bool)

  function Get(h: Host, r: HReg): Word {
    match r
    case Temp => h.temp
    case Slot(i) => if i < |h.regs| then h.regs[i] else 0
  }

  function Put(h: Host, r: HReg, v: Word): Host {
    match r
    case Temp => h.(temp := v)
    case Slot(i) => if i < |h.regs| then h.(regs := h.regs[i := v]) else h
  }

  function HostAlu(op: HOp, d: Word, s: Word): Word {
    match op
    case HAdd => Plus(d, s)
    case HSub => Minus(d, s)
    case HXor => Xor(d, s)
    case HOr => Or(d, s)
    case HAnd => And(d, s)
    case HShl => Shl(d, Shamt(s))
    case HShr => Shr(d, Shamt(s))
    case HSar => Sar(d, Shamt(s))
  }

  predicate Holds(c: Cond, a: Word, b: Word) {
    match c
    case CEq => a == b
    case CNe => a != b
    case CLt => SLess(a, b)
    case CGe => !SLess(a, b)
    case CLtu => a < b
    case CGeu => a >= b
  }

  predicate InWindow(a: int) {
    0 <= a < MOD
  }

  // The value a register-writing instruction produces.
  function Produced(i: HostInsn, h: Host): Word {
    match i
    case LoadX(_, vm) => h.x[vm]
    case LoadImm(_, imm) => imm
    case Mov(src, _) => Get(h, src)
    case Alu(op, src, dst) => HostAlu(op, Get(h, dst), Get(h, src))
    case AluConst(op, dst, imm) => HostAlu(op, Get(h, dst), imm)
    case ClearUnless(c, dst) => if Holds(c, h.left, h.right) then Get(h, dst) else 0
    case ReadMem(op, _) => if InWindow(h.addr) then Loaded(op, h.mem, h.addr) else 0
    case _ => 0
  }

  predicate WritesReg(i: HostInsn) {
    i.LoadX? || i.LoadImm? || i.Mov? || i.Alu? || i.AluConst? || i.ClearUnless? || i.ReadMem?
  }

  function Exec(i: HostInsn, h: Host): Host
    decreases i
  {
    if h.exited || h.wild then h
    else
      match i
      case LoadX(dst, vm) => Put(h, dst, h.x[vm])
      case LoadImm(dst, imm) => Put(h, dst, imm)
      case Mov(src, dst) => Put(h, dst, Get(h, src))
      case Alu(op, src, dst) => Put(h, dst, HostAlu(op, Get(h, dst), Get(h, src)))
      case AluConst(op, dst, imm) => Put(h, dst, HostAlu(op, Get(h, dst), imm))
      case ClearUnless(c, dst) => if Holds(c, h.left, h.right) then h else Put(h, dst, 0)
      case StoreX(src, vm) => h.(x := h.x[vm := Get(h, src)])
      case StoreZeroX(vm) => h.(x := h.x[vm := 0])
      case Cmp(a, b) => h.(left := Get(h, a), right := Get(h, b))
      case CmpConst(a, imm) => h.(left := Get(h, a), right := imm)
      case Address(src, imm) => h.(addr := Get(h, src) + Signed(imm))
      case ReadMem(op, dst) => if InWindow(h.addr) then Put(h, dst, Loaded(op, h.mem, h.addr)) else h.(wild := true)
      case WriteMem(op, src) =>
        if InWindow(h.addr) then h.(mem := Stored(op, h.mem, h.addr, Get(h, src))) else h.(wild := true)
      case WriteZeroMem(op) => if InWindow(h.addr) then h.(mem := Stored(op, h.mem, h.addr, 0)) else h.(wild := true)
      case StorePc(src) => h.(pc := Get(h, src))
      case CallOut(s) => h.(call := s)
      case Exit => h.(exited := true)
      case JumpIf(c, arm) => if Holds(c, h.left, h.right) then RunHost(arm, h) else h
  }

  function RunHost(code: seq<HostInsn>, h: Host): Host
    decreases code
  {
    if code == [] then h else RunHost(code[1..], Exec(code[0], h))
  }

  // A register-writing instruction puts what it produces into its register and does nothing else.
  lemma ExecProduces(i: HostInsn, k: nat, h: Host)
    requires !h.exited && !h.wild && WritesReg(i) && i.dst == Slot(k) && k < |h.regs|
    requires i.ReadMem? ==> InWindow(h.addr)
    ensures Exec(i, h) == h.(regs := h.regs[k := Produced(i, h)])
  {
    hide HostAlu, Holds, Loaded, RunHost;
    if i.ClearUnless? { assert h.regs[k := h.regs[k]] == h.regs; }
  }

  lemma {:induction false} RunHostAppend(code: seq<HostInsn>, i: HostInsn, h: Host)
    ensures RunHost(code + [i], h) == Exec(i, RunHost(code, h))
    decreases |code|
  {
    hide Exec;
    if code == [] {
      assert [i][1..] == [];
      assert RunHost([i], h) == RunHost([], Exec(i, h));
    } else {
      assert (code + [i])[1..] == code[1..] + [i];
      RunHostAppend(code[1..], i, Exec(code[0], h));
    }
  }

  // ----- the register map -----

  // One entry of the register map: the guest register it holds, or -1.
  datatype Entry = Entry(vm: int, dirty: bool, alive: bool)

  type Table = seq<Entry>

  // No guest register is held twice; only entries that hold one are alive or dirty.
  ghost predicate Shape(t: Table) {
    && (forall i :: 0 <= i < |t| ==> -1 <= t[i].vm < 32)
    && (forall i :: 0 <= i < |t| && t[i].vm == -1 ==> !t[i].dirty && !t[i].alive)
    && (forall i, j :: 0 <= i < j < |t| && t[i].vm != -1 ==> t[i].vm != t[j].vm)
  }

  ghost predicate Mapped(t: Table, r: int) {
    exists i :: 0 <= i < |t| && t[i].vm == r
  }

  // What the host state and the register map say the guest registers are: a mapped register is in
  // its host register, except in the entries still to be filled, and the guest register file is
  // right for everything that is not dirty.
  ghost predicate Sim(t: Table, h: Host, x: Regs, holes: set<nat>) {
    && Shape(t) && |h.regs| == |t| && x[0] == 0 && h.x[0] == 0
    && (forall i :: 0 <= i < |t| && i in holes ==> !t[i].dirty)
    && (forall i :: 0 <= i < |t| && t[i].vm != -1 && i !in holes ==> h.regs[i] == x[t[i].vm])
    && (forall i :: 0 <= i < |t| && t[i].vm != -1 && !t[i].dirty ==> h.x[t[i].vm] == x[t[i].vm])
    && (forall r: Reg :: !Mapped(t, r) ==> h.x[r] == x[r])
  }

  lemma SameHolders(t: Table, u: Table)
    requires |u| == |t| && forall i :: 0 <= i < |t| ==> u[i].vm == t[i].vm
    ensures forall r :: Mapped(u, r) <==> Mapped(t, r)
  {
    forall r ensures Mapped(u, r) <==> Mapped(t, r) {
      if Mapped(t, r) {
        var i :| 0 <= i < |t| && t[i].vm == r;
        assert u[i].vm == r;
      }
      if Mapped(u, r) {
        var i :| 0 <= i < |u| && u[i].vm == r;
        assert t[i].vm == r;
      }
    }
  }

  // Saving a dirty entry.
  lemma SimSave(t: Table, h: Host, x: Regs, holes: set<nat>, k: nat)
    requires Sim(t, h, x, holes) && k < |t| && t[k].dirty
    ensures Sim(t[k := t[k].(dirty := false)], h.(x := h.x[t[k].vm := h.regs[k]]), x, holes)
    ensures t[k].vm == 0 ==> h.regs[k] == 0
  {
    var u := t[k := t[k].(dirty := false)];
    SameHolders(t, u);
  }

  // Giving a clean entry to another guest register: it is to be filled.
  lemma SimAssign(t: Table, h: Host, x: Regs, holes: set<nat>, k: nat, r: Reg)
    requires Sim(t, h, x, holes) && k < |t| && !t[k].dirty && !Mapped(t, r)
    ensures Sim(t[k := Entry(r, false, true)], h, x, holes + {k})
  {
    var u := t[k := Entry(r, false, true)];
    forall q: Reg | Mapped(t, q) && q != t[k].vm ensures Mapped(u, q) {
      var i :| 0 <= i < |t| && t[i].vm == q;
      assert u[i].vm == q;
    }
    assert u[k].vm == r;
  }

  // Filling an entry from the guest register file.
  lemma SimFill(t: Table, h: Host, x: Regs, holes: set<nat>, k: nat, dirty: bool)
    requires Sim(t, h, x, holes) && k < |t| && t[k].vm != -1 && (t[k].dirty ==> t[k].vm == 0)
    ensures Sim(t[k := t[k].(dirty := dirty)], h.(regs := h.regs[k := x[t[k].vm]]), x, holes - {k})
    ensures h.x[t[k].vm] == x[t[k].vm]
  {
    var u := t[k := t[k].(dirty := dirty)];
    SameHolders(t, u);
  }

  // Writing a new value of a guest register into its host register.
  lemma SimWrite(t: Table, h: Host, x: Regs, holes: set<nat>, k: nat, v: Word)
    requires Sim(t, h, x, holes) && k < |t| && 0 < t[k].vm
    ensures Sim(t[k := t[k].(dirty := true)], h.(regs := h.regs[k := v]), x[t[k].vm := v], holes - {k})
  {
    var u := t[k := t[k].(dirty := true)];
    SameHolders(t, u);
    assert Mapped(t, t[k].vm);
  }

  // Calling a filled entry dirty although its value has not changed.
  lemma SimMark(t: Table, h: Host, x: Regs, holes: set<nat>, k: nat)
    requires Sim(t, h, x, holes) && k < |t| && t[k].vm != -1 && k !in holes
    ensures Sim(t[k := t[k].(dirty := true)], h, x, holes)
  {
    SameHolders(t, t[k := t[k].(dirty := true)]);
  }

  // Once nothing is dirty, the guest register file is right.
  lemma SimClean(t: Table, h: Host, x: Regs, holes: set<nat>)
    requires Sim(t, h, x, holes) && forall i :: 0 <= i < |t| ==> !t[i].dirty
    ensures h.x == x
  {
    forall r: Reg ensures h.x[r] == x[r] {
      if Mapped(t, r) {
        var i :| 0 <= i < |t| && t[i].vm == r;
      }
    }
  }

  // Liveness only steers the choice of a victim.
  lemma SimAlive(t: Table, u: Table, h: Host, x: Regs, holes: set<nat>)
    requires Sim(t, h, x, holes) && |u| == |t|
    requires forall i :: 0 <= i < |t| ==> u[i].vm == t[i].vm && u[i].dirty == t[i].dirty && (u[i].alive ==> t[i].alive)
    ensures Sim(u, h, x, holes)
  {
    SameHolders(t, u);
  }

  // Nothing is held at the start of a block.
  lemma SimReset(t: Table, h: Host)
    requires |h.regs| == |t| && h.x[0] == 0 && forall i :: 0 <= i < |t| ==> t[i] == Entry(-1, false, false)
    ensures Sim(t, h, h.x, {})
  {
  }

  // An entry that holds x0 may be called clean at any time.
  lemma SimZeroClean(t: Table, h: Host, x: Regs, holes: set<nat>, k: nat)
    requires Sim(t, h, x, holes) && k < |t| && t[k].vm == 0
    ensures Sim(t[k := t[k].(dirty := false)], h, x, holes)
  {
    var u := t[k := t[k].(dirty := false)];
    SameHolders(t, u);
  }

  // The same host state up to the allocated registers and the guest register file.
  ghost predicate SameRest(h: Host, g: Host) {
    h == g.(regs := h.regs, x := h.x)
  }

  // Instructions that touch neither an allocated register nor the guest's state.
  predicate Aside(i: HostInsn) {
    i.Cmp? || i.CmpConst? || i.Address? || ((i.LoadImm? || i.Mov? || i.AluConst?) && i.dst == Temp)
  }

  lemma SimAside(t: Table, h: Host, x: Regs, holes: set<nat>, i: HostInsn)
    requires Sim(t, h, x, holes) && Aside(i)
    ensures Sim(t, Exec(i, h), x, holes)
    ensures Exec(i, h) == Exec(i, h).(regs := h.regs, x := h.x, mem := h.mem, pc := h.pc, call := h.call, exited := h.exited, wild := h.wild)
  {
    hide HostAlu;
    assert Exec(i, h).regs == h.regs && Exec(i, h).x == h.x;
  }
}
