// The register allocator of the code generator and the emission of host code that goes through
// it, with the guest state the code emitted so far stands for, from every start at once.
module JitAlloc {
  import opened Isa
  import opened JitHost

  // A host state at block entry and the guest state it holds.
  datatype Start = Start(host: Host, cpu: Cpu)

  class Jit {
    var regmap: Table
    var code: seq<HostInsn>
    const liveness: seq<int>           // the last use of each guest register in the block
    const queue: seq<int>              // guest registers, the first to be evicted first
    const marks: bool                  // whether comparing a register calls it dirty, as on x86-64
    ghost const starts: Start -> bool  // all the starts the code may be entered from
    ghost var good: Start -> bool      // those from which no access has left the guest window yet
    ghost var x: Start -> Regs         // the guest registers at this point, by start
    ghost var holes: set<nat>          // entries assigned but not yet filled

    // The host state the code so far leads to.
    ghost function Now(st: Start): Host
      reads this`code
    {
      RunHost(code, st.host)
    }

    // From this start, the host state stands for the guest registers.
    ghost predicate At(st: Start)
      reads this
    {
      !Now(st).exited && !Now(st).wild && Sim(regmap, Now(st), x(st), holes)
    }

    // From every other start, an access has gone outside the guest window.
    ghost predicate Lost()
      reads this
    {
      forall st :: starts(st) && !good(st) ==> Now(st).wild
    }

    ghost predicate Valid()
      reads this
    {
      && 3 <= |regmap| && |liveness| == 32 && (forall r: Reg :: r in queue)
      && Shape(regmap) && Lost() && forall st :: good(st) ==> At(st)
    }

    // Between instructions.
    ghost predicate Ready()
      reads this
    {
      Valid() && holes == {}
    }

    // Since an earlier point, from every start, only allocated registers and the guest register
    // file have changed.
    twostate predicate SameElse()
      reads this
    {
      forall st :: good(st) ==> SameRest(Now(st), old(Now(st)))
    }

    constructor (n: nat, liveness: seq<int>, queue: seq<int>, marks: bool, ghost starts: Start -> bool)
      requires 3 <= n && |liveness| == 32 && (forall r: Reg :: r in queue)
      requires forall st :: starts(st) ==> Entered(st, n)
      ensures Ready() && this.starts == starts == good && code == []
      ensures forall st :: good(st) ==> x(st) == st.cpu.x && Now(st) == st.host
    {
      regmap := seq(n, _ => Entry(-1, false, false));
      code := [];
      this.liveness, this.queue, this.marks := liveness, queue, marks;
      this.starts, good := starts, starts;
      x, holes := (st: Start) => st.cpu.x, {};
      new;
      forall st | good(st) ensures At(st) && Now(st) == st.host {
        SimReset(regmap, st.host);
      }
    }

    // Append one host instruction.
    method Emit(i: HostInsn)
      modifies this`code
      ensures code == old(code) + [i]
      ensures forall st :: Now(st) == Exec(i, old(Now(st)))
      ensures forall st :: old(Now(st)).wild ==> Now(st).wild
    {
      forall st: Start ensures RunHost(code + [i], st.host) == Exec(i, Now(st)) {
        RunHostAppend(code, i, st.host);
      }
      forall st: Start | Now(st).wild ensures Exec(i, Now(st)).wild {
        WildStays(i, Now(st));
      }
      code := code + [i];
    }

    method SetDirty(k: nat, dirty: bool)
      requires k < |regmap|
      modifies this`regmap
      ensures regmap == old(regmap)[k := old(regmap)[k].(dirty := dirty)]
    {
      regmap := regmap[k := regmap[k].(dirty := dirty)];
    }

    // ----- emission that keeps the guest state -----

    // Write a dirty entry back to the guest register file; x0 is written as a constant.
    method SaveReg(k: nat)
      requires Valid() && k < |regmap|
      modifies this`regmap, this`code
      ensures Valid() && regmap == old(regmap)[k := old(regmap)[k].(dirty := false)]
      ensures SameElse() && forall st :: good(st) ==> Now(st).regs == old(Now(st)).regs
    {
      hide Sim, RunHost;
      if !regmap[k].dirty {
        assert regmap == regmap[k := regmap[k].(dirty := false)];
        return;
      }
      ShapeMark(regmap, k, false);
      var vm: Reg := regmap[k].vm;
      var i := if vm == 0 then StoreZeroX(0) else StoreX(Slot(k), vm);
      forall st | good(st)
        ensures Sim(regmap[k := regmap[k].(dirty := false)], Exec(i, Now(st)), x(st), holes)
        ensures Exec(i, Now(st)) == Now(st).(x := Exec(i, Now(st)).x)
      {
        assert At(st);
        SimSave(regmap, Now(st), x(st), holes, k);
        EntryInRange(regmap, Now(st), x(st), holes, k);
      }
      Emit(i);
      SetDirty(k, false);
    }

    // Write every dirty entry back.
    method StoreBack()
      requires Ready()
      modifies this`regmap, this`code
      ensures Ready() && SameElse() && forall st :: good(st) ==> Now(st).x == x(st)
      ensures |regmap| == |old(regmap)| && forall k :: 0 <= k < |regmap| ==> regmap[k] == old(regmap)[k].(dirty := false)
    {
      hide Sim, RunHost;
      var i := 0;
      while i < |regmap|
        invariant i <= |regmap| == |old(regmap)| && Ready() && SameElse()
        invariant forall k :: 0 <= k < i ==> regmap[k] == old(regmap)[k].(dirty := false)
        invariant forall k :: i <= k < |regmap| ==> regmap[k] == old(regmap)[k]
      {
        SaveReg(i);
        i := i + 1;
      }
      forall st | good(st) ensures Now(st).x == x(st) {
        assert At(st);
        SimClean(regmap, Now(st), x(st), holes);
      }
    }

    // Load an assigned entry from the guest register file; x0 is loaded as a constant.
    method LoadReg(k: nat)
      requires Valid() && k < |regmap| && regmap[k].vm != -1 && (regmap[k].dirty ==> regmap[k].vm == 0)
      modifies this`regmap, this`code, this`holes
      ensures Valid() && holes == old(holes) - {k} && SameElse()
      ensures regmap == old(regmap)[k := old(regmap)[k].(dirty := old(regmap)[k].vm == 0)]
    {
      hide Sim, RunHost;
      ShapeMark(regmap, k, regmap[k].vm == 0);
      var vm: Reg := regmap[k].vm;
      var i := if vm == 0 then LoadImm(Slot(k), 0) else LoadX(Slot(k), vm);
      forall st | good(st)
        ensures Sim(regmap[k := regmap[k].(dirty := vm == 0)], Exec(i, Now(st)), x(st), holes - {k})
        ensures Exec(i, Now(st)) == Now(st).(regs := Exec(i, Now(st)).regs)
      {
        assert At(st);
        SimFill(regmap, Now(st), x(st), holes, k, vm == 0);
        EntryInRange(regmap, Now(st), x(st), holes, k);
      }
      Emit(i);
      SetDirty(k, vm == 0);
      holes := holes - {k};
    }

    // Write a new value of the guest register an entry holds.
    method Write(i: HostInsn, k: nat)
      requires Valid() && k < |regmap| && 0 < regmap[k].vm && WritesReg(i) && !i.LoadX? && !i.ReadMem? && i.dst == Slot(k)
      modifies this`regmap, this`code, this`holes, this`x
      ensures Valid() && holes == old(holes) - {k} && regmap == old(regmap)[k := old(regmap)[k].(dirty := true)]
      ensures old(regmap)[k].vm < 32 && SameElse()
      ensures forall st :: good(st) ==> x(st) == old(x)(st)[old(regmap)[k].vm := Produced(i, old(Now(st)))]
    {
      hide Sim, RunHost, Produced, Exec;
      ShapeMark(regmap, k, true);
      ghost var vm: Reg := regmap[k].vm;
      ghost var c, before := code, x;
      ghost var after := (st: Start) => before(st)[vm := Produced(i, RunHost(c, st.host))];
      forall st | good(st)
        ensures Sim(regmap[k := regmap[k].(dirty := true)], Exec(i, Now(st)), after(st), holes - {k})
        ensures Exec(i, Now(st)) == Now(st).(regs := Exec(i, Now(st)).regs)
      {
        assert At(st);
        SimWrite(regmap, Now(st), x(st), holes, k, Produced(i, Now(st)));
        EntryInRange(regmap, Now(st), x(st), holes, k);
        ExecProduces(i, k, Now(st));
      }
      Emit(i);
      SetDirty(k, true);
      holes := holes - {k};
      x := after;
    }

    // Compare the register an entry holds.
    method Compare(i: HostInsn, k: nat)
      requires Valid() && (i.Cmp? || i.CmpConst?) && k < |regmap| && regmap[k].vm != -1 && k !in holes
      modifies this`code, this`regmap
      ensures Valid() && regmap == old(regmap)[k := old(regmap)[k].(dirty := old(regmap)[k].dirty || marks)]
      ensures forall st :: good(st) ==> Now(st) == Exec(i, old(Now(st)))
    {
      hide Sim, RunHost, Exec;
      Prepare(i);
      assert regmap[k := regmap[k]] == regmap;
      if marks { MarkDirty(k); }
    }

    // Append a memory access: the starts whose address has left the window are lost.
    method EmitAccess(i: HostInsn)
      requires Valid() && (i.ReadMem? || i.WriteMem? || i.WriteZeroMem?)
      modifies this`code, this`good
      ensures Lost() && forall st :: good(st) <==> old(good)(st) && InWindow(old(Now(st)).addr)
      ensures forall st :: Now(st) == Exec(i, old(Now(st)))
    {
      hide Sim, RunHost, Exec;
      ghost var c, wide := code, good;
      ghost var fine := (st: Start) => wide(st) && InWindow(RunHost(c, st.host).addr);
      forall st | starts(st) && !fine(st) ensures Exec(i, Now(st)).wild {
        if good(st) {
          assert At(st);
          ExecGoesWild(i, Now(st));
        } else {
          WildStays(i, Now(st));
        }
      }
      Emit(i);
      good := fine;
    }

    // Read guest memory into the guest register an entry holds; starts whose address has left the
    // window are lost.
    method ReadMemory(access: Op, k: nat)
      requires Valid() && k < |regmap| && 0 < regmap[k].vm
      modifies this`regmap, this`code, this`holes, this`x, this`good
      ensures Valid() && holes == old(holes) - {k} && regmap == old(regmap)[k := old(regmap)[k].(dirty := true)]
      ensures old(regmap)[k].vm < 32 && SameElse()
      ensures forall st :: good(st) <==> old(good)(st) && InWindow(old(Now(st)).addr)
      ensures forall st :: good(st) ==>
        && InWindow(old(Now(st)).addr)
        && x(st) == old(x)(st)[old(regmap)[k].vm := Loaded(access, old(Now(st)).mem, old(Now(st)).addr)]
    {
      hide Sim, RunHost, Exec, Loaded;
      ShapeMark(regmap, k, true);
      ghost var vm: Reg := regmap[k].vm;
      var i := ReadMem(access, Slot(k));
      ghost var c, before := code, x;
      ghost var after := (st: Start) => before(st)[vm := Produced(i, RunHost(c, st.host))];
      forall st | good(st) && InWindow(Now(st).addr)
        ensures Sim(regmap[k := regmap[k].(dirty := true)], Exec(i, Now(st)), after(st), holes - {k})
        ensures Exec(i, Now(st)) == Now(st).(regs := Exec(i, Now(st)).regs)
      {
        assert At(st);
        SimWrite(regmap, Now(st), x(st), holes, k, Produced(i, Now(st)));
        EntryInRange(regmap, Now(st), x(st), holes, k);
        ExecProduces(i, k, Now(st));
      }
      EmitAccess(i);
      SetDirty(k, true);
      holes := holes - {k};
      x := after;
    }

    // Call a filled entry dirty although its value has not changed.
    method MarkDirty(k: nat)
      requires Valid() && k < |regmap| && regmap[k].vm != -1 && k !in holes
      modifies this`regmap
      ensures Valid() && regmap == old(regmap)[k := old(regmap)[k].(dirty := true)]
    {
      hide Sim, RunHost;
      ShapeMark(regmap, k, true);
      forall st | good(st) ensures Sim(regmap[k := regmap[k].(dirty := true)], Now(st), x(st), holes) {
        assert At(st);
        SimMark(regmap, Now(st), x(st), holes, k);
      }
      SetDirty(k, true);
    }

    // Use the scratch register, the flags or the address.
    method Prepare(i: HostInsn)
      requires Valid() && Aside(i)
      modifies this`code
      ensures Valid() && forall st :: good(st) ==> Now(st) == Exec(i, old(Now(st)))
      ensures forall st :: good(st) ==>
        && Now(st).regs == old(Now(st)).regs && Now(st).x == old(Now(st)).x
        && Now(st).mem == old(Now(st)).mem && Now(st).call == old(Now(st)).call
    {
      hide Sim, RunHost;
      forall st | good(st)
        ensures Sim(regmap, Exec(i, Now(st)), x(st), holes) && !Exec(i, Now(st)).exited && !Exec(i, Now(st)).wild
        ensures Exec(i, Now(st)).regs == Now(st).regs && Exec(i, Now(st)).x == Now(st).x
        ensures Exec(i, Now(st)).mem == Now(st).mem && Exec(i, Now(st)).call == Now(st).call
      {
        assert At(st);
        SimAside(regmap, Now(st), x(st), holes, i);
      }
      Emit(i);
    }

    // Store the register an entry holds into guest memory; x0 is stored as a constant. Starts whose
    // address has left the window are lost.
    method WriteMemory(access: Op, k: nat, ghost r: Reg)
      requires Valid() && k < |regmap| && regmap[k].vm == r && k !in holes
      modifies this`regmap, this`code, this`good
      ensures Valid() && regmap == old(regmap)[k := old(regmap)[k].(dirty := old(regmap)[k].dirty && r != 0)]
      ensures forall st :: good(st) <==> old(good)(st) && InWindow(old(Now(st)).addr)
      ensures forall st :: good(st) ==>
        && InWindow(old(Now(st)).addr)
        && Now(st).mem == Stored(access, old(Now(st)).mem, old(Now(st)).addr, x(st)[r])
        && Now(st).call == old(Now(st)).call
    {
      hide Sim, RunHost, Stored, Exec, StoreOf;
      var zero := regmap[k].vm == 0;
      ShapeMark(regmap, k, regmap[k].dirty && !zero);
      StoreForms(access, k, zero);
      EmitAccess(StoreOf(access, k, zero));
      SetDirty(k, regmap[k].dirty && !zero);
      forall st | good(st)
        ensures At(st) && Now(st).mem == Stored(access, old(Now(st)).mem, old(Now(st)).addr, x(st)[r])
        ensures Now(st).call == old(Now(st)).call
      {
        assert old(At(st));
        SimStore(old(regmap), old(Now(st)), x(st), holes, k, access);
      }
    }

    // ----- allocation -----

    // Registers past their last use may be taken first.
    method RegsRefresh(idx: int)
      requires Ready()
      modifies this`regmap
      ensures Ready() && |regmap| == |old(regmap)|
      ensures forall k :: 0 <= k < |regmap| ==> regmap[k] == Aged(old(regmap)[k], liveness, idx)
    {
      hide RunHost, Sim;
      var i := 0;
      while i < |regmap|
        invariant i <= |regmap| == |old(regmap)| && Ready()
        invariant forall k :: 0 <= k < i ==> regmap[k] == Aged(old(regmap)[k], liveness, idx)
        invariant forall k :: i <= k < |regmap| ==> regmap[k] == old(regmap)[k]
      {
        var e := regmap[i];
        if e.vm != -1 && liveness[e.vm] < idx {
          ghost var after := regmap[i := e.(alive := false)];
          forall st | good(st) ensures Sim(after, Now(st), x(st), holes) {
            assert At(st);
            SimAlive(regmap, after, Now(st), x(st), holes);
          }
          regmap := regmap[i := e.(alive := false)];
        }
        i := i + 1;
      }
    }

    // The entry that holds a guest register, or -1.
    method Lookup(r: int) returns (k: int)
      requires 0 <= r
      ensures -1 <= k < |regmap|
      ensures k >= 0 ==> regmap[k].vm == r
      ensures k < 0 ==> forall i :: 0 <= i < |regmap| ==> regmap[i].vm != r
    {
      var i := 0;
      while i < |regmap|
        invariant i <= |regmap| && forall j :: 0 <= j < i ==> regmap[j].vm != r
      {
        if regmap[i].vm == r { return i; }
        i := i + 1;
      }
      k := -1;
    }

    // The same, passing over reserved entries.
    method LookupUnreserved(r: int, r1: int, r2: int) returns (k: int)
      ensures -1 <= k < |regmap|
      ensures k >= 0 ==> regmap[k].vm == r && k != r1 && k != r2
      ensures k < 0 ==> forall i :: 0 <= i < |regmap| && i != r1 && i != r2 ==> regmap[i].vm != r
    {
      var i := 0;
      while i < |regmap|
        invariant i <= |regmap| && forall j :: 0 <= j < i && j != r1 && j != r2 ==> regmap[j].vm != r
      {
        if i != r1 && i != r2 && regmap[i].vm == r { return i; }
        i := i + 1;
      }
      k := -1;
    }

    // No register before this place of the queue is held outside the reserved entries.
    ghost predicate Passed(c: int, r1: int, r2: int)
      requires c <= |queue|
      reads this
    {
      forall p, j :: 0 <= p < c && 0 <= j < |regmap| && j != r1 && j != r2 ==> regmap[j].vm != queue[p]
    }

    // Choose an entry that is not reserved: one that is not alive, or else the one whose guest
    // register comes first in the queue.
    method RegPick(r1: int, r2: int) returns (k: nat)
      requires Valid()
      ensures k < |regmap| && k != r1 && k != r2
      ensures !regmap[k].alive ==> forall j :: 0 <= j < k && j != r1 && j != r2 ==> regmap[j].alive
      ensures regmap[k].alive ==>
        && (forall j :: 0 <= j < |regmap| && j != r1 && j != r2 ==> regmap[j].alive)
        && exists c :: 0 <= c < |queue| && queue[c] == regmap[k].vm && Passed(c, r1, r2)
    {
      hide Sim, RunHost;
      var i := 0;
      while i < |regmap|
        invariant i <= |regmap| && forall j :: 0 <= j < i && j != r1 && j != r2 ==> regmap[j].alive
      {
        if i != r1 && i != r2 && !regmap[i].alive { return i; }
        i := i + 1;
      }
      ghost var j0 := if r1 != 0 && r2 != 0 then 0 else if r1 != 1 && r2 != 1 then 1 else 2;
      ghost var victim: Reg := regmap[j0].vm;
      assert victim in queue;
      ghost var w :| 0 <= w < |queue| && queue[w] == regmap[j0].vm;
      var c := 0;
      var found := -1;
      while found < 0
        invariant -1 <= found < |regmap| && (found < 0 ==> c <= w)
        invariant c < |queue| && Passed(c, r1, r2)
        invariant found >= 0 ==> found != r1 && found != r2 && queue[c] == regmap[found].vm
        decreases w - c, -found
      {
        found := LookupUnreserved(queue[c], r1, r2);
        if found < 0 { c := c + 1; }
      }
      k := found;
    }

    // Find the entry of a guest register, or evict another register for it.
    method MapVmReg(r: Reg, r1: int, r2: int) returns (k: nat)
      requires Valid()
      modifies this`regmap, this`code, this`holes
      ensures Valid() && k < |regmap| == |old(regmap)| && regmap[k].vm == r
      ensures SameElse() && forall st :: good(st) ==> Now(st).regs == old(Now(st)).regs
      ensures Mapped(old(regmap), r) ==> regmap == old(regmap) && holes == old(holes)
      ensures !Mapped(old(regmap), r) ==>
        k != r1 && k != r2 && regmap == old(regmap)[k := Entry(r, false, true)] && holes == old(holes) + {k}
    {
      hide Sim, RunHost;
      var at := Lookup(r);
      if at >= 0 {
        assert Mapped(regmap, r);
        return at;
      }
      k := RegPick(r1, r2);
      SaveReg(k);
      assert forall i :: 0 <= i < |regmap| ==> regmap[i].vm == old(regmap)[i].vm;
      ShapeAssign(regmap, k, r);
      ghost var after := regmap[k := Entry(r, false, true)];
      forall st | good(st) ensures Sim(after, Now(st), x(st), holes + {k}) {
        assert At(st);
        SimAssign(regmap, Now(st), x(st), holes, k, r);
      }
      regmap := regmap[k := Entry(r, false, true)];
      holes := holes + {k};
    }

    // Bring a guest register into a host register.
    method RaLoad(r: Reg) returns (k: nat)
      requires Ready()
      modifies this`regmap, this`code, this`holes
      ensures Ready() && k < |regmap| && regmap[k].vm == r && SameElse()
      ensures forall st :: good(st) ==> Get(Now(st), Slot(k)) == x(st)[r]
    {
      hide Sim, RunHost;
      var origin := Lookup(r);
      assert origin >= 0 <==> Mapped(regmap, r);
      ghost var before := regmap;
      k := MapVmReg(r, -1, -1);
      if origin >= 0 { HeldOnce(before, origin, k); }
      if origin != k { LoadReg(k); }
      assert holes == {};
      Filled(k);
    }

    // Bring two guest registers into host registers.
    method RaLoad2(r1: Reg, r2: Reg) returns (a: nat, b: nat)
      requires Ready()
      modifies this`regmap, this`code, this`holes
      ensures Ready() && a < |regmap| && b < |regmap| && regmap[a].vm == r1 && regmap[b].vm == r2 && SameElse()
      ensures forall st :: good(st) ==> Get(Now(st), Slot(a)) == x(st)[r1] && Get(Now(st), Slot(b)) == x(st)[r2]
    {
      hide Sim, RunHost;
      var origin1 := Lookup(r1);
      var origin2 := Lookup(r2);
      assert origin1 >= 0 <==> Mapped(regmap, r1);
      assert origin2 >= 0 <==> Mapped(regmap, r2);
      ghost var before := regmap;
      a := MapVmReg(r1, -1, -1);
      if origin1 >= 0 { HeldOnce(before, origin1, a); }
      if r1 == r2 {
        b := a;
        if origin1 >= 0 { HeldOnce(before, origin1, origin2); }
      } else {
        ghost var between := regmap;
        b := MapVmReg(r2, a, -1);
        if Mapped(between, r2) {
          StillHeld(before, between, a, r1, r2);
          HeldOnce(before, origin2, b);
        }
      }
      FillBoth(a, origin1 != a, r1, b, origin2 != b, r2);
    }

    // Load the two entries that were not held before.
    method FillBoth(a: nat, fill1: bool, ghost r1: Reg, b: nat, fill2: bool, ghost r2: Reg)
      requires Valid() && a < |regmap| && b < |regmap| && regmap[a].vm == r1 && regmap[b].vm == r2
      requires (fill1 && regmap[a].dirty ==> r1 == 0) && (fill2 && regmap[b].dirty ==> r2 == 0)
      requires forall k :: k in holes ==> (k == a && fill1) || (k == b && fill2)
      modifies this`regmap, this`code, this`holes
      ensures Ready() && a < |regmap| && b < |regmap| && regmap[a].vm == r1 && regmap[b].vm == r2 && SameElse()
      ensures forall st :: good(st) ==> Get(Now(st), Slot(a)) == x(st)[r1] && Get(Now(st), Slot(b)) == x(st)[r2]
    {
      hide Sim, RunHost;
      if fill1 { LoadReg(a); }
      if fill2 { LoadReg(b); }
      assert holes == {} && regmap[a].vm == r1 && regmap[b].vm == r2;
      Filled(a);
      Filled(b);
    }

    // A filled entry holds the guest value from every start.
    lemma Filled(k: nat)
      requires Valid() && k < |regmap| && regmap[k].vm != -1 && k !in holes
      ensures regmap[k].vm < 32 && forall st :: good(st) ==> Get(Now(st), Slot(k)) == x(st)[regmap[k].vm]
    {
      hide Sim, RunHost;
      forall st | good(st) ensures Get(Now(st), Slot(k)) == x(st)[regmap[k].vm] {
        assert At(st);
        HeldValue(regmap, Now(st), x(st), holes, k);
      }
    }
  }

  // An entry whose guest register is not used from instruction `idx` on is no longer alive.
  function Aged(e: Entry, liveness: seq<int>, idx: int): Entry {
    if 0 <= e.vm < |liveness| && liveness[e.vm] < idx then e.(alive := false) else e
  }

  // A start: host and guest agree, and the host is at the beginning of a block.
  ghost predicate Entered(st: Start, n: nat) {
    && |st.host.regs| == n && st.host.x == st.cpu.x && st.host.mem == st.cpu.mem && st.cpu.x[0] == 0
    && !st.host.exited && !st.host.wild && st.host.call == NoCall
  }

  lemma ShapeMark(t: Table, k: nat, dirty: bool)
    requires Shape(t) && k < |t| && (dirty ==> t[k].vm != -1)
    ensures Shape(t[k := t[k].(dirty := dirty)]) && -1 <= t[k].vm < 32 && (t[k].dirty ==> t[k].vm != -1)
  {
  }

  lemma ShapeAssign(t: Table, k: nat, r: Reg)
    requires Shape(t) && k < |t| && forall i :: 0 <= i < |t| ==> t[i].vm != r
    ensures Shape(t[k := Entry(r, false, true)]) && !Mapped(t, r)
  {
  }

  lemma WildStays(i: HostInsn, h: Host)
    requires h.wild
    ensures Exec(i, h).wild
  {
  }

  lemma ExecGoesWild(i: HostInsn, h: Host)
    requires !h.exited && !InWindow(h.addr) && (i.ReadMem? || i.WriteMem? || i.WriteZeroMem?)
    ensures Exec(i, h).wild
  {
  }

  lemma ExecWrites(access: Op, k: nat, h: Host)
    requires !h.exited && !h.wild && InWindow(h.addr) && k < |h.regs|
    ensures Exec(WriteMem(access, Slot(k)), h) == h.(mem := Stored(access, h.mem, h.addr, h.regs[k]))
  {
    hide Stored;
  }

  lemma ExecWritesZero(access: Op, h: Host)
    requires !h.exited && !h.wild && InWindow(h.addr)
    ensures Exec(WriteZeroMem(access), h) == h.(mem := Stored(access, h.mem, h.addr, 0))
  {
    hide Stored;
  }

  lemma EntryInRange(t: Table, h: Host, x: Regs, holes: set<nat>, k: nat)
    requires Sim(t, h, x, holes) && k < |t|
    ensures -1 <= t[k].vm < 32 && |h.regs| == |t| && x[0] == 0
  {
  }

  lemma HeldValue(t: Table, h: Host, x: Regs, holes: set<nat>, k: nat)
    requires Sim(t, h, x, holes) && k < |t| && t[k].vm != -1 && k !in holes
    ensures 0 <= t[k].vm < 32 && |h.regs| == |t| && h.regs[k] == x[t[k].vm] && x[0] == 0
  {
  }

  lemma SimMemory(t: Table, h: Host, x: Regs, holes: set<nat>, m: Memory)
    requires Sim(t, h, x, holes)
    ensures Sim(t, h.(mem := m), x, holes)
  {
  }

  function StoreOf(access: Op, k: nat, zero: bool): HostInsn {
    if zero then WriteZeroMem(access) else WriteMem(access, Slot(k))
  }

  lemma StoreForms(access: Op, k: nat, zero: bool)
    ensures StoreOf(access, k, zero).WriteMem? || StoreOf(access, k, zero).WriteZeroMem?
  {
  }

  // Storing a held register into guest memory.
  lemma SimStore(t: Table, h: Host, x: Regs, holes: set<nat>, k: nat, access: Op)
    requires Sim(t, h, x, holes) && !h.exited && !h.wild && InWindow(h.addr)
    requires k < |t| && t[k].vm != -1 && k !in holes
    ensures 0 <= t[k].vm < 32
    ensures
      var zero := t[k].vm == 0;
      var g := Exec(StoreOf(access, k, zero), h);
      && g == h.(mem := Stored(access, h.mem, h.addr, x[t[k].vm]))
      && Sim(t[k := t[k].(dirty := t[k].dirty && !zero)], g, x, holes)
  {
    hide Sim, Stored, Exec;
    HeldValue(t, h, x, holes, k);
    ExecWrites(access, k, h);
    ExecWritesZero(access, h);
    var after := t[k := t[k].(dirty := t[k].dirty && t[k].vm != 0)];
    if t[k].vm == 0 { SimZeroClean(t, h, x, holes, k); } else { assert after == t; }
    SimMemory(after, h, x, holes, Stored(access, h.mem, h.addr, x[t[k].vm]));
  }

  lemma HeldOnce(t: Table, i: nat, j: nat)
    requires Shape(t) && i < |t| && j < |t| && t[i].vm == t[j].vm != -1
    ensures i == j
  {
  }

  // What is held after an eviction was held, in the same place, before it.
  lemma StillHeld(t: Table, u: Table, k: nat, r1: Reg, r2: Reg)
    requires k < |t| && (u == t || u == t[k := Entry(r1, false, true)]) && r1 != r2 && Mapped(u, r2)
    ensures Mapped(t, r2) && forall i :: 0 <= i < |u| && u[i].vm == r2 ==> t[i].vm == r2
  {
    var i :| 0 <= i < |u| && u[i].vm == r2;
    assert t[i].vm == r2;
  }
}
