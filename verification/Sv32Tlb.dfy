// Sv32 address translation: the page walk, the two direct-mapped TLBs in front of it, and the
// claim that the TLBs cannot be observed.
module Sv32Tlb {
  import opened Options
  import opened Arith
  import opened Word32

  type Vpn = v: nat | v < 0x10_0000

  // Guest RAM as 32-bit words; a page holds 1024 of them.
  type Ram = seq<Word>

  datatype Access = Read | Write | Fetch

  // ----- page-table entries -----

  predicate IsR(p: Word) { p / 2 % 2 == 1 }
  predicate IsW(p: Word) { p / 4 % 2 == 1 }
  predicate IsX(p: Word) { p / 8 % 2 == 1 }
  predicate IsA(p: Word) { p / 64 % 2 == 1 }
  predicate IsD(p: Word) { p / 128 % 2 == 1 }

  // The X, W, R and V bits of a pointer to the next table and of the leaves the walk accepts.
  predicate IsNext(p: Word) { p % 16 == 1 }

  predicate IsLeaf(p: Word) {
    p % 16 == 3 || p % 16 == 7 || p % 16 == 9 || p % 16 == 11 || p % 16 == 15
  }

  predicate Allows(p: Word, a: Access) {
    match a
    case Read => IsR(p)
    case Write => IsW(p)
    case Fetch => IsX(p)
  }

  function SetA(p: Word): Word {
    if IsA(p) then p else p + 64
  }

  function SetD(p: Word): Word {
    if IsD(p) then p else p + 128
  }

  // What a successful access leaves in the entry.
  function Touch(p: Word, a: Access): Word {
    if a == Write then SetD(SetA(p)) else SetA(p)
  }

  // The page-aligned physical address, truncated to 32 bits.
  function Base(p: Word): Word {
    Wrap(p / 1024 * 4096)
  }

  function Offset(level: nat, va: Word): Word {
    if level == 1 then va % 0x40_0000 else va % 0x1000
  }

  function VpnOf(va: Word): Vpn {
    va / 0x1000
  }

  // ----- the walk -----

  datatype Found = Fault | Leaf(at: nat, level: nat)

  predicate PpnIsValid(m: Ram, ppn: nat) {
    ppn < |m| / 1024
  }

  // The entry a table has for a page, by the upper or the lower half of its number.
  function EntryAt(m: Ram, table: nat, vpn: Vpn, level: nat): (k: nat)
    requires PpnIsValid(m, table)
    ensures k < |m|
  {
    table * 1024 + (if level == 1 then vpn / 1024 else vpn % 1024)
  }

  function WalkSecond(m: Ram, table: nat, vpn: Vpn): Found {
    if !PpnIsValid(m, table) then Fault
    else
      var k := EntryAt(m, table, vpn, 2);
      if IsLeaf(m[k]) then Leaf(k, 2) else Fault
  }

  function Root(satp: Word): nat {
    satp % 0x40_0000
  }

  function Walk(m: Ram, satp: Word, vpn: Vpn): (f: Found)
    ensures f.Leaf? ==> f.at < |m| && IsLeaf(m[f.at])
  {
    if !PpnIsValid(m, Root(satp)) then Fault
    else
      var k := EntryAt(m, Root(satp), vpn, 1);
      if IsNext(m[k]) then WalkSecond(m, m[k] / 1024, vpn)
      else if IsLeaf(m[k]) && m[k] / 1024 % 1024 == 0 then Leaf(k, 1)
      else Fault
  }

  // The walk as a loop over the levels.
  method MmuWalk(m: Ram, satp: Word, vpn: Vpn) returns (f: Found)
    ensures f == Walk(m, satp, vpn)
  {
    var table: nat := Root(satp);
    if !PpnIsValid(m, table) { return Fault; }
    var i := 1;
    while i >= 0
      invariant -1 <= i <= 1 && PpnIsValid(m, table)
      invariant i == 1 ==> table == Root(satp)
      invariant i == 0 ==> Walk(m, satp, vpn) == WalkSecond(m, table, vpn)
      invariant i == -1 ==> Walk(m, satp, vpn) == Fault
    {
      var level := 2 - i;
      var k := EntryAt(m, table, vpn, level);
      var pte := m[k];
      if IsNext(pte) {
        table := pte / 1024;
        if !PpnIsValid(m, table) { return Fault; }
      } else if IsLeaf(pte) {
        if level == 1 && pte / 1024 % 1024 != 0 { return Fault; }
        return Leaf(k, level);
      } else {
        return Fault;
      }
      i := i - 1;
    }
    f := Fault;
  }

  // ----- translation without a TLB -----

  function Phys(p: Word, level: nat, va: Word): Word {
    Or(Base(p), Offset(level, va))
  }

  // The reference: walk every time, fault without permission, otherwise mark the entry.
  function Translate(m: Ram, satp: Word, va: Word, a: Access): (r: (Option<Word>, Ram))
    ensures |r.1| == |m|
  {
    if satp == 0 then (Some(va), m)
    else
      match Walk(m, satp, VpnOf(va))
      case Fault => (None, m)
      case Leaf(at, level) =>
        if !Allows(m[at], a) then (None, m)
        else (Some(Phys(m[at], level, va)), m[at := Touch(m[at], a)])
  }

  // ----- marking entries disturbs nothing -----

  // Equal in everything but bits 4 to 9.
  predicate SameTarget(p: Word, q: Word) {
    p % 16 == q % 16 && p / 1024 == q / 1024
  }

  lemma TouchKeeps(p: Word, a: Access)
    ensures SameTarget(Touch(p, a), p) && IsA(Touch(p, a)) && (a == Write || IsD(p) ==> IsD(Touch(p, a)))
    ensures Allows(p, Read) == Allows(Touch(p, a), Read) && Allows(p, Write) == Allows(Touch(p, a), Write)
    ensures Allows(p, Fetch) == Allows(Touch(p, a), Fetch)
    ensures IsA(p) && (a == Write ==> IsD(p)) ==> Touch(p, a) == p
  {
    SetAKeeps(p);
    SetDKeeps(p);
    SetDKeeps(SetA(p));
  }

  // An entry put together from the bits below A, A, D and the bits above.
  lemma Parts(p: Word, l: nat, a: nat, d: nat, h: nat)
    requires p == l + 64 * (a + 2 * (d + 2 * h)) && l < 64 && a <= 1 && d <= 1
    ensures p / 64 % 2 == a && p / 128 % 2 == d && p / 1024 == h / 4 && p % 64 == l && p / 256 == h
  {
    DivUnique(p, 64, a + 2 * (d + 2 * h), l);
    DivUnique(a + 2 * (d + 2 * h), 2, d + 2 * h, a);
    DivUnique(p, 128, d + 2 * h, l + 64 * a);
    DivUnique(d + 2 * h, 2, h, d);
    DivUnique(p, 1024, h / 4, l + 64 * a + 128 * d + 256 * (h % 4));
    DivUnique(p, 256, h, l + 64 * a + 128 * d);
  }

  lemma TakeApart(p: Word)
    ensures p == p % 64 + 64 * (p / 64 % 2 + 2 * (p / 128 % 2 + 2 * (p / 256)))
  {
    var q := p / 64;
    assert p / 128 == q / 2;
    assert p / 256 == q / 2 / 2;
  }

  // The bits below A decide the kind of the entry and its permissions.
  lemma LowPart(h: nat, l: nat)
    requires l < 64
    ensures
      var p := 64 * h + l;
      p / 2 % 2 == l / 2 % 2 && p / 4 % 2 == l / 4 % 2 && p / 8 % 2 == l / 8 % 2 && p % 16 == l % 16
  {
    var p := 64 * h + l;
    DivUnique(p, 2, 32 * h + l / 2, l % 2);
    DivUnique(32 * h + l / 2, 2, 16 * h + l / 2 / 2, l / 2 % 2);
    DivUnique(p, 4, 16 * h + l / 4, l % 4);
    DivUnique(16 * h + l / 4, 2, 8 * h + l / 4 / 2, l / 4 % 2);
    DivUnique(p, 8, 8 * h + l / 8, l % 8);
    DivUnique(8 * h + l / 8, 2, 4 * h + l / 8 / 2, l / 8 % 2);
    DivUnique(p, 16, 4 * h + l / 16, l % 16);
  }

  lemma SameLow(p: Word, q: Word)
    requires p % 64 == q % 64
    ensures p % 16 == q % 16 && IsR(p) == IsR(q) && IsW(p) == IsW(q) && IsX(p) == IsX(q)
  {
    LowPart(p / 64, p % 64);
    LowPart(q / 64, q % 64);
  }

  lemma SetAKeeps(p: Word)
    ensures SameTarget(SetA(p), p) && IsA(SetA(p)) && (IsD(SetA(p)) <==> IsD(p))
    ensures IsR(SetA(p)) == IsR(p) && IsW(SetA(p)) == IsW(p) && IsX(SetA(p)) == IsX(p)
  {
    hide IsR, IsW, IsX;
    if !IsA(p) {
      var l, d, h := p % 64, p / 128 % 2, p / 256;
      TakeApart(p);
      Parts(p, l, 0, d, h);
      Parts(p + 64, l, 1, d, h);
      SameLow(p, p + 64);
    }
  }

  lemma SetDKeeps(p: Word)
    ensures SameTarget(SetD(p), p) && IsD(SetD(p)) && (IsA(SetD(p)) <==> IsA(p))
    ensures IsR(SetD(p)) == IsR(p) && IsW(SetD(p)) == IsW(p) && IsX(SetD(p)) == IsX(p)
  {
    hide IsR, IsW, IsX;
    if !IsD(p) {
      var l, a, h := p % 64, p / 64 % 2, p / 256;
      TakeApart(p);
      Parts(p, l, a, 0, h);
      Parts(p + 128, l, a, 1, h);
      SameLow(p, p + 128);
    }
  }

  lemma WalkSame(m: Ram, k: nat, q: Word, satp: Word, vpn: Vpn)
    requires k < |m| && SameTarget(m[k], q)
    ensures Walk(m[k := q], satp, vpn) == Walk(m, satp, vpn)
  {
  }

  // ----- coherence -----

  datatype Entry = Entry(valid: bool, vpn: Vpn, base: Word, at: nat, r: bool, w: bool, x: bool, dirty: bool, level: nat)

  type Tlb = t: seq<Entry> | |t| == 64 witness seq(64, _ => Empty())

  function Empty(): Entry {
    Entry(false, 0, 0, 0, false, false, false, false, 0)
  }

  // A valid entry says what a walk on the current memory would say, and its page is marked.
  ghost predicate Coherent(e: Entry, m: Ram, satp: Word) {
    e.valid ==>
      && Walk(m, satp, e.vpn) == Leaf(e.at, e.level)
      && e.base == Base(m[e.at]) && e.r == IsR(m[e.at]) && e.w == IsW(m[e.at]) && e.x == IsX(m[e.at])
      && IsA(m[e.at]) && (e.dirty ==> IsD(m[e.at]))
  }

  // The pages translated since they were last fenced, which the TLBs may hold, and those of them
  // whose page table has been stored into since.
  datatype Pages = Pages(cached: set<Vpn>, stale: set<Vpn>)

  const NO_PAGES := Pages({}, {})

  // Everything a TLB holds is in its slot, belongs to an address space, and is right for all pages
  // that are not stale.
  ghost predicate TlbOk(t: Tlb, m: Ram, satp: Word, pages: Pages) {
    forall i :: 0 <= i < 64 && t[i].valid ==>
      && satp != 0 && t[i].vpn % 64 == i && t[i].vpn in pages.cached
      && (t[i].vpn !in pages.stale ==> Coherent(t[i], m, satp))
  }

  // Marking any entry keeps every TLB entry right.
  lemma TouchCoherent(e: Entry, m: Ram, satp: Word, k: nat, a: Access)
    requires k < |m| && Coherent(e, m, satp)
    ensures Coherent(e, m[k := Touch(m[k], a)], satp)
  {
    hide Walk, Touch;
    TouchKeeps(m[k], a);
    WalkSame(m, k, Touch(m[k], a), satp, e.vpn);
    if e.valid && e.at == k {
      assert Allows(m[k], Read) == IsR(m[k]) && Allows(m[k], Write) == IsW(m[k]) && Allows(m[k], Fetch) == IsX(m[k]);
      BaseSame(m[k], Touch(m[k], a));
      PermissionsSame(m[k], a);
    }
  }

  lemma BaseSame(p: Word, q: Word)
    requires SameTarget(p, q)
    ensures Base(p) == Base(q)
  {
  }

  lemma PermissionsSame(p: Word, a: Access)
    ensures IsR(Touch(p, a)) == IsR(p) && IsW(Touch(p, a)) == IsW(p) && IsX(Touch(p, a)) == IsX(p)
  {
    SetAKeeps(p);
    SetDKeeps(SetA(p));
  }

  lemma TouchTlb(t: Tlb, m: Ram, satp: Word, pages: Pages, k: nat, a: Access)
    requires k < |m| && TlbOk(t, m, satp, pages)
    ensures TlbOk(t, m[k := Touch(m[k], a)], satp, pages)
  {
    hide Coherent, Touch;
    forall i | 0 <= i < 64 && t[i].valid && t[i].vpn !in pages.stale ensures Coherent(t[i], m[k := Touch(m[k], a)], satp) {
      TouchCoherent(t[i], m, satp, k, a);
    }
  }

  // ----- stores into page tables -----

  // The words a walk reads.
  function Path(m: Ram, satp: Word, vpn: Vpn): set<nat> {
    if !PpnIsValid(m, Root(satp)) then {}
    else
      var k := EntryAt(m, Root(satp), vpn, 1);
      if !IsNext(m[k]) || !PpnIsValid(m, m[k] / 1024) then {k}
      else {k, EntryAt(m, m[k] / 1024, vpn, 2)}
  }

  lemma WalkFrame(m: Ram, satp: Word, vpn: Vpn, k: nat, v: Word)
    requires k < |m| && k !in Path(m, satp, vpn)
    ensures Walk(m[k := v], satp, vpn) == Walk(m, satp, vpn)
    ensures Walk(m, satp, vpn).Leaf? ==> Walk(m, satp, vpn).at in Path(m, satp, vpn)
  {
  }

  // A store off the path of an entry keeps the entry right.
  lemma StoreCoherent(e: Entry, m: Ram, satp: Word, k: nat, v: Word)
    requires k < |m| && Coherent(e, m, satp) && (e.valid ==> k !in Path(m, satp, e.vpn))
    ensures Coherent(e, m[k := v], satp)
  {
    hide Walk, Path, IsA, IsD, IsR, IsW, IsX, Base;
    if e.valid { WalkFrame(m, satp, e.vpn, k, v); }
  }

  // The pages translated through a word of memory; without an address space there are none.
  ghost function Through(m: Ram, satp: Word, k: nat): set<Vpn> {
    if satp == 0 then {} else set q: Vpn | k in Path(m, satp, q)
  }

  // A store makes stale what may be held of the pages translated through the word.
  ghost function Stored(pages: Pages, m: Ram, satp: Word, k: nat): Pages {
    pages.(stale := pages.stale + Through(m, satp, k) * pages.cached)
  }

  // After that store everything else the TLBs hold is still right.
  lemma StoreTlb(t: Tlb, m: Ram, satp: Word, pages: Pages, k: nat, v: Word)
    requires k < |m| && TlbOk(t, m, satp, pages)
    ensures TlbOk(t, m[k := v], satp, Stored(pages, m, satp, k))
  {
    hide Coherent, Path;
    forall i | 0 <= i < 64 && t[i].valid && t[i].vpn !in pages.stale && t[i].vpn !in Through(m, satp, k)
      ensures Coherent(t[i], m[k := v], satp)
    {
      StoreCoherent(t[i], m, satp, k, v);
    }
  }

  // The slot of a page is dropped if it holds that page.
  function Flushed(t: Tlb, vpn: Vpn): Tlb {
    var idx := vpn % 64;
    if t[idx].valid && t[idx].vpn == vpn then t[idx := t[idx].(valid := false)] else t
  }

  function Fenced(pages: Pages, vpn: Vpn): Pages {
    Pages(pages.cached - {vpn}, pages.stale - {vpn})
  }

  lemma FlushTlb(t: Tlb, m: Ram, satp: Word, pages: Pages, vpn: Vpn)
    requires TlbOk(t, m, satp, pages)
    ensures TlbOk(Flushed(t, vpn), m, satp, Fenced(pages, vpn))
    ensures forall i :: 0 <= i < 64 && Flushed(t, vpn)[i].valid ==> Flushed(t, vpn)[i].vpn != vpn
    ensures forall i :: 0 <= i < 64 && t[i].vpn != vpn ==> Flushed(t, vpn)[i] == t[i]
  {
    hide Coherent;
  }

  // A TLB holds the page, with the permission.
  predicate Holds(t: Tlb, vpn: Vpn, a: Access) {
    var e := t[vpn % 64];
    e.valid && e.vpn == vpn && (if a == Read then e.r else if a == Write then e.w else e.x)
  }

  // ----- what a translation means -----

  // A successful write leaves the page marked accessed and dirty, and found as before.
  lemma WriteMarks(m: Ram, satp: Word, va: Word, a: Access)
    requires satp != 0 && Translate(m, satp, va, a).0.Some?
    ensures
      var (f, after) := (Walk(m, satp, VpnOf(va)), Translate(m, satp, va, a).1);
      && f.Leaf? && Allows(m[f.at], a) && Walk(after, satp, VpnOf(va)) == f
      && IsA(after[f.at]) && (a == Write ==> IsD(after[f.at]))
      && forall k :: 0 <= k < |m| && k != f.at ==> after[k] == m[k]
  {
    hide Walk, Touch, Phys;
    var f := Walk(m, satp, VpnOf(va));
    TouchKeeps(m[f.at], a);
    WalkSame(m, f.at, Touch(m[f.at], a), satp, VpnOf(va));
  }

  // The physical address is the base of the page plus the offset in the page, superpages included.
  lemma PhysIsBasePlusOffset(m: Ram, satp: Word, va: Word)
    requires Walk(m, satp, VpnOf(va)).Leaf?
    ensures
      var f := Walk(m, satp, VpnOf(va));
      Phys(m[f.at], f.level, va) == Base(m[f.at]) + Offset(f.level, va)
  {
    var f := Walk(m, satp, VpnOf(va));
    var p := m[f.at];
    assert Pow2(10) == 0x400;
    Pow2Add(10, 10);
    Pow2Add(10, 2);
    Pow2Add(20, 2);
    BaseAligned(p);
    Pow2Values();
    if f.level == 1 {
      OrDisjoint(Base(p), Offset(1, va), 22, 32);
    } else {
      OrDisjoint(Base(p), Offset(2, va), 12, 32);
    }
  }

  lemma BaseAligned(p: Word)
    ensures Base(p) % 0x1000 == 0 && (p / 1024 % 1024 == 0 ==> Base(p) % 0x40_0000 == 0)
    ensures Base(p) <= MOD - 0x1000 && (p / 1024 % 1024 == 0 ==> Base(p) <= MOD - 0x40_0000)
  {
    AlignedPage(p / 1024);
    if p / 1024 % 1024 == 0 { AlignedSuperpage(p / 1024 / 1024); }
  }

  lemma AlignedPage(n: nat)
    ensures Wrap(n * 4096) % 0x1000 == 0 && Wrap(n * 4096) <= MOD - 0x1000
  {
    var r := n % 0x10_0000;
    DivUnique(n * 4096, MOD, n / 0x10_0000, r * 4096);
    DivUnique(r * 4096, 0x1000, r, 0);
  }

  lemma AlignedSuperpage(n: nat)
    ensures Wrap(n * 1024 * 4096) % 0x40_0000 == 0 && Wrap(n * 1024 * 4096) <= MOD - 0x40_0000
  {
    var r := n % 0x400;
    DivUnique(n * 1024 * 4096, MOD, n / 0x400, r * 0x40_0000);
    DivUnique(r * 0x40_0000, 0x40_0000, r, 0);
  }

  lemma {:induction false} OrDisjoint(a: nat, b: nat, k: nat, w: nat)
    requires k <= w && a % Pow2(k) == 0 && b < Pow2(k) && a + b < Pow2(w)
    ensures Bitwise(LogicOr, a, b, w) == a + b
  {
    if k == 0 {
      OrZero(a, w);
    } else {
      var p := Pow2(k - 1);
      HalveMod(a, p);
      OrDisjoint(a / 2, b / 2, k - 1, w - 1);
    }
  }

  // ----- what a walk and a translation mean, word by word -----

  // Valid, readable or executable, and not writable without being readable.
  predicate IsMapping(p: Word) {
    p % 2 == 1 && (p / 2 % 2 == 1 || p / 8 % 2 == 1) && (p / 4 % 2 == 1 ==> p / 2 % 2 == 1)
  }

  // Valid, with none of the three permissions.
  predicate IsPointer(p: Word) {
    p % 2 == 1 && p / 2 % 2 == 0 && p / 4 % 2 == 0 && p / 8 % 2 == 0
  }

  lemma KindsByBits(p: Word)
    ensures IsLeaf(p) <==> IsMapping(p)
    ensures IsNext(p) <==> IsPointer(p)
  {
    FourBits(p % 16);
    FourBitsOf(p);
  }

  lemma FourBitsOf(p: Word)
    ensures
      var l := p % 16;
      p % 2 == l % 2 && p / 2 % 2 == l / 2 % 2 && p / 4 % 2 == l / 4 % 2 && p / 8 % 2 == l / 8 % 2
  {
    var h, l := p / 16, p % 16;
    DivUnique(p, 2, 8 * h + l / 2, l % 2);
    DivUnique(8 * h + l / 2, 2, 4 * h + l / 2 / 2, l / 2 % 2);
    DivUnique(p, 4, 4 * h + l / 4, l % 4);
    DivUnique(4 * h + l / 4, 2, 2 * h + l / 4 / 2, l / 4 % 2);
    DivUnique(p, 8, 2 * h + l / 8, l % 8);
    DivUnique(2 * h + l / 8, 2, h, l / 8 % 2);
  }

  lemma FourBits(l: nat)
    requires l < 16
    ensures (l == 3 || l == 7 || l == 9 || l == 11 || l == 15) <==>
      l % 2 == 1 && (l / 2 % 2 == 1 || l / 8 % 2 == 1) && (l / 4 % 2 == 1 ==> l / 2 % 2 == 1)
    ensures l == 1 <==> l % 2 == 1 && l / 2 % 2 == 0 && l / 4 % 2 == 0 && l / 8 % 2 == 0
  {
  }

  // The root table is indexed with bits 31 to 22 of the address, the second with bits 21 to 12. A
  // mapping in the root is a superpage, if it is aligned; anything else is a fault.
  lemma WalkMeans(m: Ram, satp: Word, va: Word, at: nat)
    ensures
      var f, pages := Walk(m, satp, VpnOf(va)), |m| / 1024;
      var table, top, low := satp % 0x40_0000, va / 0x40_0000, va / 0x1000 % 1024;
      && (f == Leaf(at, 1) <==>
           table < pages && at == table * 1024 + top && IsMapping(m[at]) && m[at] / 1024 % 1024 == 0)
      && (f == Leaf(at, 2) <==>
           && table < pages && IsPointer(m[table * 1024 + top]) && m[table * 1024 + top] / 1024 < pages
           && at == m[table * 1024 + top] / 1024 * 1024 + low && IsMapping(m[at]))
      && (f.Leaf? ==> f.level == 1 || f.level == 2)
  {
    hide IsMapping, IsPointer, IsLeaf, IsNext;
    forall p: Word ensures (IsLeaf(p) <==> IsMapping(p)) && (IsNext(p) <==> IsPointer(p)) { KindsByBits(p); }
    forall p: Word ensures !(IsLeaf(p) && IsNext(p)) { LeafIsNoPointer(p); }
    PageNumber(va);
  }

  lemma LeafIsNoPointer(p: Word)
    ensures !(IsLeaf(p) && IsNext(p))
  {
  }

  lemma PageNumber(va: Word)
    ensures VpnOf(va) / 1024 == va / 0x40_0000 && VpnOf(va) % 1024 == va / 0x1000 % 1024
  {
    var q, r := va / 0x40_0000, va % 0x40_0000;
    DivUnique(va, 0x1000, q * 1024 + r / 0x1000, r % 0x1000);
    DivUnique(q * 1024 + r / 0x1000, 1024, q, r / 0x1000);
  }

  // An access is granted exactly when the page is found and its permission bit is set: bit 1 for
  // reads, bit 2 for writes, bit 3 for fetches. The answer is the base of the page plus the offset,
  // and in the leaf bit 6 is set, after a write bit 7 as well, and nothing else.
  lemma TranslateMeans(m: Ram, satp: Word, va: Word, a: Access)
    requires satp != 0
    ensures
      var (f, r) := (Walk(m, satp, VpnOf(va)), Translate(m, satp, va, a));
      && (r.0.Some? <==> f.Leaf? && m[f.at] / (if a == Read then 2 else if a == Write then 4 else 8) % 2 == 1)
      && (r.0.None? ==> r.1 == m)
      && (r.0.Some? ==>
           var p, q := m[f.at], r.1[f.at];
           && r.0.value == p / 1024 * 4096 % MOD + va % (if f.level == 1 then 0x40_0000 else 0x1000)
           && r.1 == m[f.at := q] && q % 64 == p % 64 && q / 256 == p / 256
           && q / 64 % 2 == 1 && q / 128 % 2 == if a == Write then 1 else p / 128 % 2)
  {
    hide Walk, Touch, Phys;
    var f := Walk(m, satp, VpnOf(va));
    if f.Leaf? {
      PhysIsBasePlusOffset(m, satp, va);
      TouchMeans(m[f.at], a);
    }
  }

  lemma TouchMeans(p: Word, a: Access)
    ensures
      var q := Touch(p, a);
      q % 64 == p % 64 && q / 256 == p / 256 && q / 64 % 2 == 1 && q / 128 % 2 == if a == Write then 1 else p / 128 % 2
  {
    var l, x, d, h := p % 64, p / 64 % 2, p / 128 % 2, p / 256;
    TakeApart(p);
    Parts(p, l, x, d, h);
    Parts(SetA(p), l, 1, d, h);
    if a == Write { Parts(Touch(p, a), l, 1, 1, h); }
  }

  // ----- the MMU -----

  class Mmu {
    var mem: Ram
    var satp: Word
    var dtlb: Tlb
    var itlb: Tlb
    ghost var pages: Pages

    ghost predicate Valid()
      reads this
    {
      TlbOk(dtlb, mem, satp, pages) && TlbOk(itlb, mem, satp, pages)
    }

    constructor (mem: Ram, satp: Word)
      ensures Valid() && this.mem == mem && this.satp == satp && pages == NO_PAGES
    {
      this.mem, this.satp, pages := mem, satp, NO_PAGES;
      dtlb, itlb := seq(64, _ => Empty()), seq(64, _ => Empty());
    }

    method FlushAll()
      modifies this`dtlb, this`itlb, this`pages
      ensures Valid() && pages == NO_PAGES && forall i :: 0 <= i < 64 ==> !dtlb[i].valid && !itlb[i].valid
    {
      dtlb, itlb := seq(64, _ => Empty()), seq(64, _ => Empty());
      pages := NO_PAGES;
    }

    // Forget one page, whatever other pages are stale.
    method Flush(va: Word)
      requires Valid()
      modifies this`dtlb, this`itlb, this`pages
      ensures Valid() && pages == Fenced(old(pages), VpnOf(va))
      ensures forall i :: 0 <= i < 64 && old(dtlb)[i].vpn != VpnOf(va) ==> dtlb[i] == old(dtlb)[i]
      ensures forall i :: 0 <= i < 64 && old(itlb)[i].vpn != VpnOf(va) ==> itlb[i] == old(itlb)[i]
      ensures forall i :: 0 <= i < 64 ==> (dtlb[i].valid ==> dtlb[i].vpn != VpnOf(va)) && (itlb[i].valid ==> itlb[i].vpn != VpnOf(va))
    {
      hide TlbOk, VpnOf;
      var vpn := VpnOf(va);
      FlushTlb(dtlb, mem, satp, pages, vpn);
      FlushTlb(itlb, mem, satp, pages, vpn);
      dtlb, itlb := Flushed(dtlb, vpn), Flushed(itlb, vpn);
      pages := Fenced(pages, vpn);
    }

    // Both TLBs go when the address space changes.
    method WriteSatp(v: Word)
      requires Valid()
      modifies this`satp, this`dtlb, this`itlb, this`pages
      ensures Valid() && satp == v && pages == if v == old(satp) then old(pages) else NO_PAGES
    {
      var before := satp;
      satp := v;
      if satp != before { FlushAll(); }
    }

    // A guest store into physical memory; it does not look at the TLBs.
    method Store(k: nat, v: Word)
      requires Valid() && k < |mem|
      modifies this`mem, this`pages
      ensures Valid() && mem == old(mem)[k := v] && pages == Stored(old(pages), old(mem), satp, k)
    {
      hide TlbOk, Stored;
      StoreTlb(dtlb, mem, satp, pages, k, v);
      StoreTlb(itlb, mem, satp, pages, k, v);
      pages := Stored(pages, mem, satp, k);
      mem := mem[k := v];
    }

    // A hit needs the page, the permission, and for a first write the dirty bit in memory.
    method DtlbLookup(va: Word, write: bool) returns (hit: bool, pa: Word)
      requires Valid() && satp != 0 && VpnOf(va) !in pages.stale
      modifies this`mem, this`dtlb
      ensures Valid() && hit == Holds(old(dtlb), VpnOf(va), if write then Write else Read)
      ensures hit ==> VpnOf(va) in pages.cached && (Some(pa), mem) == Translate(old(mem), satp, va, if write then Write else Read)
      ensures forall i :: 0 <= i < 64 ==> dtlb[i] == old(dtlb)[i].(dirty := dtlb[i].dirty)
      ensures if hit && write then dtlb[VpnOf(va) % 64].dirty else dtlb == old(dtlb)
      ensures !hit ==> mem == old(mem)
    {
      hide TlbOk, VpnOf, Or, SetD, Translate, Coherent;
      var vpn := VpnOf(va);
      var idx := vpn % 64;
      var e := dtlb[idx];
      if !e.valid || e.vpn != vpn || !(if write then e.w else e.r) { return false, 0; }
      HitTranslates(dtlb, mem, satp, pages, va, if write then Write else Read);
      if write && !e.dirty {
        FirstWrite(mem, e.at);
        TouchTlb(dtlb, mem, satp, pages, e.at, Write);
        TouchTlb(itlb, mem, satp, pages, e.at, Write);
        mem := mem[e.at := SetD(mem[e.at])];
        DirtyTlb(dtlb, mem, satp, pages, vpn);
        dtlb := dtlb[idx := e.(dirty := true)];
      }
      hit, pa := true, Or(e.base, Offset(e.level, va));
    }

    method ItlbLookup(va: Word) returns (hit: bool, pa: Word)
      requires Valid() && satp != 0 && VpnOf(va) !in pages.stale
      ensures hit == Holds(itlb, VpnOf(va), Fetch)
      ensures hit ==> VpnOf(va) in pages.cached && (Some(pa), mem) == Translate(mem, satp, va, Fetch)
    {
      hide TlbOk, VpnOf, Or, Translate, Coherent;
      var vpn := VpnOf(va);
      var e := itlb[vpn % 64];
      if !e.valid || e.vpn != vpn || !e.x { return false, 0; }
      HitTranslates(itlb, mem, satp, pages, va, Fetch);
      hit, pa := true, Or(e.base, Offset(e.level, va));
    }

    // Data accesses: the TLB first, then the walk, which marks the page and fills the TLB.
    method TranslateData(va: Word, write: bool) returns (r: Option<Word>)
      requires Valid() && (satp != 0 ==> VpnOf(va) !in pages.stale)
      modifies this`mem, this`dtlb, this`pages
      ensures Valid() && (r, mem) == Translate(old(mem), satp, va, if write then Write else Read)
      ensures pages == Translated(old(pages), satp, va, r)
      ensures satp != 0 && r.Some? ==> dtlb[VpnOf(va) % 64].valid && dtlb[VpnOf(va) % 64].vpn == VpnOf(va)
      ensures forall i :: 0 <= i < 64 && (i != VpnOf(va) % 64 || satp == 0 || r.None?) ==>
        dtlb[i] == old(dtlb)[i].(dirty := dtlb[i].dirty)
    {
      hide TlbOk, Walk, IsA, IsD, IsR, IsW, IsX, SetA, SetD, Phys;
      if satp == 0 { return Some(va); }
      var hit, pa := DtlbLookup(va, write);
      if hit {
        assert pages.cached + {VpnOf(va)} == pages.cached;
        return Some(pa);
      }
      var f := MmuWalk(mem, satp, VpnOf(va));
      var a := if write then Write else Read;
      if f.Fault? || !Allows(mem[f.at], a) { return None; }
      Marking(mem, satp, VpnOf(va), a);
      TouchTlb(dtlb, mem, satp, pages, f.at, a);
      TouchTlb(itlb, mem, satp, pages, f.at, a);
      var pte := SetA(mem[f.at]);
      if write { pte := SetD(pte); }
      mem := mem[f.at := pte];
      MoreCached(dtlb, mem, satp, pages, VpnOf(va));
      MoreCached(itlb, mem, satp, pages, VpnOf(va));
      pages := pages.(cached := pages.cached + {VpnOf(va)});
      FillTlb(dtlb, mem, satp, pages, VpnOf(va));
      dtlb := dtlb[VpnOf(va) % 64 := NewEntry(VpnOf(va), pte, f.at, f.level)];
      r := Some(Phys(pte, f.level, va));
    }

    // Instruction fetches.
    method TranslateFetch(va: Word) returns (r: Option<Word>)
      requires Valid() && (satp != 0 ==> VpnOf(va) !in pages.stale)
      modifies this`mem, this`itlb, this`pages
      ensures Valid() && (r, mem) == Translate(old(mem), satp, va, Fetch)
      ensures pages == Translated(old(pages), satp, va, r)
      ensures satp != 0 && r.Some? ==> itlb[VpnOf(va) % 64].valid && itlb[VpnOf(va) % 64].vpn == VpnOf(va)
      ensures forall i :: 0 <= i < 64 && (i != VpnOf(va) % 64 || satp == 0 || r.None?) ==> itlb[i] == old(itlb)[i]
    {
      hide TlbOk, Walk, IsA, IsD, IsR, IsW, IsX, SetA, SetD, Phys;
      if satp == 0 { return Some(va); }
      var hit, pa := ItlbLookup(va);
      if hit {
        assert pages.cached + {VpnOf(va)} == pages.cached;
        return Some(pa);
      }
      var f := MmuWalk(mem, satp, VpnOf(va));
      if f.Fault? || !Allows(mem[f.at], Fetch) { return None; }
      Marking(mem, satp, VpnOf(va), Fetch);
      TouchTlb(dtlb, mem, satp, pages, f.at, Fetch);
      TouchTlb(itlb, mem, satp, pages, f.at, Fetch);
      var pte := SetA(mem[f.at]);
      mem := mem[f.at := pte];
      MoreCached(dtlb, mem, satp, pages, VpnOf(va));
      MoreCached(itlb, mem, satp, pages, VpnOf(va));
      pages := pages.(cached := pages.cached + {VpnOf(va)});
      FillTlb(itlb, mem, satp, pages, VpnOf(va));
      itlb := itlb[VpnOf(va) % 64 := NewEntry(VpnOf(va), pte, f.at, f.level)];
      r := Some(Phys(pte, f.level, va));
    }
  }

  // A successful translation may leave its page in a TLB.
  function Translated(pages: Pages, satp: Word, va: Word, r: Option<Word>): Pages {
    if satp != 0 && r.Some? then pages.(cached := pages.cached + {VpnOf(va)}) else pages
  }

  lemma MoreCached(t: Tlb, m: Ram, satp: Word, pages: Pages, vpn: Vpn)
    requires TlbOk(t, m, satp, pages)
    ensures TlbOk(t, m, satp, pages.(cached := pages.cached + {vpn}))
  {
  }

  function NewEntry(vpn: Vpn, p: Word, at: nat, level: nat): Entry {
    Entry(true, vpn, Base(p), at, IsR(p), IsW(p), IsX(p), IsD(p), level)
  }

  // Filling a TLB from a marked leaf.
  lemma FillTlb(t: Tlb, m: Ram, satp: Word, pages: Pages, vpn: Vpn)
    requires satp != 0 && vpn in pages.cached && TlbOk(t, m, satp, pages) && Walk(m, satp, vpn).Leaf? && IsA(m[Walk(m, satp, vpn).at])
    ensures
      var f := Walk(m, satp, vpn);
      TlbOk(t[vpn % 64 := NewEntry(vpn, m[f.at], f.at, f.level)], m, satp, pages)
  {
    hide Walk, IsA, IsD, IsR, IsW, IsX, Base;
    var f := Walk(m, satp, vpn);
    assert Coherent(NewEntry(vpn, m[f.at], f.at, f.level), m, satp);
  }

  // Marking the leaf of a page changes neither the walk nor the address.
  lemma Marking(m: Ram, satp: Word, vpn: Vpn, a: Access)
    requires Walk(m, satp, vpn).Leaf?
    ensures
      var f := Walk(m, satp, vpn);
      var q := Touch(m[f.at], a);
      Walk(m[f.at := q], satp, vpn) == f && IsA(q) && forall level, va :: Phys(q, level, va) == Phys(m[f.at], level, va)
  {
    hide Walk, Touch, Or, Offset;
    var f := Walk(m, satp, vpn);
    TouchKeeps(m[f.at], a);
    WalkSame(m, f.at, Touch(m[f.at], a), satp, vpn);
    BaseSame(m[f.at], Touch(m[f.at], a));
  }

  // ----- whole runs -----

  datatype Event =
    | Data(va: Word, write: bool)
    | Instruction(va: Word)
    | SetSatp(v: Word)
    | Fence(va: Word)          // sfence.vma for one page
    | FenceAll                 // sfence.vma
    | Store(k: nat, v: Word)   // a store into physical memory, page tables included

  datatype Run = Run(mem: Ram, satp: Word, out: seq<Option<Word>>)

  // What the events mean without any TLB.
  function RefStep(s: Run, e: Event): Run {
    match e
    case Data(va, write) =>
      var (r, m) := Translate(s.mem, s.satp, va, if write then Write else Read);
      Run(m, s.satp, s.out + [r])
    case Instruction(va) =>
      var (r, m) := Translate(s.mem, s.satp, va, Fetch);
      Run(m, s.satp, s.out + [r])
    case SetSatp(v) => s.(satp := v)
    case Fence(_) => s
    case FenceAll => s
    case Store(k, v) => if k < |s.mem| then s.(mem := s.mem[k := v]) else s
  }

  function RefRun(s: Run, es: seq<Event>): Run
    decreases |es|
  {
    if es == [] then s else RefRun(RefStep(s, es[0]), es[1..])
  }

  // The pages that may be held, and those of them that are stale, after an event.
  ghost function PagesAfter(s: Run, pages: Pages, e: Event): Pages {
    match e
    case Data(va, write) => Translated(pages, s.satp, va, Translate(s.mem, s.satp, va, if write then Write else Read).0)
    case Instruction(va) => Translated(pages, s.satp, va, Translate(s.mem, s.satp, va, Fetch).0)
    case SetSatp(v) => if v == s.satp then pages else NO_PAGES
    case Fence(va) => Fenced(pages, VpnOf(va))
    case FenceAll => NO_PAGES
    case Store(k, _) => if k < |s.mem| then Stored(pages, s.mem, s.satp, k) else pages
  }

  // What software has to observe: between an edit of the tables of a page that has been translated
  // and a fence for it, the page is not accessed.
  ghost predicate Observed(s: Run, pages: Pages, e: Event) {
    match e
    case Data(va, _) => s.satp != 0 ==> VpnOf(va) !in pages.stale
    case Instruction(va) => s.satp != 0 ==> VpnOf(va) !in pages.stale
    case _ => true
  }

  ghost predicate Disciplined(s: Run, pages: Pages, es: seq<Event>)
    decreases |es|
  {
    es == [] || (Observed(s, pages, es[0]) && Disciplined(RefStep(s, es[0]), PagesAfter(s, pages, es[0]), es[1..]))
  }

  // One event on the MMU has the result it has without a TLB.
  method Handle(mmu: Mmu, e: Event, ghost s: Run) returns (out: seq<Option<Word>>)
    requires mmu.Valid() && s.mem == mmu.mem && s.satp == mmu.satp && Observed(s, mmu.pages, e)
    modifies mmu
    ensures mmu.Valid() && RefStep(s, e) == Run(mmu.mem, mmu.satp, s.out + out)
    ensures mmu.pages == PagesAfter(s, old(mmu.pages), e)
  {
    hide TlbOk, VpnOf, Translate, Stored, Fenced, Translated;
    out := [];
    assert s.out + [] == s.out;
    match e {
      case Data(va, write) =>
        var r := mmu.TranslateData(va, write);
        out := [r];
      case Instruction(va) =>
        var r := mmu.TranslateFetch(va);
        out := [r];
      case SetSatp(v) => mmu.WriteSatp(v);
      case Fence(va) => mmu.Flush(va);
      case FenceAll => mmu.FlushAll();
      case Store(k, v) =>
        if k < |mmu.mem| { mmu.Store(k, v); }
    }
  }

  // In every disciplined run the MMU answers, and leaves memory, as if it had no TLB.
  method Replay(mmu: Mmu, es: seq<Event>) returns (out: seq<Option<Word>>)
    requires mmu.Valid() && Disciplined(Run(mmu.mem, mmu.satp, []), mmu.pages, es)
    modifies mmu
    ensures mmu.Valid() && RefRun(Run(old(mmu.mem), old(mmu.satp), []), es) == Run(mmu.mem, mmu.satp, out)
  {
    hide TlbOk, RefStep, Observed, PagesAfter;
    out := [];
    ghost var start := Run(mmu.mem, mmu.satp, []);
    var i := 0;
    assert es[0..] == es;
    while i < |es|
      invariant i <= |es| && mmu.Valid()
      invariant Disciplined(Run(mmu.mem, mmu.satp, out), mmu.pages, es[i..])
      invariant RefRun(start, es) == RefRun(Run(mmu.mem, mmu.satp, out), es[i..])
    {
      assert es[i..][1..] == es[i + 1..] && es[i..][0] == es[i];
      var r := Handle(mmu, es[i], Run(mmu.mem, mmu.satp, out));
      out := out + r;
      i := i + 1;
    }
  }

  // Without an address space nothing goes stale: any run of stores and accesses is disciplined.
  lemma {:induction false} BareIsDisciplined(s: Run, pages: Pages, es: seq<Event>)
    requires s.satp == 0 && forall e :: e in es ==> !e.SetSatp?
    ensures Disciplined(s, pages, es)
    decreases |es|
  {
    hide Translate, Path, PagesAfter;
    if es != [] {
      assert es[0] in es;
      BareIsDisciplined(RefStep(s, es[0]), PagesAfter(s, pages, es[0]), es[1..]);
    }
  }

  // Faults are not held: a page that has not been translated may be mapped and then accessed
  // without a fence, however many stores that takes.
  lemma {:induction false} MappingIsDisciplined(s: Run, pages: Pages, es: seq<Event>, access: Event)
    requires (access.Data? || access.Instruction?) && VpnOf(access.va) !in pages.cached + pages.stale
    requires forall e :: e in es ==> e.Store?
    ensures Disciplined(s, pages, es + [access])
    decreases |es|
  {
    hide Translate, Path, Through, VpnOf;
    var all := es + [access];
    if es == [] {
      assert all[0] == access && all[1..] == [];
    } else {
      assert es[0] in es && all[0] == es[0] && all[1..] == es[1..] + [access];
      MappingIsDisciplined(RefStep(s, es[0]), PagesAfter(s, pages, es[0]), es[1..], access);
    }
  }

  // A held page is translated as a walk would, with nothing left to mark but the first write.
  lemma HitTranslates(t: Tlb, m: Ram, satp: Word, pages: Pages, va: Word, a: Access)
    requires TlbOk(t, m, satp, pages) && VpnOf(va) !in pages.stale && Holds(t, VpnOf(va), a) && satp != 0
    ensures
      var e := t[VpnOf(va) % 64];
      && VpnOf(va) in pages.cached && e.at < |m| && IsA(m[e.at])
      && Translate(m, satp, va, a) == (Some(Or(e.base, Offset(e.level, va))), m[e.at := Touch(m[e.at], a)])
      && (!(a == Write && !e.dirty) ==> m[e.at := Touch(m[e.at], a)] == m)
  {
    hide Walk, IsR, IsW, IsX, IsA, IsD, SetA, SetD, Base, Or;
    var e := t[VpnOf(va) % 64];
    assert Coherent(e, m, satp);
    TouchKeeps(m[e.at], a);
    assert m[e.at := m[e.at]] == m;
  }

  lemma DirtyTlb(t: Tlb, m: Ram, satp: Word, pages: Pages, vpn: Vpn)
    requires TlbOk(t, m, satp, pages) && t[vpn % 64].at < |m| && IsD(m[t[vpn % 64].at])
    ensures TlbOk(t[vpn % 64 := t[vpn % 64].(dirty := true)], m, satp, pages)
  {
    hide Walk, IsR, IsW, IsX, IsA, IsD, Base;
  }

  // The first write through an entry marks the page as the reference does.
  lemma FirstWrite(m: Ram, k: nat)
    requires k < |m| && IsA(m[k])
    ensures m[k := SetD(m[k])] == m[k := Touch(m[k], Write)] && IsD(SetD(m[k]))
  {
    SetDKeeps(m[k]);
  }
}
