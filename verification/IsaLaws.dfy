// What the instruction semantics mean, said without them: memory byte by byte, words bit by bit,
// products and quotients as equations, compressed instructions by what they stand for.
module IsaLaws {
  import opened Arith
  import opened Word32
  import opened Isa
  import opened Blocks

  // ----- memory -----

  // The bytes an access touches.
  function Width(op: Op): (n: Word)
    ensures n == 1 || n == 2 || n == 4
  {
    match op
    case Lb | Lbu | Sb => 1
    case Lh | Lhu | Sh => 2
    case _ => 4
  }

  // The byte `k` of a word, the lowest first.
  function Digit(v: Word, k: Word): Byte
    requires k < 4
  {
    if k == 0 then v % 0x100 else if k == 1 then v / 0x100 % 0x100 else if k == 2 then v / 0x1_0000 % 0x100 else v / 0x100_0000
  }

  lemma Digits(v: Word)
    ensures v == Digit(v, 0) + 0x100 * Digit(v, 1) + 0x1_0000 * Digit(v, 2) + 0x100_0000 * Digit(v, 3)
    ensures v % 0x1_0000 == Digit(v, 0) + 0x100 * Digit(v, 1)
  {
  }

  lemma OffsetIs(a: Word, b: Word, k: Word)
    requires k < 4
    ensures Plus(a, k) == b <==> Minus(b, a) == k
  {
  }

  lemma HalvesOf(v: Word)
    ensures Digit(v, 2) == v / 0x1_0000 % 0x100 && Digit(v, 3) == v / 0x1_0000 / 0x100 % 0x100
  {
  }

  lemma PlusTwoOne(a: Word)
    ensures Plus(Plus(a, 2), 1) == Plus(a, 3) && Plus(a, 0) == a
  {
    PlusAssociates(a, 2, 1);
    assert Plus(2, 1) == 3;
  }

  // A store changes exactly the bytes it covers, around the end of memory if need be, and leaves
  // in them the low bytes of the value.
  lemma StoredBytes(op: Op, m: Memory, a: Word, v: Word, b: Word)
    requires IsStore(op)
    ensures
      var k := Minus(b, a);
      ByteAt(Stored(op, m, a, v), b) == if k < Width(op) then Digit(v, k) else ByteAt(m, b)
  {
    hide Minus, Digit, ClassOf, WriteByte, WriteHalf, WriteWord, ByteAt, Stored, Width, Plus;
    StoreOps(op);
    StoredIs(op, m, a, v);
    WidthIs(op);
    OffsetIs(a, b, 0);
    PlusTwoOne(a);
    LowDigits(v);
    if op == Sb {
      ByteWritten(m, a, v, b);
    } else if op == Sh {
      HalfWritten(m, a, v, b);
    } else {
      WordWritten(m, a, v, b);
    }
  }

  lemma StoredIs(op: Op, m: Memory, a: Word, v: Word)
    requires op == Sb || op == Sh || op == Sw || op == Csw || op == Cswsp
    ensures Stored(op, m, a, v) ==
      if op == Sb then WriteByte(m, a, v) else if op == Sh then WriteHalf(m, a, v) else WriteWord(m, a, v)
  {
    hide WriteByte, WriteHalf, WriteWord;
  }

  lemma WidthIs(op: Op)
    ensures op == Sb ==> Width(op) == 1
    ensures op == Sh ==> Width(op) == 2
    ensures op == Sw || op == Csw || op == Cswsp ==> Width(op) == 4
  {
  }

  lemma ByteWritten(m: Memory, a: Word, v: int, b: Word)
    ensures ByteAt(WriteByte(m, a, v), b) == if b == a then v % 0x100 else ByteAt(m, b)
  {
  }

  lemma HalfWritten(m: Memory, a: Word, v: int, b: Word)
    ensures
      var k := Minus(b, a);
      ByteAt(WriteHalf(m, a, v), b) == if k == 0 then v % 0x100 else if k == 1 then v / 0x100 % 0x100 else ByteAt(m, b)
  {
    hide Plus, Minus;
    PlusTwoOne(a);
    OffsetIs(a, b, 0);
    OffsetIs(a, b, 1);
  }

  lemma WordWritten(m: Memory, a: Word, v: Word, b: Word)
    ensures
      var k := Minus(b, a);
      ByteAt(WriteWord(m, a, v), b) == if k < 4 then Digit(v, k) else ByteAt(m, b)
  {
    hide Plus, Minus, WriteHalf, Digit, ByteAt;
    HalfWritten(m, a, v, b);
    HalfWritten(WriteHalf(m, a, v), Plus(a, 2), v / 0x1_0000, b);
    TwoFurther(a, b);
    LowDigits(v);
    HalvesOf(v);
  }

  lemma TwoFurther(a: Word, b: Word)
    ensures Minus(b, Plus(a, 2)) == 0 <==> Minus(b, a) == 2
    ensures Minus(b, Plus(a, 2)) == 1 <==> Minus(b, a) == 3
  {
    hide Plus, Minus;
    PlusTwoOne(a);
    PlusTwoOne(Plus(a, 2));
    OffsetIs(Plus(a, 2), b, 0);
    OffsetIs(Plus(a, 2), b, 1);
    OffsetIs(a, b, 2);
    OffsetIs(a, b, 3);
  }

  lemma LowDigits(v: Word)
    ensures Digit(v, 0) == v % 0x100 && Digit(v, 1) == v / 0x100 % 0x100
  {
  }

  lemma StoreOps(op: Op)
    requires IsStore(op)
    ensures op == Sb || op == Sh || op == Sw || op == Csw || op == Cswsp
  {
  }

  // A load puts the bytes it covers together, the lowest first; the signed loads read the result
  // in two's complement.
  lemma LoadedBytes(m: Memory, a: Word)
    ensures
      var b0, b1, b2, b3 := ByteAt(m, a), ByteAt(m, Plus(a, 1)), ByteAt(m, Plus(a, 2)), ByteAt(m, Plus(a, 3));
      && Loaded(Lbu, m, a) == b0 && Signed(Loaded(Lb, m, a)) == (if b0 < 0x80 then b0 else b0 - 0x100)
      && Loaded(Lhu, m, a) == b0 + 0x100 * b1
      && Signed(Loaded(Lh, m, a)) == (if b1 < 0x80 then b0 + 0x100 * b1 else b0 + 0x100 * b1 - 0x1_0000)
      && Loaded(Lw, m, a) == b0 + 0x100 * b1 + 0x1_0000 * b2 + 0x100_0000 * b3
  {
    hide Plus, Signed, ByteAt, Loaded;
    LoadsAre(m, a);
    PlusTwoOne(a);
    ExtendsMean(ByteAt(m, a));
    ExtendsMean(ReadHalf(m, a));
    HalfDigits(ByteAt(m, a), ByteAt(m, Plus(a, 1)));
  }

  lemma LoadsAre(m: Memory, a: Word)
    ensures Loaded(Lbu, m, a) == ByteAt(m, a) && Loaded(Lb, m, a) == Extend8(ByteAt(m, a))
    ensures Loaded(Lhu, m, a) == ReadHalf(m, a) && Loaded(Lh, m, a) == Extend16(ReadHalf(m, a))
    ensures Loaded(Lw, m, a) == ReadWord(m, a)
  {
    hide ReadHalf, ReadWord, Extend8, Extend16;
  }

  lemma HalfDigits(lo: Byte, hi: Byte)
    ensures
      var h := lo + 0x100 * hi;
      lo % 0x100 == lo && h % 0x1_0000 == h && (h < 0x8000 <==> hi < 0x80)
  {
  }

  // Sign extension.
  lemma ExtendsMean(v: Word)
    ensures Signed(Extend8(v)) == if v % 0x100 < 0x80 then v % 0x100 else v % 0x100 - 0x100
    ensures Signed(Extend16(v)) == if v % 0x1_0000 < 0x8000 then v % 0x1_0000 else v % 0x1_0000 - 0x1_0000
  {
  }

  // What was stored is loaded back, at every address.
  lemma StoreThenLoad(m: Memory, a: Word, v: Word)
    ensures Loaded(Lw, Stored(Sw, m, a, v), a) == v
    ensures Loaded(Lhu, Stored(Sh, m, a, v), a) == v % 0x1_0000
    ensures Loaded(Lbu, Stored(Sb, m, a, v), a) == v % 0x100
    ensures (Signed(Loaded(Lh, Stored(Sh, m, a, v), a)) - v) % 0x1_0000 == 0
    ensures -0x8000 <= Signed(Loaded(Lh, Stored(Sh, m, a, v), a)) < 0x8000
    ensures (Signed(Loaded(Lb, Stored(Sb, m, a, v), a)) - v) % 0x100 == 0
    ensures -0x80 <= Signed(Loaded(Lb, Stored(Sb, m, a, v), a)) < 0x80
  {
    hide Loaded, Stored, ByteAt, Plus, Minus, Signed, Digit, ClassOf;
    StoreClass();
    WidthOf();
    Digits(v);
    LowDigits(v);
    SelfOffsets(a);
    StoredAround(Sw, m, a, v);
    StoredAround(Sh, m, a, v);
    StoredAround(Sb, m, a, v);
    LoadedBytes(Stored(Sw, m, a, v), a);
    LoadedBytes(Stored(Sh, m, a, v), a);
    LoadedBytes(Stored(Sb, m, a, v), a);
    SignedRest(v);
  }

  lemma StoreClass()
    ensures IsStore(Sb) && IsStore(Sh) && IsStore(Sw)
  {
  }

  lemma WidthOf()
    ensures Width(Sb) == 1 && Width(Sh) == 2 && Width(Sw) == 4
  {
  }

  lemma SelfOffsets(a: Word)
    ensures Minus(a, a) == 0 && Minus(Plus(a, 1), a) == 1 && Minus(Plus(a, 2), a) == 2 && Minus(Plus(a, 3), a) == 3
  {
    hide Plus, Minus;
    PlusTwoOne(a);
    OffsetIs(a, a, 0);
    OffsetIs(a, Plus(a, 1), 1);
    OffsetIs(a, Plus(a, 2), 2);
    OffsetIs(a, Plus(a, 3), 3);
  }

  lemma StoredAround(op: Op, m: Memory, a: Word, v: Word)
    requires IsStore(op)
    ensures
      var t := Stored(op, m, a, v);
      && ByteAt(t, a) == Digit(v, 0) && (Width(op) >= 2 ==> ByteAt(t, Plus(a, 1)) == Digit(v, 1))
      && (Width(op) == 4 ==> ByteAt(t, Plus(a, 2)) == Digit(v, 2) && ByteAt(t, Plus(a, 3)) == Digit(v, 3))
  {
    hide Stored, ByteAt, Plus, Minus, Digit, ClassOf, Width;
    SelfOffsets(a);
    StoredBytes(op, m, a, v, a);
    StoredBytes(op, m, a, v, Plus(a, 1));
    StoredBytes(op, m, a, v, Plus(a, 2));
    StoredBytes(op, m, a, v, Plus(a, 3));
  }

  lemma SignedRest(v: Word)
    ensures
      var b, h := v % 0x100, v % 0x1_0000;
      && ((if b < 0x80 then b else b - 0x100) - v) % 0x100 == 0
      && ((if v / 0x100 % 0x100 < 0x80 then h else h - 0x1_0000) - v) % 0x1_0000 == 0
      && (v / 0x100 % 0x100 < 0x80 <==> h < 0x8000)
  {
    LessMultiple(v, 0x100);
    LessMultiple(v, 0x1_0000);
    Digits(v);
  }

  lemma LessMultiple(v: Word, d: nat)
    requires 1 <= d
    ensures (v % d - v) % d == 0 && (v % d - d - v) % d == 0
  {
    DivMod(v, d);
    var q := v / d;
    assert d * -q == -(d * q) && d * (-q - 1) == -(d * q) - d;
    DivUnique(v % d - v, d, -q, 0);
    DivUnique(v % d - d - v, d, -q - 1, 0);
  }

  // An access is misaligned when its address is not a multiple of its width.
  lemma MisalignedMeans(op: Op, a: Word)
    ensures Misaligned(op, a) <==> a % Width(op) != 0
  {
  }

  // ----- words -----

  // The two readings of a word differ by a multiple of 2^32.
  lemma SignedMeans(a: Word)
    ensures -0x8000_0000 <= Signed(a) < 0x8000_0000 && (Signed(a) - a) % MOD == 0
  {
  }

  // A word in the range of a signed one is the only one with that reading.
  lemma SignedUnique(a: Word, n: int)
    requires -0x8000_0000 <= n < 0x8000_0000 && (n - a) % MOD == 0
    ensures Signed(a) == n
  {
  }

  lemma SumsMean(a: Word, b: Word)
    ensures (Plus(a, b) - (a + b)) % MOD == 0 && (Minus(a, b) - (a - b)) % MOD == 0
    ensures Minus(Plus(a, b), b) == a && Plus(Minus(a, b), b) == a
  {
    assert Plus(a, b) == if a + b < MOD then a + b else a + b - MOD;
    assert Minus(a, b) == if a >= b then a - b else a - b + MOD;
  }

  function BitAt(a: nat, k: nat): (r: nat)
    ensures r <= 1
  {
    a / Pow2(k) % 2
  }

  lemma {:induction false} BitwiseBit(l: Logic, a: nat, b: nat, w: nat, k: nat)
    requires k < w
    ensures BitAt(Bitwise(l, a, b, w), k) == BitOf(l, BitAt(a, k), BitAt(b, k))
    decreases k
  {
    hide BitOf;
    var r := Bitwise(l, a, b, w);
    var rest, bit := Bitwise(l, a / 2, b / 2, w - 1), BitOf(l, a % 2, b % 2);
    assert r == 2 * rest + bit;
    BitDown(r, k);
    BitDown(a, k);
    BitDown(b, k);
    DivUnique(r, 2, rest, bit);
    if k > 0 { BitwiseBit(l, a / 2, b / 2, w - 1, k - 1); }
  }

  lemma BitDown(a: nat, k: nat)
    ensures k == 0 ==> BitAt(a, k) == a % 2
    ensures k > 0 ==> BitAt(a, k) == BitAt(a / 2, k - 1)
  {
    hide Pow2;
    if k == 0 {
      Pow2Zero();
      DivUnique(a, 1, a, 0);
    } else {
      Pow2Step(k);
      HalveDiv(a, Pow2(k - 1));
    }
  }

  // The bitwise operations, bit by bit.
  lemma LogicMeans(a: Word, b: Word, k: nat)
    requires k < 32
    ensures BitAt(And(a, b), k) == 1 <==> BitAt(a, k) == 1 && BitAt(b, k) == 1
    ensures BitAt(Or(a, b), k) == 1 <==> BitAt(a, k) == 1 || BitAt(b, k) == 1
    ensures BitAt(Xor(a, b), k) == 1 <==> BitAt(a, k) != BitAt(b, k)
  {
    hide BitAt, Bitwise;
    BitwiseBit(LogicAnd, a, b, 32, k);
    BitwiseBit(LogicOr, a, b, 32, k);
    BitwiseBit(LogicXor, a, b, 32, k);
  }

  // The shifts multiply and divide by powers of two; the arithmetic one rounds down.
  lemma ShiftsMean(a: Word, n: Word)
    requires n < 32
    ensures
      var p := Pow2(n);
      && (Shl(a, n) - a * p) % MOD == 0
      && p * Shr(a, n) <= a < p * Shr(a, n) + p
      && p * Signed(Sar(a, n)) <= Signed(a) < p * Signed(Sar(a, n)) + p
  {
    hide Pow2, Signed;
    var p := Pow2(n);
    DivMod(a, p);
    WrapDiffers(a * p);
    var q := Signed(a) / p;
    SignedMeans(a);
    QuotientInside(Signed(a), p);
    WrapDiffers(q);
    SignedUnique(Wrap(q), q);
  }

  lemma WrapDiffers(n: int)
    ensures (Wrap(n) - n) % MOD == 0 && (n - Wrap(n)) % MOD == 0
  {
    var q, r := n / MOD, n % MOD;
    DivUnique(r - n, MOD, -q, 0);
    DivUnique(n - r, MOD, q, 0);
  }

  lemma QuotientInside(n: int, p: nat)
    requires 1 <= p && -0x8000_0000 <= n < 0x8000_0000
    ensures -0x8000_0000 <= n / p < 0x8000_0000 && p * (n / p) <= n < p * (n / p) + p
  {
    var q := n / p;
    assert n == p * q + n % p;
    if q >= 0x8000_0000 { MulGrows(q, p); }
    if q < -0x8000_0000 { MulGrows(-q, p); }
  }

  lemma MulGrows(q: int, p: nat)
    requires 1 <= p && 0 <= q
    ensures q <= p * q && p * -q == -(p * q)
  {
  }

  // ----- arithmetic instructions -----

  // The register forms of the base set.
  lemma SumMeans(a: Word, b: Word)
    ensures (AluReg(Add, a, b) - (a + b)) % MOD == 0 && (AluReg(Sub, a, b) - (a - b)) % MOD == 0
    ensures AluReg(Slt, a, b) == (if Signed(a) < Signed(b) then 1 else 0) && AluReg(Sltu, a, b) == if a < b then 1 else 0
  {
    hide Plus, Minus, Signed;
    SumsMean(a, b);
  }

  lemma BitsMean(a: Word, b: Word, k: nat)
    requires k < 32
    ensures BitAt(AluReg(AndR, a, b), k) == 1 <==> BitAt(a, k) == 1 && BitAt(b, k) == 1
    ensures BitAt(AluReg(OrR, a, b), k) == 1 <==> BitAt(a, k) == 1 || BitAt(b, k) == 1
    ensures BitAt(AluReg(XorR, a, b), k) == 1 <==> BitAt(a, k) != BitAt(b, k)
  {
    hide And, Or, Xor, BitAt;
    LogicMeans(a, b, k);
  }

  lemma ShiftMeans(a: Word, b: Word)
    ensures
      var p := Pow2(b % 32);
      && (AluReg(Sll, a, b) - a * p) % MOD == 0
      && p * AluReg(Srl, a, b) <= a < p * AluReg(Srl, a, b) + p
      && p * Signed(AluReg(Sra, a, b)) <= Signed(a) < p * Signed(AluReg(Sra, a, b)) + p
  {
    hide Shl, Shr, Sar, Signed, Pow2;
    ShiftsMean(a, b % 32);
  }

  // The register form an immediate instruction shares its result with.
  function RegForm(op: Op): Op {
    match op
    case Addi => Add
    case Slti => Slt
    case Sltiu => Sltu
    case Xori => XorR
    case Ori => OrR
    case Andi => AndR
    case Slli => Sll
    case Srli => Srl
    case _ => Sra
  }

  lemma ImmediateMeans(op: Op, a: Word, imm: Word)
    requires IsAluImm(op)
    ensures AluImm(op, a, imm) == AluReg(RegForm(op), a, imm)
  {
    hide And, Or, Xor, Shl, Shr, Sar, Plus;
  }

  // The four products: the low word is common, and each high word completes it to the product of
  // the operands as it reads them.
  lemma MulMeans(a: Word, b: Word)
    ensures MOD * Signed(AluReg(Mulh, a, b)) + AluReg(Mul, a, b) == Signed(a) * Signed(b)
    ensures MOD * Signed(AluReg(Mulhsu, a, b)) + AluReg(Mul, a, b) == Signed(a) * b
    ensures MOD * AluReg(Mulhu, a, b) + AluReg(Mul, a, b) == a * b
  {
    hide Signed, High, Wrap;
    var p, q, r := Signed(a) * Signed(b), Signed(a) * b, a * b;
    ProductBounds(a, b);
    LowWords(a, b);
    HighSigned(p);
    HighSigned(q);
    HighUnsigned(r);
  }

  lemma ProductBounds(a: Word, b: Word)
    ensures -0x8000_0000_0000_0000 <= Signed(a) * Signed(b) < 0x8000_0000_0000_0000
    ensures -0x8000_0000_0000_0000 <= Signed(a) * b < 0x8000_0000_0000_0000
    ensures 0 <= a * b < MOD64
  {
    hide Signed;
    SignedMeans(a);
    SignedMeans(b);
    Between(Signed(a), Signed(b), 0x8000_0000, 0x8000_0000);
    Between(Signed(a), b, 0x8000_0000, MOD - 1);
    Between(a, b, MOD - 1, MOD - 1);
  }

  lemma Between(x: int, y: int, m: nat, n: nat)
    requires 0 - m <= x <= m && 0 - n <= y <= n
    ensures -(m * n) <= x * y <= m * n && (0 <= x && 0 <= y ==> 0 <= x * y)
  {
    if 0 <= y {
      Scale(x, m, y);
      Scale(y, n, m);
    } else {
      Scale(x, m, -y);
      Scale(-y, n, m);
      assert x * y == -(x * -y);
    }
  }

  lemma Scale(x: int, m: nat, y: nat)
    requires 0 - m <= x <= m
    ensures -(m * y) <= x * y <= m * y && (0 <= x ==> 0 <= x * y)
  {
    assert (m - x) * y >= 0 && (m + x) * y >= 0;
    assert (m - x) * y == m * y - x * y && (m + x) * y == m * y + x * y;
  }

  lemma LowWords(a: Word, b: Word)
    ensures Wrap(Signed(a) * b) == Wrap(Signed(a) * Signed(b)) && Wrap(a * b) == Wrap(Signed(a) * Signed(b))
  {
    var c, d := if a < 0x8000_0000 then 0 else 1, if b < 0x8000_0000 then 0 else 1;
    var x, y := Signed(a), Signed(b);
    assert a == x + MOD * c && b == y + MOD * d;
    assert x * b == x * y + MOD * (x * d);
    assert a * b == x * b + MOD * (c * b);
    WrapShift(x * y, x * d);
    WrapShift(x * b, c * b);
  }

  lemma WrapShift(n: int, k: int)
    ensures Wrap(n + MOD * k) == Wrap(n)
  {
    DivMod(n, MOD);
    DivUnique(n + MOD * k, MOD, n / MOD + k, n % MOD);
  }

  lemma HighUnsigned(p: int)
    requires 0 <= p < MOD64
    ensures MOD * High(p) + Wrap(p) == p
  {
  }

  lemma HighSigned(p: int)
    requires -0x8000_0000_0000_0000 <= p < 0x8000_0000_0000_0000
    ensures MOD * Signed(High(p)) + Wrap(p) == p
  {
    if p < 0 { assert p % MOD64 == p + MOD64; } else { assert p % MOD64 == p; }
  }

  // Division: by zero all ones and the dividend, otherwise the quotient and the remainder with the
  // sign of the dividend; the one quotient that does not fit wraps.
  lemma DivMeans(a: Word, b: Word)
    ensures b == 0 ==> AluReg(Div, a, b) == MOD - 1 && AluReg(Rem, a, b) == a
    ensures
      var x, y, q, r := Signed(a), Signed(b), Signed(AluReg(Div, a, b)), Signed(AluReg(Rem, a, b));
      b != 0 ==>
        && (if x == -0x8000_0000 && y == -1 then q == x && r == 0 else x == y * q + r)
        && Abs(r) < Abs(y) && (r != 0 ==> (r < 0 <==> x < 0))
  {
    hide Signed, TruncDiv, TruncRem, Wrap;
    SignedMeans(a);
    SignedMeans(b);
    SignedZero(a);
    SignedZero(b);
    var x, y := Signed(a), Signed(b);
    if b != 0 {
      if y == -1 && a == 0x8000_0000 {
        SignedOf(a);
      } else {
        DivRemLaw(x, y);
        QuotientFits(a, x, y);
        SignedWrap(TruncDiv(x, y));
        SignedWrap(TruncRem(x, y));
        SignedOf(a);
      }
    }
  }

  lemma SignedZero(a: Word)
    ensures Signed(a) == 0 <==> a == 0
  {
  }

  lemma SignedOf(a: Word)
    ensures Signed(a) == -0x8000_0000 <==> a == 0x8000_0000
    ensures Signed(0) == 0
  {
  }

  lemma SignedWrap(n: int)
    requires -0x8000_0000 <= n < 0x8000_0000
    ensures Signed(Wrap(n)) == n
  {
  }

  lemma QuotientFits(a: Word, x: int, y: int)
    requires x == Signed(a) && y != 0 && -0x8000_0000 <= y < 0x8000_0000 && !(y == -1 && a == 0x8000_0000)
    ensures -0x8000_0000 <= TruncDiv(x, y) < 0x8000_0000 && -0x8000_0000 <= TruncRem(x, y) < 0x8000_0000
  {
    hide Signed;
    SignedMeans(a);
    SignedOf(a);
    var m, d := Abs(x), Abs(y);
    DivMod(m, d);
    DivLe(m, d);
    if d > 1 && m == 0x8000_0000 { HalfAtMost(m, d); }
  }

  lemma HalfAtMost(m: nat, d: nat)
    requires 2 <= d
    ensures 2 * (m / d) <= m
  {
    var q := m / d;
    DivMod(m, d);
    DivLe(m, d);
    Scale(2, d, q);
  }

  lemma DivUnsignedMeans(a: Word, b: Word)
    ensures b == 0 ==> AluReg(Divu, a, b) == MOD - 1 && AluReg(Remu, a, b) == a
    ensures b != 0 ==> a == b * AluReg(Divu, a, b) + AluReg(Remu, a, b) && AluReg(Remu, a, b) < b
  {
    if b != 0 { DivMod(a, b); }
  }

  // The conditions of the branches, in complementary pairs.
  lemma BranchMeans(a: Word, b: Word)
    ensures BranchTaken(Beq, a, b) <==> a == b
    ensures BranchTaken(Blt, a, b) <==> Signed(a) < Signed(b)
    ensures BranchTaken(Bltu, a, b) <==> a < b
    ensures BranchTaken(Bne, a, b) == !BranchTaken(Beq, a, b)
    ensures BranchTaken(Bge, a, b) == !BranchTaken(Blt, a, b)
    ensures BranchTaken(Bgeu, a, b) == !BranchTaken(Bltu, a, b)
  {
    hide Signed;
  }

  // ----- loads and stores -----

  // The address of an access: base plus displacement, the stack pointer for the SP forms.
  function Accessed(i: Insn, x: Regs): Word {
    Wrap(x[if i.op == Clwsp || i.op == Cswsp then 2 else i.rs1] + i.imm)
  }

  lemma AccessedIs(i: Insn, x: Regs)
    ensures Accessed(i, x) == Plus(x[BaseReg(i)], i.imm)
  {
  }

  // Unless an access traps for being misaligned, a load sets its destination and a store changes
  // memory, and nothing else changes but the PC.
  lemma LoadMeans(i: Insn, s: Cpu, lenient: bool)
    requires IsLoad(i.op)
    ensures
      var addr := Accessed(i, s.x);
      Act(i, s, lenient) ==
        if !lenient && addr % Width(i.op) != 0 then Leave(Trap(LoadMisaligned, addr, Len(i.op) == 2, s))
        else Fall(Cpu(s.x[i.rd := Loaded(i.op, s.mem, addr)], Plus(s.pc, Len(i.op)), s.cycle, s.mem))
  {
    hide Loaded, ClassOf, Misaligned, Len, Width, Control, Computed, Accessed, Plus, BaseReg, Target;
    AccessedIs(i, s.x);
    MisalignedMeans(i.op, Accessed(i, s.x));
  }

  lemma StoreMeans(i: Insn, s: Cpu, lenient: bool)
    requires IsStore(i.op)
    ensures
      var addr := Accessed(i, s.x);
      Act(i, s, lenient) ==
        if !lenient && addr % Width(i.op) != 0 then Leave(Trap(StoreMisaligned, addr, Len(i.op) == 2, s))
        else Fall(Cpu(s.x, Plus(s.pc, Len(i.op)), s.cycle, Stored(i.op, s.mem, addr, s.x[i.rs2])))
  {
    hide Stored, ClassOf, Misaligned, Len, Width, Control, Computed, Accessed, Plus, BaseReg, Target;
    AccessedIs(i, s.x);
    MisalignedMeans(i.op, Accessed(i, s.x));
  }

  // ----- compressed instructions -----

  predicate IsCompressed(op: Op) {
    match op
    case Caddi4spn | Clw | Csw | Cnop | Caddi | Cjal | Cli | Caddi16sp | Clui | Csrli | Csrai | Candi | Csub => true
    case Cxor | Cor | Cand | Cj | Cbeqz | Cbnez | Cslli | Clwsp | Cjr | Cmv | Cjalr | Cadd | Cswsp => true
    case _ => false
  }

  // The fields the decoder gives compressed instructions.
  predicate CompressedForm(i: Insn) {
    && IsCompressed(i.op)
    && (i.op == Caddi4spn ==> i.imm < 0x1_0000)
    && (i.op == Caddi ==> Extend16(i.imm) == i.imm)
    && (i.op == Caddi16sp ==> i.rd == SP)
    && (i.op == Csrli || i.op == Csrai ==> i.shamt < 32)
    && (i.op == Cslli ==> i.imm < 32)
  }

  // The instruction a compressed one stands for, as the standard gives it.
  function Expanded(i: Insn): Insn {
    match i.op
    case Caddi4spn => i.(op := Addi, rs1 := SP)
    case Clw => i.(op := Lw)
    case Csw => i.(op := Sw)
    case Caddi => i.(op := Addi, rs1 := i.rd)
    case Cli => i.(op := Addi, rs1 := ZERO)
    case Caddi16sp => i.(op := Addi, rd := SP, rs1 := SP)
    case Clui => i.(op := Lui)
    case Csrli => i.(op := Srli, rd := i.rs1, imm := i.shamt)
    case Csrai => i.(op := Srai, rd := i.rs1, imm := i.shamt)
    case Candi => i.(op := Andi, rd := i.rs1)
    case Csub => i.(op := Sub)
    case Cxor => i.(op := XorR)
    case Cor => i.(op := OrR)
    case Cand => i.(op := AndR)
    case Cadd => i.(op := Add)
    case Cmv => i.(op := Add, rs1 := ZERO)
    case Cslli => i.(op := Slli, rs1 := i.rd)
    case Clwsp => i.(op := Lw, rs1 := SP)
    case Cswsp => i.(op := Sw, rs1 := SP)
    case Cj => i.(op := Jal, rd := ZERO)
    case Cjal => i.(op := Jal, rd := RA)
    case Cjr => i.(op := Jalr, rd := ZERO, imm := 0)
    case Cjalr => i.(op := Jalr, rd := RA, imm := 0)
    case Cbeqz => i.(op := Beq, rs2 := ZERO)
    case Cbnez => i.(op := Bne, rs2 := ZERO)
    case _ => i.(op := Nop)
  }

  lemma Lengths(op: Op)
    ensures Len(op) == if IsCompressed(op) then 2 else 4
  {
  }

  lemma ExpandedIsBase(i: Insn)
    ensures !IsCompressed(Expanded(i).op)
  {
  }

  lemma ImmComputed(i: Insn, x: Regs, pc: Word)
    requires IsAluImm(i.op)
    ensures IsComputation(i.op) && Target(i) == i.rd && Computed(i, x, pc) == AluImm(i.op, x[i.rs1], i.imm)
  {
    hide AluImm;
  }

  lemma RegComputed(i: Insn, x: Regs, pc: Word)
    requires IsAluReg(i.op)
    ensures IsComputation(i.op) && Target(i) == i.rd && Computed(i, x, pc) == AluReg(i.op, x[i.rs1], x[i.rs2])
  {
    hide AluReg;
  }

  // A computation has the value and the destination of what it stands for.
  ghost predicate Expands(i: Insn, x: Regs, pc: Word) {
    var e := Expanded(i);
    IsComputation(e.op) && Target(e) == Target(i) && Computed(e, x, pc) == Computed(i, x, pc)
  }

  lemma SumForms(i: Insn)
    ensures i.op == Caddi4spn ==> Expanded(i) == i.(op := Addi, rs1 := SP)
    ensures i.op == Caddi16sp ==> Expanded(i) == i.(op := Addi, rd := SP, rs1 := SP)
    ensures i.op == Caddi ==> Expanded(i) == i.(op := Addi, rs1 := i.rd)
    ensures i.op == Cli ==> Expanded(i) == i.(op := Addi, rs1 := ZERO)
  {
  }

  lemma SumValues(i: Insn, x: Regs, pc: Word)
    ensures i.op == Caddi4spn ==> Computed(i, x, pc) == Plus(x[SP], i.imm % 0x1_0000) && Target(i) == i.rd
    ensures i.op == Caddi16sp ==> Computed(i, x, pc) == Plus(x[i.rd], i.imm) && Target(i) == i.rd
    ensures i.op == Caddi ==> Computed(i, x, pc) == Plus(x[i.rd], Extend16(i.imm)) && Target(i) == i.rd
    ensures i.op == Cli ==> Computed(i, x, pc) == i.imm && Target(i) == i.rd
  {
    hide Plus, Extend16, AluImm, AluReg;
  }

  lemma SumExpands(i: Insn, x: Regs, pc: Word)
    requires CompressedForm(i) && x[0] == 0
    requires i.op == Caddi4spn || i.op == Caddi16sp || i.op == Caddi || i.op == Cli
    ensures Expands(i, x, pc)
  {
    hide CompressedForm, Computed, Target, Expanded, ClassOf, AluImm, Plus, Extend16;
    ImmediateClass();
    SumForms(i);
    SumValues(i, x, pc);
    SumFields(i);
    ImmComputed(Expanded(i), x, pc);
    ImmediateSum(x[Expanded(i).rs1], i.imm);
    ZeroPlusAny(i.imm);
  }

  lemma SumFields(i: Insn)
    requires CompressedForm(i)
    ensures i.op == Caddi4spn ==> i.imm % 0x1_0000 == i.imm
    ensures i.op == Caddi16sp ==> i.rd == SP
    ensures i.op == Caddi ==> Extend16(i.imm) == i.imm
  {
    hide IsCompressed, Extend16;
  }

  lemma ImmediateSum(a: Word, imm: Word)
    ensures AluImm(Addi, a, imm) == Plus(a, imm)
  {
    hide Plus;
  }

  lemma ImmediateShifts(a: Word, n: Word)
    requires n < 32
    ensures AluImm(Slli, a, n) == Shl(a, n) && AluImm(Srli, a, n) == Shr(a, n) && AluImm(Srai, a, n) == Sar(a, n)
  {
    hide Shl, Shr, Sar;
  }

  lemma ShiftForms(i: Insn)
    ensures i.op == Csrli ==> Expanded(i) == i.(op := Srli, rd := i.rs1, imm := i.shamt)
    ensures i.op == Csrai ==> Expanded(i) == i.(op := Srai, rd := i.rs1, imm := i.shamt)
    ensures i.op == Cslli ==> Expanded(i) == i.(op := Slli, rs1 := i.rd)
  {
  }

  lemma RightValues(i: Insn, x: Regs, pc: Word)
    ensures i.op == Csrli && i.shamt < 32 ==> Computed(i, x, pc) == Shr(x[i.rs1], i.shamt)
    ensures i.op == Csrai && i.shamt < 32 ==> Computed(i, x, pc) == SmearRight(x[i.rs1], i.shamt)
  {
    hide Shl, Shr, SmearRight, AluImm, AluReg, IsAluImm, Extend16, Plus, And;
  }

  lemma LeftValue(i: Insn, x: Regs, pc: Word)
    requires i.op == Cslli && i.imm < 32
    ensures Computed(i, x, pc) == Shl(x[i.rd], i.imm)
  {
    hide Shl, AluImm, AluReg, IsAluImm, Extend16, Plus, And;
  }

  lemma ShiftTargets(i: Insn)
    requires i.op == Csrli || i.op == Csrai || i.op == Cslli
    ensures Target(i) == if i.op == Cslli then i.rd else i.rs1
  {
  }

  lemma ShiftExpands(i: Insn, x: Regs, pc: Word)
    requires ((i.op == Csrli || i.op == Csrai) && i.shamt < 32) || (i.op == Cslli && i.imm < 32)
    ensures Expands(i, x, pc)
  {
    hide Shl, Shr, Sar, SmearRight, ClassOf, Computed, Target, Expanded, AluImm;
    ShiftForms(i);
    ImmediateShifts(x[Expanded(i).rs1], Expanded(i).imm);
    ShiftClass(Expanded(i).op);
    if i.op == Cslli { LeftValue(i, x, pc); } else { RightValues(i, x, pc); }
    ShiftTargets(i);
    ImmComputed(Expanded(i), x, pc);
    if i.op == Csrai { SmearIsArithmetic(x[i.rs1], i.shamt); }
  }

  lemma ShiftClass(op: Op)
    requires op == Slli || op == Srli || op == Srai
    ensures IsAluImm(op)
  {
  }

  lemma ConstantExpands(i: Insn, x: Regs, pc: Word)
    requires i.op == Candi || i.op == Clui
    ensures Expands(i, x, pc)
  {
    hide And, AluReg;
  }

  lemma RegisterExpands(i: Insn, x: Regs, pc: Word)
    requires i.op == Csub || i.op == Cxor || i.op == Cor || i.op == Cand || i.op == Cadd
    ensures Expands(i, x, pc)
  {
    hide Expanded, ClassOf, AluReg, Computed, Target;
    RegisterForm(i, x[i.rs1], x[i.rs2]);
    RegComputed(i, x, pc);
    RegComputed(Expanded(i), x, pc);
  }

  lemma RegisterForm(i: Insn, a: Word, b: Word)
    requires i.op == Csub || i.op == Cxor || i.op == Cor || i.op == Cand || i.op == Cadd
    ensures
      var e := Expanded(i);
      && e == i.(op := e.op) && AluReg(e.op, a, b) == AluReg(i.op, a, b)
      && IsAluReg(i.op) && IsAluReg(e.op)
  {
    hide AluReg, IsAluReg;
    SameRegister(i.op, Expanded(i).op, a, b);
  }

  lemma SameRegister(c: Op, op: Op, a: Word, b: Word)
    requires
      || (c == Csub && op == Sub) || (c == Cxor && op == XorR) || (c == Cor && op == OrR)
      || (c == Cand && op == AndR) || (c == Cadd && op == Add)
    ensures AluReg(c, a, b) == AluReg(op, a, b) && IsAluReg(c) && IsAluReg(op)
  {
    hide AluReg, IsAluReg;
    RegisterOp(c);
    RegisterOp(op);
    SubPair(a, b);
    XorPair(a, b);
    OrPair(a, b);
    AndPair(a, b);
    AddPair(a, b);
  }

  lemma RegisterOp(op: Op)
    requires
      || op == Csub || op == Cxor || op == Cor || op == Cand || op == Cadd
      || op == Sub || op == XorR || op == OrR || op == AndR || op == Add
    ensures IsAluReg(op)
  {
    assert !IsFused(op) by { hide PlainClass; }
    assert PlainClass(op) == AsRegister by { hide IsFused; }
  }

  lemma SubPair(a: Word, b: Word)
    ensures AluReg(Csub, a, b) == AluReg(Sub, a, b)
  {
    hide Plus, Minus, Xor, Or, And, Shl, Shr, Sar, Wrap, High, TruncDiv, TruncRem, Signed, Quotient, SLess, FromBool;
  }

  lemma XorPair(a: Word, b: Word)
    ensures AluReg(Cxor, a, b) == AluReg(XorR, a, b)
  {
    hide Plus, Minus, Xor, Or, And, Shl, Shr, Sar, Wrap, High, TruncDiv, TruncRem, Signed, Quotient, SLess, FromBool;
  }

  lemma OrPair(a: Word, b: Word)
    ensures AluReg(Cor, a, b) == AluReg(OrR, a, b)
  {
    hide Plus, Minus, Xor, Or, And, Shl, Shr, Sar, Wrap, High, TruncDiv, TruncRem, Signed, Quotient, SLess, FromBool;
  }

  lemma AndPair(a: Word, b: Word)
    ensures AluReg(Cand, a, b) == AluReg(AndR, a, b)
  {
    hide Plus, Minus, Xor, Or, And, Shl, Shr, Sar, Wrap, High, TruncDiv, TruncRem, Signed, Quotient, SLess, FromBool;
  }

  lemma AddPair(a: Word, b: Word)
    ensures AluReg(Cadd, a, b) == AluReg(Add, a, b)
  {
    hide Plus, Minus, Xor, Or, And, Shl, Shr, Sar, Wrap, High, TruncDiv, TruncRem, Signed, Quotient, SLess, FromBool;
  }

  lemma MoveExpands(i: Insn, x: Regs, pc: Word)
    requires i.op == Cmv && x[0] == 0
    ensures Expands(i, x, pc)
  {
    hide Plus, AluImm, ClassOf;
    RegisterClass();
    RegComputed(Expanded(i), x, pc);
    ZeroPlusAny(x[i.rs2]);
  }

  lemma ComputationExpands(i: Insn, x: Regs, pc: Word)
    requires CompressedForm(i) && IsComputation(i.op) && x[0] == 0
    ensures Expands(i, x, pc)
  {
    hide Expands, Extend16, ClassOf;
    CompressedComputations(i.op);
    if i.op == Cmv {
      MoveExpands(i, x, pc);
    } else if i.op == Csrli || i.op == Csrai || i.op == Cslli {
      ShiftExpands(i, x, pc);
    } else if i.op == Candi || i.op == Clui {
      ConstantExpands(i, x, pc);
    } else if i.op == Caddi4spn || i.op == Caddi16sp || i.op == Caddi || i.op == Cli {
      SumExpands(i, x, pc);
    } else {
      RegisterExpands(i, x, pc);
    }
  }

  lemma ZeroPlusAny(v: Word)
    ensures Plus(0, v) == v
  {
  }

  lemma CompressedComputations(op: Op)
    requires IsCompressed(op) && IsComputation(op)
    ensures
      || op == Caddi4spn || op == Caddi || op == Cli || op == Caddi16sp || op == Clui || op == Csrli || op == Csrai
      || op == Candi || op == Csub || op == Cxor || op == Cor || op == Cand || op == Cadd || op == Cmv || op == Cslli
  {
  }

  // The same instruction but for its length: PC behind it, link, and what a trap says of it.
  ghost predicate SameButLength(a: Flow, b: Flow, pc: Word) {
    match a
    case Fall(t) => b.Fall? && t.x == b.cpu.x && t.mem == b.cpu.mem && t.pc == Plus(pc, 2) && b.cpu.pc == Plus(pc, 4)
    case Leave(o) => b.Leave? && o.Trap? && b.outcome == o.(compressed := false) && o.compressed
  }

  lemma CompressedExpands(i: Insn, s: Cpu, lenient: bool)
    requires CompressedForm(i) && !IsBranch(i.op) && s.x[0] == 0
    ensures SameButLength(Act(i, s, lenient), Act(Expanded(i), s, lenient), s.pc)
  {
    hide Computed, Plus, ClassOf, Target, Len, Control, Loaded, Stored, Misaligned, Expanded, Width;
    Lengths(i.op);
    Lengths(Expanded(i).op);
    ExpandedIsBase(i);
    if IsComputation(i.op) {
      ComputationExpands(i, s.x, s.pc);
    } else if IsLoad(i.op) || IsStore(i.op) {
      AccessExpands(i, s, lenient);
    } else {
      NopExpands(i, s, lenient);
    }
  }

  lemma AccessExpands(i: Insn, s: Cpu, lenient: bool)
    requires CompressedForm(i) && (IsLoad(i.op) || IsStore(i.op))
    ensures SameButLength(Act(i, s, lenient), Act(Expanded(i), s, lenient), s.pc)
  {
    hide Act, ClassOf, Expanded, IsCompressed, SameButLength;
    CompressedAccesses(i.op);
    MemoryClass();
    AccessExpanded(i);
    var e := Expanded(i);
    if IsLoad(i.op) { LoadExpands(i, e, s, lenient); } else { StoreExpands(i, e, s, lenient); }
  }

  lemma SameAccess(i: Insn, e: Insn, x: Regs)
    requires i.op == Clw || i.op == Csw || i.op == Clwsp || i.op == Cswsp
    requires (e.op == Lw || e.op == Sw) && e.imm == i.imm
    requires e.rs1 == if i.op == Clwsp || i.op == Cswsp then SP else i.rs1
    ensures Accessed(e, x) == Accessed(i, x)
  {
    hide Wrap;
  }

  lemma LoadExpands(i: Insn, e: Insn, s: Cpu, lenient: bool)
    requires IsLoad(i.op) && IsLoad(e.op) && e.op == Lw
    requires (i.op == Clw && e == i.(op := Lw)) || (i.op == Clwsp && e == i.(op := Lw, rs1 := SP))
    ensures SameButLength(Act(i, s, lenient), Act(e, s, lenient), s.pc)
  {
    hide Act, Plus, IsLoad, Len, Loaded, Width, Accessed;
    SameAccess(i, e, s.x);
    AccessForms(s.mem);
    AccessWidth();
    Lengths(i.op);
    Lengths(e.op);
    LoadMeans(i, s, lenient);
    LoadMeans(e, s, lenient);
  }

  lemma StoreExpands(i: Insn, e: Insn, s: Cpu, lenient: bool)
    requires IsStore(i.op) && IsStore(e.op) && e.op == Sw
    requires (i.op == Csw && e == i.(op := Sw)) || (i.op == Cswsp && e == i.(op := Sw, rs1 := SP))
    ensures SameButLength(Act(i, s, lenient), Act(e, s, lenient), s.pc)
  {
    hide Act, Plus, IsStore, Len, Stored, Width, Accessed;
    SameAccess(i, e, s.x);
    AccessForms(s.mem);
    AccessWidth();
    Lengths(i.op);
    Lengths(e.op);
    StoreMeans(i, s, lenient);
    StoreMeans(e, s, lenient);
  }

  lemma AccessWidth()
    ensures Width(Lw) == Width(Sw) == Width(Clw) == Width(Clwsp) == Width(Csw) == Width(Cswsp)
  {
  }

  lemma AccessExpanded(i: Insn)
    ensures i.op == Clw ==> Expanded(i) == i.(op := Lw)
    ensures i.op == Clwsp ==> Expanded(i) == i.(op := Lw, rs1 := SP)
    ensures i.op == Csw ==> Expanded(i) == i.(op := Sw)
    ensures i.op == Cswsp ==> Expanded(i) == i.(op := Sw, rs1 := SP)
  {
  }

  lemma AccessForms(m: Memory)
    ensures forall a: Word :: Loaded(Clw, m, a) == Loaded(Clwsp, m, a) == Loaded(Lw, m, a)
    ensures forall a: Word, v: Word :: Stored(Csw, m, a, v) == Stored(Cswsp, m, a, v) == Stored(Sw, m, a, v)
  {
  }

  lemma CompressedAccesses(op: Op)
    requires IsCompressed(op) && (IsLoad(op) || IsStore(op))
    ensures op == Clw || op == Clwsp || op == Csw || op == Cswsp
    ensures IsLoad(op) <==> op == Clw || op == Clwsp
  {
  }

  lemma NopExpands(i: Insn, s: Cpu, lenient: bool)
    requires IsCompressed(i.op) && !IsBranch(i.op) && !IsComputation(i.op) && !IsLoad(i.op) && !IsStore(i.op) && s.x[0] == 0
    ensures SameButLength(Act(i, s, lenient), Act(Expanded(i), s, lenient), s.pc)
  {
    hide Plus, ClassOf;
    NotFused(i.op);
    NopOps(i.op);
    NopClass();
    assert s.x[0 := 0] == s.x;
  }

  lemma NotFused(op: Op)
    requires IsCompressed(op)
    ensures !IsFused(op)
  {
  }

  // Branches fall through behind themselves, and go to the same target.
  lemma CompressedBranches(i: Insn, s: Cpu)
    requires s.x[0] == 0 && (i.op == Cbeqz || i.op == Cbnez)
    ensures
      var a, b := Control(i, s), Control(Expanded(i), s);
      if a.Fall? then a == Fall(s.(pc := Plus(s.pc, 2))) && b == Fall(s.(pc := Plus(s.pc, 4))) else a == b
  {
    hide Plus;
  }

  // Jumps link the address behind them. Indirect jumps keep the lowest bit of their target, which
  // the standard clears.
  lemma CompressedJumps(i: Insn, s: Cpu)
    requires i.op == Cj || i.op == Cjal || i.op == Cjr || i.op == Cjalr
    ensures
      var a, b := Final(Control(i, s)), Final(Control(Expanded(i), s));
      && Control(i, s) == Leave(Done(a)) && Control(Expanded(i), s) == Leave(Done(b)) && a.mem == b.mem
      && a.x == (if i.op == Cjal || i.op == Cjalr then b.x[1 := Plus(s.pc, 2)] else b.x)
      && (a.pc == b.pc <==> i.op == Cj || i.op == Cjal || s.x[i.rs1] % 2 == 0)
  {
    hide Control, Expanded, Plus;
    if i.op == Cj || i.op == Cjal { DirectJumps(i, s); } else { IndirectJumps(i, s); }
  }

  lemma DirectJumps(i: Insn, s: Cpu)
    requires i.op == Cj || i.op == Cjal
    ensures
      var a, b := Final(Control(i, s)), Final(Control(Expanded(i), s));
      && Control(i, s) == Leave(Done(a)) && Control(Expanded(i), s) == Leave(Done(b)) && a.mem == b.mem
      && a.x == (if i.op == Cjal then b.x[1 := Plus(s.pc, 2)] else b.x) && a.pc == b.pc
  {
    hide Plus;
  }

  lemma IndirectJumps(i: Insn, s: Cpu)
    requires i.op == Cjr || i.op == Cjalr
    ensures
      var a, b := Final(Control(i, s)), Final(Control(Expanded(i), s));
      && Control(i, s) == Leave(Done(a)) && Control(Expanded(i), s) == Leave(Done(b)) && a.mem == b.mem
      && a.x == (if i.op == Cjalr then b.x[1 := Plus(s.pc, 2)] else b.x)
      && (a.pc == b.pc <==> s.x[i.rs1] % 2 == 0)
  {
    hide Plus;
    PlusZeroAny(s.x[i.rs1]);
    assert Expanded(i) == i.(op := Jalr, rd := if i.op == Cjr then ZERO else RA, imm := 0);
  }

  lemma PlusZeroAny(v: Word)
    ensures Plus(v, 0) == v
  {
  }
}
