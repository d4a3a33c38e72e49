// 32-bit machine arithmetic on mathematical integers.
module Word32 {
  import opened Arith

  const MOD: int := 0x1_0000_0000
  const MOD64: int := 0x1_0000_0000_0000_0000

  type Word = x: int | 0 <= x < 0x1_0000_0000

  // Truncation to 32 bits, and the two's-complement reading.
  function Wrap(n: int): Word {
    n % MOD
  }

  function Signed(a: Word): int {
    if a < 0x8000_0000 then a else a - MOD
  }

  function Plus(a: Word, b: Word): Word {
    Wrap(a + b)
  }

  function Minus(a: Word, b: Word): Word {
    Wrap(a - b)
  }

  predicate SLess(a: Word, b: Word) {
    Signed(a) < Signed(b)
  }

  function FromBool(b: bool): Word {
    if b then 1 else 0
  }

  // ----- bitwise operations, bit by bit -----

  datatype Logic = LogicAnd | LogicOr | LogicXor

  function BitOf(l: Logic, a: int, b: int): (r: int)
    requires 0 <= a <= 1 && 0 <= b <= 1
    ensures 0 <= r <= 1
  {
    match l
    case LogicAnd => a * b
    case LogicOr => if a + b == 0 then 0 else 1
    case LogicXor => if a == b then 0 else 1
  }

  function Bitwise(l: Logic, a: nat, b: nat, width: nat): (r: nat)
    ensures r < Pow2(width)
  {
    if width == 0 then 0 else 2 * Bitwise(l, a / 2, b / 2, width - 1) + BitOf(l, a % 2, b % 2)
  }

  function Logical(l: Logic, a: Word, b: Word): Word {
    Pow2Values();
    Bitwise(l, a, b, 32)
  }

  function And(a: Word, b: Word): Word {
    Logical(LogicAnd, a, b)
  }

  function Or(a: Word, b: Word): Word {
    Logical(LogicOr, a, b)
  }

  function Xor(a: Word, b: Word): Word {
    Logical(LogicXor, a, b)
  }

  // ----- shifts -----

  // The low five bits.
  function Shamt(a: Word): (n: Word)
    ensures n < 32
  {
    a % 32
  }

  function Shl(a: Word, n: Word): Word
    requires n < 32
  {
    Wrap(a * Pow2(n))
  }

  function Shr(a: Word, n: Word): Word
    requires n < 32
  {
    DivLe(a, Pow2(n));
    a / Pow2(n)
  }

  // Arithmetic right shift rounds toward minus infinity.
  function Sar(a: Word, n: Word): Word
    requires n < 32
  {
    Wrap(Signed(a) / Pow2(n))
  }

  // c.srai in the interpreter: shift, then or in the sign bit from the top down.
  function Smear(x: Word, mask: Word, n: Word): Word
    requires n <= 32
    decreases n
  {
    if n == 0 then x else Or(Smear(x, mask, n - 1), Shr(mask, n - 1))
  }

  function SmearRight(a: Word, n: Word): Word
    requires n < 32
  {
    Smear(Shr(a, n), if 0x8000_0000 <= a then 0x8000_0000 else 0, n)
  }

  // ----- multiplication and division -----

  // The upper half of a 64-bit product.
  function High(p: int): Word {
    (p % MOD64) / MOD
  }

  function Abs(n: int): nat {
    if n < 0 then -n else n
  }

  // C division truncates toward zero; the remainder takes the sign of the dividend.
  function TruncDiv(a: int, b: int): int
    requires b != 0
  {
    if (a < 0) == (b < 0) then Abs(a) / Abs(b) else -(Abs(a) / Abs(b))
  }

  function TruncRem(a: int, b: int): int
    requires b != 0
  {
    if a < 0 then -(Abs(a) % Abs(b)) else Abs(a) % Abs(b)
  }

  // ----- extensions -----

  function Extend8(a: Word): Word {
    var b := a % 0x100;
    if b < 0x80 then b else Wrap(b - 0x100)
  }

  function Extend16(a: Word): Word {
    var h := a % 0x1_0000;
    if h < 0x8000 then h else Wrap(h - 0x1_0000)
  }

  // ----- facts -----

  lemma {:induction false} OrZero(v: nat, w: nat)
    requires v < Pow2(w)
    ensures Bitwise(LogicOr, v, 0, w) == v
  {
    if w > 0 { OrZero(v / 2, w - 1); }
  }

  // The bits of even and odd masks, one position further down.
  lemma BitwiseStep(l: Logic, a: nat, m: nat, w: nat)
    ensures Bitwise(l, a, 2 * m, w + 1) == 2 * Bitwise(l, a / 2, m, w) + (if l == LogicAnd then 0 else a % 2)
    ensures l == LogicAnd ==> Bitwise(l, a, 2 * m + 1, w + 1) == 2 * Bitwise(l, a / 2, m, w) + a % 2
  {
    assert (2 * m) / 2 == m && (2 * m + 1) / 2 == m;
  }

  // Setting a clear bit adds its weight.
  lemma {:induction false} OrSetsBit(v: nat, k: nat, w: nat)
    requires k < w && v < Pow2(w) && (v / Pow2(k)) % 2 == 0
    ensures Bitwise(LogicOr, v, Pow2(k), w) == v + Pow2(k)
  {
    hide Bitwise, Pow2;
    Pow2Step(w);
    if k == 0 {
      SetLowest(v, w);
    } else {
      var p := Pow2(k - 1);
      Pow2Step(k);
      HalveDiv(v, p);
      OrSetsBit(v / 2, k - 1, w - 1);
      BitwiseStep(LogicOr, v, p, w - 1);
    }
  }

  lemma SetLowest(v: nat, w: nat)
    requires 0 < w && v < Pow2(w) && (v / Pow2(0)) % 2 == 0
    ensures Bitwise(LogicOr, v, Pow2(0), w) == v + Pow2(0)
  {
    assert Pow2(0) == 1 && v / 1 == v;
    OrZero(v / 2, w - 1);
  }

  lemma MaskBit(k: Word)
    requires 1 <= k <= 32
    ensures Shr(0x8000_0000, k - 1) == Pow2(32 - k)
  {
    var p, q := Pow2(k - 1), Pow2(32 - k);
    assert p * q == 0x8000_0000 by {
      Pow2Values();
      Pow2Add(k - 1, 32 - k);
    }
    DivUnique(0x8000_0000, p, q, 0);
  }

  lemma StepBit(acc: int, x: int, p: nat, h: int)
    requires 1 <= p && 0 <= x < p && acc == x + MOD - 2 * p && MOD == p * (2 * h)
    ensures (acc / p) % 2 == 0
  {
    assert p * (2 * h - 2) == p * (2 * h) - 2 * p;
    DivUnique(acc, p, 2 * h - 2, x);
  }

  lemma Pow2Split(k: Word)
    requires 1 <= k <= 32
    ensures Pow2(33 - k) == 2 * Pow2(32 - k)
    ensures MOD == Pow2(32 - k) * (2 * Pow2(k - 1))
  {
    Pow2Values();
    Pow2Add(32 - k, k);
  }

  // After `k` rounds the top `k` bits are ones.
  lemma {:induction false} SmearOnes(x: Word, n: Word, k: Word)
    requires k <= n < 32 && x < Pow2(32 - n)
    ensures Smear(x, 0x8000_0000, k) == x + MOD - Pow2(32 - k)
    decreases k
  {
    hide Shr, Or;
    Pow2Values();
    if k > 0 {
      SmearOnes(x, n, k - 1);
      SmearStep(x, n, k, Smear(x, 0x8000_0000, k - 1));
    }
  }

  lemma SmearStep(x: Word, n: Word, k: Word, acc: Word)
    requires 1 <= k <= n < 32 && x < Pow2(32 - n) && acc == x + MOD - Pow2(33 - k)
    ensures Or(acc, Shr(0x8000_0000, k - 1)) == x + MOD - Pow2(32 - k)
  {
    hide Shr, Bitwise, Pow2;
    Pow2Values();
    MaskBit(k);
    Pow2Split(k);
    Pow2Le(32 - n, 32 - k);
    StepBit(acc, x, Pow2(32 - k), Pow2(k - 1));
    OrSetsBit(acc, 32 - k, 32);
  }

  lemma {:induction false} SmearNothing(x: Word, k: Word)
    requires k < 32
    ensures Smear(x, 0, k) == x
    decreases k
  {
    if k > 0 {
      SmearNothing(x, k - 1);
      Pow2Values();
      DivUnique(0, Pow2(k - 1), 0, 0);
      OrZero(x, 32);
    }
  }

  // The bit-by-bit c.srai is an arithmetic right shift.
  lemma SmearIsArithmetic(a: Word, n: Word)
    requires n < 32
    ensures SmearRight(a, n) == Sar(a, n)
  {
    hide Smear, Pow2;
    var p, t := Pow2(n), Pow2(32 - n);
    Pow2Values();
    Pow2Add(n, 32 - n);
    assert p * t == MOD;
    SarParts(a, p, t);
    if 0x8000_0000 <= a { SmearOnes(a / p, n, n); } else { SmearNothing(a / p, n); }
  }

  lemma SarParts(a: Word, p: nat, t: nat)
    requires 1 <= p && p * t == MOD
    ensures 0 <= a / p < t
    ensures (a - MOD) / p == a / p - t
    ensures Wrap(a / p) == a / p || a >= 0x8000_0000
    ensures a >= 0x8000_0000 ==> Wrap(a / p - t) == a / p + MOD - t
  {
    SarQuotient(a, p, t);
    MulAtLeast(p, t);
    DivLe(a, p);
    WrapInside(a / p, t);
  }

  lemma SarQuotient(a: Word, p: nat, t: nat)
    requires 1 <= p && p * t == MOD
    ensures 0 <= a / p < t && (a - MOD) / p == a / p - t
  {
    var q, r := a / p, a % p;
    assert a == p * q + r;
    assert p * (q - t) == p * q - p * t;
    DivUnique(a - MOD, p, q - t, r);
    QuotientBelow(q, p, t);
  }

  lemma QuotientBelow(q: int, p: nat, t: nat)
    requires 1 <= p && p * q < p * t
    ensures q < t
  {
    assert p * (q - t) == p * q - p * t;
    if t <= q {
      MulAtLeast(p, q - t);
      assert false;
    }
  }

  lemma WrapInside(q: int, t: int)
    requires 0 <= q < t <= MOD
    ensures Wrap(q) == q && Wrap(q - t) == q + MOD - t
  {
  }

  lemma PlusCommutes(a: Word, b: Word)
    ensures Plus(a, b) == Plus(b, a)
  {
  }

  lemma PlusAssociates(a: Word, b: Word, c: Word)
    ensures Plus(Plus(a, b), c) == Plus(a, Plus(b, c))
  {
    assert Plus(a, b) == if a + b < MOD then a + b else a + b - MOD;
    assert Plus(b, c) == if b + c < MOD then b + c else b + c - MOD;
  }

  // Masking with 31 keeps the low five bits.
  lemma AndThirtyOne(a: Word)
    ensures And(a, 31) == Shamt(a)
  {
    Low5(a, 32);
  }

  // Clearing the lowest bit.
  lemma AndNotOne(a: Word)
    ensures And(a, MOD - 2) == a - a % 2
  {
    hide Bitwise, Pow2;
    Pow2Values();
    LowBits(a / 2, 31, 31);
    BitwiseStep(LogicAnd, a, 0x7fff_ffff, 31);
  }

  lemma Low5(a: nat, w: nat)
    requires w >= 5
    ensures Bitwise(LogicAnd, a, 31, w) == a % 32
  {
    LowBits(a, 5, w);
    assert Pow2(5) == 32;
  }

  lemma {:induction false} LowBits(a: nat, k: nat, w: nat)
    requires k <= w
    ensures Bitwise(LogicAnd, a, Pow2(k) - 1, w) == a % Pow2(k)
  {
    hide Bitwise, Pow2;
    if k == 0 {
      assert Pow2(0) == 1 by { Pow2Zero(); }
      AndZero(a, w);
    } else {
      var p := Pow2(k - 1);
      Pow2Step(k);
      LowBits(a / 2, k - 1, w - 1);
      LowBitsStep(a, p, w - 1);
    }
  }

  lemma LowBitsStep(a: nat, p: nat, w: nat)
    requires 1 <= p && Bitwise(LogicAnd, a / 2, p - 1, w) == (a / 2) % p
    ensures Bitwise(LogicAnd, a, 2 * p - 1, w + 1) == a % (2 * p)
  {
    hide Bitwise;
    HalveMod(a, p);
    BitwiseStep(LogicAnd, a, p - 1, w);
    assert 2 * p - 1 == 2 * (p - 1) + 1;
  }

  lemma {:induction false} AndZero(a: nat, w: nat)
    ensures Bitwise(LogicAnd, a, 0, w) == 0
  {
    if w > 0 { AndZero(a / 2, w - 1); }
  }

  // Quotient and remainder obey the division law of the M extension, corner cases included.
  lemma DivRemLaw(a: int, b: int)
    requires b != 0
    ensures a == b * TruncDiv(a, b) + TruncRem(a, b)
    ensures Abs(TruncRem(a, b)) < Abs(b)
    ensures TruncRem(a, b) == 0 || (TruncRem(a, b) < 0 <==> a < 0)
  {
    var m: int, d: int := Abs(a), Abs(b);
    var q: int, r: int := m / d, m % d;
    DivMod(m, d);
    NegMul(d, q);
    if b < 0 { assert b == -d; } else { assert b == d; }
  }
}
