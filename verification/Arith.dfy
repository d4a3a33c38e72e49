// Powers of two and division by variable divisors.
module Arith {

  function Pow2(n: nat): (p: nat)
    ensures 1 <= p
  {
    if n == 0 then 1 else 2 * Pow2(n - 1)
  }

  lemma Pow2Zero()
    ensures Pow2(0) == 1
  {
  }

  lemma Pow2Step(k: nat)
    requires k > 0
    ensures Pow2(k) == 2 * Pow2(k - 1)
  {
  }

  lemma {:induction false} Pow2Add(a: nat, b: nat)
    ensures Pow2(a + b) == Pow2(a) * Pow2(b)
  {
    if b > 0 { Pow2Add(a, b - 1); }
  }

  lemma {:induction false} Pow2Le(a: nat, b: nat)
    requires a <= b
    ensures Pow2(a) <= Pow2(b)
  {
    if a < b { Pow2Le(a, b - 1); }
  }

  lemma Pow2Values()
    ensures Pow2(8) == 0x100 && Pow2(16) == 0x1_0000 && Pow2(31) == 0x8000_0000 && Pow2(32) == 0x1_0000_0000
  {
    assert Pow2(4) == 16;
    assert Pow2(8) == 0x100;
    assert Pow2(12) == 0x1000;
    assert Pow2(16) == 0x1_0000;
    assert Pow2(20) == 0x10_0000;
    assert Pow2(24) == 0x100_0000;
    assert Pow2(28) == 0x1000_0000;
  }

  lemma DivLe(a: nat, p: nat)
    requires 1 <= p
    ensures 0 <= a / p <= a
  {
    assert a == p * (a / p) + a % p;
    MulAtLeast(p, a / p);
  }

  lemma DivUnique(n: int, p: nat, q: int, r: int)
    requires 1 <= p && n == p * q + r && 0 <= r < p
    ensures n / p == q && n % p == r
  {
    var d := n / p - q;
    assert n == p * (n / p) + n % p;
    assert p * d == r - n % p by { assert p * (n / p) - p * q == p * d; }
    if d >= 1 {
      MulAtLeast(d, p);
      assert false;
    }
    if d <= -1 {
      MulAtLeast(-d, p);
      assert false;
    }
  }

  lemma MulAtLeast(d: int, p: nat)
    requires 1 <= d
    ensures p <= d * p && d * p == p * d && (-d) * p == -(d * p)
  {
    assert d * p == (d - 1) * p + p;
  }

  lemma DivPositive(n: nat, p: nat)
    requires 1 <= p <= n
    ensures 1 <= n / p && (n / p) * p <= n
  {
    var q, r := (n - p) / p, (n - p) % p;
    assert n - p == p * q + r;
    assert p * (q + 1) == p * q + p;
    DivUnique(n, p, q + 1, r);
  }

  lemma HalveDiv(v: nat, p: nat)
    requires 1 <= p
    ensures (v / 2) / p == v / (2 * p)
  {
    var q, r := v / (2 * p), v % (2 * p);
    assert v == (2 * p) * q + r;
    assert v == 2 * (p * q) + r;
    assert v / 2 == p * q + r / 2;
    DivUnique(v / 2, p, q, r / 2);
  }

  lemma HalveMod(a: nat, p: nat)
    requires 1 <= p
    ensures a % (2 * p) == 2 * ((a / 2) % p) + a % 2
  {
    var h := a / 2;
    DivMod(h, p);
    var r := 2 * (h % p) + a % 2;
    assert a == 2 * (p * (h / p)) + r;
    assert 2 * (p * (h / p)) == (2 * p) * (h / p);
    DivUnique(a, 2 * p, h / p, r);
  }

  lemma DivMod(m: int, d: int)
    requires 1 <= d
    ensures m == d * (m / d) + m % d && 0 <= m % d < d
  {
  }

  lemma NegMul(d: int, q: int)
    ensures (-d) * q == -(d * q) && d * (-q) == -(d * q) && (-d) * (-q) == d * q
  {
  }
}
