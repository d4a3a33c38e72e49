// Carry-less multiplication (Zbc): the three instruction loops against one polynomial product.
module Clmul {

  // A 32-bit word by its bits, the lowest first.
  type Bits = s: seq<bool> | |s| == 32 witness seq(32, _ => false)

  function Zero(): Bits {
    seq(32, _ => false)
  }

  // The bit at any position; outside the word there are none.
  function Bit(x: Bits, k: int): bool {
    0 <= k < 32 && x[k]
  }

  function Xor(x: Bits, y: Bits): Bits {
    seq(32, k requires 0 <= k < 32 => x[k] != y[k])
  }

  function Or(x: Bits, y: Bits): Bits {
    seq(32, k requires 0 <= k < 32 => x[k] || y[k])
  }

  function Shl(x: Bits, n: nat): Bits {
    seq(32, k requires 0 <= k < 32 => Bit(x, k - n))
  }

  function Shr(x: Bits, n: nat): Bits {
    seq(32, k requires 0 <= k < 32 => Bit(x, k + n))
  }

  // ----- the product -----

  // Parity of the first `n` products of bits whose positions add up to `k`.
  function Coef(a: Bits, b: Bits, k: int, n: nat): bool {
    if n == 0 then false else Coef(a, b, k, n - 1) != (Bit(b, n - 1) && Bit(a, k - (n - 1)))
  }

  // Bit `k` of the carry-less product.
  function Product(a: Bits, b: Bits, k: int): bool {
    Coef(a, b, k, 32)
  }

  // ----- the instructions -----

  method ClmulLow(a: Bits, b: Bits) returns (output: Bits)
    ensures forall k :: 0 <= k < 32 ==> output[k] == Product(a, b, k)
  {
    output := Zero();
    var i := 0;
    while i < 32
      invariant 0 <= i <= 32
      invariant forall k :: 0 <= k < 32 ==> output[k] == Coef(a, b, k, i)
    {
      if Bit(b, i) { output := Xor(output, Shl(a, i)); }
      i := i + 1;
    }
  }

  method ClmulHigh(a: Bits, b: Bits) returns (output: Bits)
    ensures forall k :: 0 <= k < 32 ==> output[k] == Product(a, b, k + 32)
  {
    output := Zero();
    var i := 1;
    forall k | 0 <= k < 32 ensures output[k] == Coef(a, b, k + 32, 1) {
      assert Coef(a, b, k + 32, 0) == false;
    }
    while i < 32
      invariant 1 <= i <= 32
      invariant forall k :: 0 <= k < 32 ==> output[k] == Coef(a, b, k + 32, i)
    {
      if Bit(b, i) { output := Xor(output, Shr(a, 32 - i)); }
      i := i + 1;
    }
  }

  method ClmulReversed(a: Bits, b: Bits) returns (output: Bits)
    ensures forall k :: 0 <= k < 32 ==> output[k] == Product(a, b, k + 31)
  {
    output := Zero();
    var i := 0;
    while i < 32
      invariant 0 <= i <= 32
      invariant forall k :: 0 <= k < 32 ==> output[k] == Coef(a, b, k + 31, i)
    {
      if Bit(b, i) { output := Xor(output, Shr(a, 32 - i - 1)); }
      i := i + 1;
    }
  }

  // clmulr is clmulh shifted up by one with the top bit of clmul below it.
  lemma ReversedFromHalves(a: Bits, b: Bits, low: Bits, high: Bits, middle: Bits)
    requires forall k :: 0 <= k < 32 ==> low[k] == Product(a, b, k)
    requires forall k :: 0 <= k < 32 ==> high[k] == Product(a, b, k + 32)
    requires forall k :: 0 <= k < 32 ==> middle[k] == Product(a, b, k + 31)
    ensures middle == Or(Shl(high, 1), Shr(low, 31))
  {
    hide Product;
    var r := Or(Shl(high, 1), Shr(low, 31));
    forall k | 0 <= k < 32 ensures middle[k] == r[k] {
      assert r[k] == (Shl(high, 1)[k] || Shr(low, 31)[k]) == (Bit(high, k - 1) || Bit(low, k + 31));
      assert middle[k] == Product(a, b, k + 31);
      if k > 0 {
        var j := k - 1;
        assert high[j] == Product(a, b, j + 32) && j + 32 == k + 31;
      } else {
        assert low[31] == Product(a, b, 31);
      }
    }
  }

  // ----- the product commutes -----

  // Parity of the products with positions `lo` to `hi - 1` in the second operand.
  function Span(a: Bits, b: Bits, k: int, lo: int, hi: int): bool
    requires lo <= hi
    decreases hi - lo
  {
    if lo == hi then false else Span(a, b, k, lo, hi - 1) != (Bit(b, hi - 1) && Bit(a, k - (hi - 1)))
  }

  lemma {:induction false} SpanFirst(a: Bits, b: Bits, k: int, lo: int, hi: int)
    requires lo < hi
    ensures Span(a, b, k, lo, hi) == (Span(a, b, k, lo + 1, hi) != (Bit(b, lo) && Bit(a, k - lo)))
    decreases hi - lo
  {
    if lo + 1 < hi {
      SpanFirst(a, b, k, lo, hi - 1);
    } else {
      assert Span(a, b, k, lo, lo) == false;
    }
  }

  // Read from the other end, the same products belong to the exchanged operands.
  lemma {:induction false} SpanSwaps(a: Bits, b: Bits, k: int, lo: int, hi: int)
    requires lo <= hi
    ensures Span(a, b, k, lo, hi) == Span(b, a, k, k - hi + 1, k - lo + 1)
    decreases hi - lo
  {
    if lo < hi {
      SpanSwaps(a, b, k, lo, hi - 1);
      SpanFirst(b, a, k, k - hi + 1, k - lo + 1);
    }
  }

  lemma {:induction false} SpanEmpty(a: Bits, b: Bits, k: int, lo: int, hi: int)
    requires lo <= hi && (hi <= 0 || 32 <= lo || k < lo || hi <= k - 31)
    ensures Span(a, b, k, lo, hi) == false
    decreases hi - lo
  {
    if lo < hi { SpanEmpty(a, b, k, lo, hi - 1); }
  }

  lemma {:induction false} SpanJoins(a: Bits, b: Bits, k: int, lo: int, mid: int, hi: int)
    requires lo <= mid <= hi
    ensures Span(a, b, k, lo, hi) == (Span(a, b, k, lo, mid) != Span(a, b, k, mid, hi))
    decreases hi - mid
  {
    if mid < hi { SpanJoins(a, b, k, lo, mid, hi - 1); }
  }

  lemma {:induction false} CoefIsSpan(a: Bits, b: Bits, k: int, n: nat)
    ensures Coef(a, b, k, n) == Span(a, b, k, 0, n)
  {
    if n > 0 { CoefIsSpan(a, b, k, n - 1); }
  }

  // The operands may be exchanged in all three instructions.
  lemma ProductCommutes(a: Bits, b: Bits, k: int)
    ensures Product(a, b, k) == Product(b, a, k)
  {
    hide Span, Coef;
    CoefIsSpan(a, b, k, 32);
    CoefIsSpan(b, a, k, 32);
    SpanSwaps(a, b, k, 0, 32);
    var lo, hi := k - 31, k + 1;
    if hi <= 0 || 32 <= lo {
      SpanEmpty(a, b, k, 0, 32);
      SpanEmpty(b, a, k, 0, 32);
    } else if lo <= 0 {
      SpanJoins(b, a, k, lo, 0, hi);
      SpanEmpty(b, a, k, lo, 0);
      SpanJoins(b, a, k, 0, hi, 32);
      SpanEmpty(b, a, k, hi, 32);
    } else {
      SpanJoins(b, a, k, lo, 32, hi);
      SpanEmpty(b, a, k, 32, hi);
      SpanJoins(b, a, k, 0, lo, 32);
      SpanEmpty(b, a, k, 0, lo);
    }
  }

  // The product has 63 bits.
  lemma ProductBound(a: Bits, b: Bits, k: int)
    requires k < 0 || 63 <= k
    ensures !Product(a, b, k)
  {
    CoefIsSpan(a, b, k, 32);
    SpanEmpty(a, b, k, 0, 32);
  }

  // ----- what the product is -----

  // The word with one bit.
  function Unit(i: nat): Bits
    requires i < 32
  {
    Zero()[i := true]
  }

  // Multiplying by one bit shifts.
  lemma UnitShifts(a: Bits, i: nat, k: int)
    requires i < 32
    ensures Product(a, Unit(i), k) <==> i <= k < i + 32 && a[k - i]
  {
    hide Coef;
    UnitBelow(a, i, k, i);
    UnitAbove(a, i, k, 32);
  }

  lemma {:induction false} UnitBelow(a: Bits, i: nat, k: int, n: nat)
    requires n <= i < 32
    ensures !Coef(a, Unit(i), k, n)
  {
    if n > 0 { UnitBelow(a, i, k, n - 1); }
  }

  lemma {:induction false} UnitAbove(a: Bits, i: nat, k: int, n: nat)
    requires i < n <= 32
    ensures Coef(a, Unit(i), k, n) <==> i <= k < i + 32 && a[k - i]
  {
    if n > i + 1 { UnitAbove(a, i, k, n - 1); } else { UnitBelow(a, i, k, i); }
  }

  // The product of a sum is the sum of the products, without carries.
  lemma {:induction false} CoefAdds(a: Bits, b: Bits, c: Bits, k: int, n: nat)
    requires n <= 32
    ensures Coef(a, Xor(b, c), k, n) == (Coef(a, b, k, n) != Coef(a, c, k, n))
  {
    if n > 0 {
      CoefAdds(a, b, c, k, n - 1);
      assert Xor(b, c)[n - 1] == (b[n - 1] != c[n - 1]);
    }
  }

  lemma ProductAdds(a: Bits, b: Bits, c: Bits, k: int)
    ensures Product(a, Xor(b, c), k) == (Product(a, b, k) != Product(a, c, k))
    ensures !Product(a, Zero(), k)
  {
    hide Coef, Xor;
    CoefAdds(a, b, c, k, 32);
    CoefZero(a, k, 32);
  }

  lemma {:induction false} CoefZero(a: Bits, k: int, n: nat)
    requires n <= 32
    ensures !Coef(a, Zero(), k, n)
  {
    if n > 0 { CoefZero(a, k, n - 1); }
  }
}
