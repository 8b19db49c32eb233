/**
  Powers of two and the unsigned number held by a run of one-bit rows.

  A column of the memory holds one bit per row; rows lo, lo+1, ... hold the
  bits of an integer, least significant first.
 */
module Bits {

  function Pow2(n: nat): (r: nat)
    ensures r >= 1
  {
    if n == 0 then 1 else 2 * Pow2(n - 1)
  }

  datatype Bit = Zero | One

  function Num(b: Bit): nat {
    if b.One? then 1 else 0
  }

  function Truth(p: bool): Bit {
    if p then One else Zero
  }

  /** The contribution of a bit standing at position k. */
  function Weight(b: Bit, k: nat): nat {
    if b.One? then Pow2(k) else 0
  }

  /** The number held in rows lo .. lo+n-1, least significant row first. */
  function Value(mem: seq<Bit>, lo: nat, n: nat): nat
    requires lo + n <= |mem|
  {
    if n == 0 then 0 else Value(mem, lo, n - 1) + Weight(mem[lo + n - 1], n - 1)
  }

  /** x shifted right by k places. */
  function Shr(x: nat, k: nat): nat {
    QuotientIsNat(x, Pow2(k));
    x / Pow2(k)
  }

  lemma QuotientIsNat(x: nat, d: nat)
    requires d > 0
    ensures x / d >= 0
  {
  }

  function Not(a: Bit): Bit {
    if a.One? then Zero else One
  }

  /** What three cells sharing a bit line settle to. */
  function Maj(a: Bit, b: Bit, c: Bit): Bit {
    if a == b then a else c
  }

  function Xor(a: Bit, b: Bit): Bit {
    if a == b then Zero else One
  }

  function And(a: Bit, b: Bit): Bit {
    if a == One then b else Zero
  }

  lemma MajOrder(a: Bit, b: Bit, c: Bit)
    ensures Maj(a, b, c) == Maj(c, b, a) == Maj(a, c, b)
  {
  }

  /** A vote with the next bits of x and y extends a decision of x >= y + e by one place. */
  lemma ChainBit(c: Bit, x: nat, y: nat, e: nat, xb: Bit, yb: Bit, k: nat)
    requires x < Pow2(k) && y < Pow2(k) && e <= 1 && c == Truth(x >= y + e)
    ensures Maj(Not(yb), xb, c) == Truth(x + Weight(xb, k) >= y + e + Weight(yb, k))
  {
  }

  /** A majority with a zero is a conjunction. */
  lemma MajZero(a: Bit, b: Bit)
    ensures Maj(a, Zero, b) == Maj(Zero, b, a) == Maj(a, b, Zero) == And(a, b)
  {
  }

  lemma {:induction false} ValueBound(mem: seq<Bit>, lo: nat, n: nat)
    requires lo + n <= |mem|
    ensures Value(mem, lo, n) < Pow2(n)
  {
    if n > 0 {
      ValueBound(mem, lo, n - 1);
    }
  }

  /** Equal rows hold equal numbers, wherever they stand. */
  lemma {:induction false} ValueCopy(m: seq<Bit>, lo: nat, m': seq<Bit>, lo': nat, n: nat)
    requires lo + n <= |m| && lo' + n <= |m'|
    requires forall i :: lo <= i < lo + n ==> m[i] == m'[i - lo + lo']
    ensures Value(m, lo, n) == Value(m', lo', n)
  {
    if n > 0 {
      ValueCopy(m, lo, m', lo', n - 1);
    }
  }

  /** Rows that did not change keep their number. */
  lemma ValueFrame(m: seq<Bit>, m': seq<Bit>, lo: nat, n: nat)
    requires lo + n <= |m| && lo + n <= |m'|
    requires forall i :: lo <= i < lo + n ==> m[i] == m'[i]
    ensures Value(m, lo, n) == Value(m', lo, n)
  {
    ValueCopy(m, lo, m', lo, n);
  }

  /** A number splits into its low k rows and the rows above them. */
  lemma {:induction false} ValueSplit(mem: seq<Bit>, lo: nat, k: nat, n: nat)
    requires k <= n && lo + n <= |mem|
    ensures Value(mem, lo, n) == Value(mem, lo, k) + Pow2(k) * Value(mem, lo + k, n - k)
  {
    if k < n {
      ValueSplit(mem, lo, k, n - 1);
      Pow2Add(k, n - 1 - k);
      var v, b := Value(mem, lo + k, n - 1 - k), mem[lo + n - 1];
      MulDistributes(Pow2(k), v, Weight(b, n - 1 - k));
    }
  }

  lemma ValueCons(mem: seq<Bit>, lo: nat, n: nat)
    requires 0 < n && lo + n <= |mem|
    ensures Value(mem, lo, n) == Num(mem[lo]) + 2 * Value(mem, lo + 1, n - 1)
  {
    ValueSplit(mem, lo, 1, n);
    assert Value(mem, lo, 1) == Num(mem[lo]);
    assert Pow2(1) == 2;
  }

  /** Rows lo+k and up hold the number shifted right by k. */
  lemma ValueShift(mem: seq<Bit>, lo: nat, k: nat, n: nat)
    requires k <= n && lo + n <= |mem|
    ensures Value(mem, lo + k, n - k) == Shr(Value(mem, lo, n), k)
    ensures Value(mem, lo, k) == Value(mem, lo, n) % Pow2(k)
  {
    ValueSplit(mem, lo, k, n);
    ValueBound(mem, lo, k);
    DivModUnique(Value(mem, lo, n), Pow2(k), Value(mem, lo + k, n - k), Value(mem, lo, k));
  }

  lemma {:induction false} ValueInjective(m: seq<Bit>, lo: nat, m': seq<Bit>, lo': nat, n: nat)
    requires lo + n <= |m| && lo' + n <= |m'|
    requires Value(m, lo, n) == Value(m', lo', n)
    ensures forall i :: lo <= i < lo + n ==> m[i] == m'[i - lo + lo']
  {
    if n > 0 {
      ValueBound(m, lo, n - 1);
      ValueBound(m', lo', n - 1);
      ValueInjective(m, lo, m', lo', n - 1);
    }
  }

  lemma {:induction false} ValueZero(mem: seq<Bit>, lo: nat, n: nat)
    requires lo + n <= |mem|
    requires forall i :: lo <= i < lo + n ==> mem[i] == Zero
    ensures Value(mem, lo, n) == 0
  {
    if n > 0 {
      ValueZero(mem, lo, n - 1);
    }
  }

  lemma {:induction false} Pow2Add(a: nat, b: nat)
    ensures Pow2(a) * Pow2(b) == Pow2(a + b)
  {
    if b > 0 {
      Pow2Add(a, b - 1);
      assert Pow2(a) * (2 * Pow2(b - 1)) == 2 * (Pow2(a) * Pow2(b - 1));
    }
  }

  lemma {:induction false} Pow2Monotone(a: nat, b: nat)
    requires a <= b
    ensures Pow2(a) <= Pow2(b)
  {
    if a < b {
      Pow2Monotone(a, b - 1);
    }
  }

  /** Quotient and remainder are the only pair that fits. */
  lemma DivModUnique(x: nat, d: nat, q: nat, r: nat)
    requires d > 0 && r < d
    requires x == r + d * q
    ensures x / d == q && x % d == r
  {
    DigitsUnique(d, x / d, x % d, q, r);
  }

  lemma DigitsUnique(d: nat, q: int, r: nat, q': int, r': nat)
    requires r < d && r' < d
    requires r + d * q == r' + d * q'
    ensures q == q' && r == r'
  {
    MulDistributes(d, q, -q');
    assert d * (q - q') == r' - r;
    if q > q' {
      MulAtLeast(d, q - q');
    } else if q < q' {
      MulDistributes(d, q', -q);
      MulAtLeast(d, q' - q);
    }
  }

  lemma DigitsAtLeast(p: nat, q: int, r: nat, x: int)
    requires r < p && p * x <= p * q + r
    ensures q >= x
  {
    if q < x {
      MulDistributes(p, q, 1);
      MulMonotone(p, q + 1, x);
    }
  }

  lemma MulDistributes(a: int, b: int, c: int)
    ensures a * (b + c) == a * b + a * c
    ensures (b + c) * a == b * a + c * a
  {
  }

  lemma MulAtLeast(d: nat, e: nat)
    requires e >= 1
    ensures d * e >= d
  {
  }

  lemma MulMonotone(d: nat, a: int, b: int)
    requires a <= b
    ensures d * a <= d * b
  {
  }
}
