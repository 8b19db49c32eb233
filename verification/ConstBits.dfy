/** The bits of a constant that a driver specialises its command stream on. */
module ConstBits {
  import opened Bits

  /** c & (1 << j) */
  predicate BitSet(c: nat, j: nat) {
    Shr(c, j) % 2 == 1
  }

  /** The number formed by the low r bits of c. */
  function LowBits(c: nat, r: nat): nat {
    if r == 0 then 0 else LowBits(c, r - 1) + Weight(Truth(BitSet(c, r - 1)), r - 1)
  }

  /** Splitting off one more bit of a quotient by p. */
  lemma SplitBit(c: nat, p: nat, h: nat, r: nat)
    requires c == r + p * h
    ensures c == (r + (if h % 2 == 1 then p else 0)) + (2 * p) * (h / 2)
  {
    var g, e := h / 2, h % 2;
    MulDistributes(p, g + g, e);
    MulDistributes(p, g, g);
    MulDistributes(g, p, p);
  }

  lemma ShrNext(c: nat, r: nat)
    ensures Shr(c, r + 1) == Shr(c, r) / 2
  {
    var p, h := Pow2(r), Shr(c, r);
    SplitBit(c, p, h, c % p);
    DivModUnique(c, 2 * p, h / 2, c % p + (if h % 2 == 1 then p else 0));
  }

  lemma {:induction false} LowBitsSplit(c: nat, r: nat)
    ensures c == LowBits(c, r) + Pow2(r) * Shr(c, r)
  {
    if r == 0 {
      assert Pow2(0) == 1;
    } else {
      hide Shr;
      LowBitsSplit(c, r - 1);
      ShrNext(c, r - 1);
      SplitBit(c, Pow2(r - 1), Shr(c, r - 1), LowBits(c, r - 1));
    }
  }

  /** A constant of at most n bits is its own low n bits. */
  lemma LowBitsAll(c: nat, n: nat)
    requires c < Pow2(n)
    ensures LowBits(c, n) == c
  {
    LowBitsSplit(c, n);
    DivModUnique(c, Pow2(n), 0, c);
  }

  lemma {:induction false} LowBitsNone(c: nat, r: nat)
    requires forall i :: 0 <= i < r ==> !BitSet(c, i)
    ensures LowBits(c, r) == 0
  {
    if r > 0 {
      LowBitsNone(c, r - 1);
    }
  }

  lemma {:induction false} LowBitsBound(c: nat, r: nat)
    ensures LowBits(c, r) < Pow2(r)
  {
    hide BitSet;
    if r > 0 {
      LowBitsBound(c, r - 1);
    }
  }

  /** The n rows that hold x, least significant first. */
  function Encode(x: nat, n: nat): (s: seq<Bit>)
    ensures |s| == n
  {
    if n == 0 then [] else Encode(x, n - 1) + [Truth(BitSet(x, n - 1))]
  }

  lemma {:induction false} EncodeValue(x: nat, n: nat)
    ensures Value(Encode(x, n), 0, n) == LowBits(x, n)
  {
    hide BitSet;
    if n > 0 {
      EncodeValue(x, n - 1);
      ValueFrame(Encode(x, n - 1), Encode(x, n), 0, n - 1);
    }
  }
}
