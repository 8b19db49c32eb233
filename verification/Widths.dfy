/** How the bit counter splits its input and how many rows a count needs. */
module Widths {
  import opened Bits

  // ----- floor_log2

  /** The position of the highest set bit; -1 for zero. */
  function FloorLog2(n: nat): (r: int)
    ensures r >= -1 && (r == -1 <==> n == 0)
    ensures n > 0 ==> Pow2(r) <= n < Pow2(r + 1)
  {
    if n == 0 then -1 else 1 + FloorLog2(n / 2)
  }

  lemma FloorLog2Unique(n: nat, f: nat)
    requires Pow2(f) <= n < Pow2(f + 1)
    ensures FloorLog2(n) == f
  {
    var r := FloorLog2(n);
    if r < f {
      Pow2Monotone(r + 1, f);
    } else if r > f {
      Pow2Monotone(f + 1, r);
    }
  }

  /** floor_log2: count the shifts until nothing is left. */
  method CountShifts(n: nat) returns (result: int)
    ensures n == 0 ==> result == -1
    ensures n > 0 ==> result >= 0 && Pow2(result) <= n < Pow2(result + 1)
  {
    result := -1;
    var x := n;
    while x > 0
      invariant result >= -1 && FloorLog2(n) == result + 1 + FloorLog2(x)
    {
      result := result + 1;
      x := x / 2;
    }
  }

  // ----- foo: smear the highest bit downwards, then drop one place

  /** Bitwise or. */
  function Or(a: nat, b: nat): nat
    decreases a + b
  {
    if a == 0 && b == 0 then 0
    else 2 * Or(a / 2, b / 2) + (if a % 2 == 1 || b % 2 == 1 then 1 else 0)
  }

  lemma {:induction false} OrBound(a: nat, b: nat, e: nat)
    requires a < Pow2(e) && b < Pow2(e)
    ensures Or(a, b) < Pow2(e)
  {
    if e > 0 && (a > 0 || b > 0) {
      OrBound(a / 2, b / 2, e - 1);
    }
  }

  /** Or-ing a number below 2^g into one whose low g bits are l leaves the high part and at least b below it. */
  lemma {:induction false} OrLow(k: nat, l: nat, b: nat, g: nat)
    requires l < Pow2(g) && b < Pow2(g)
    ensures Or(Pow2(g) * k + l, b) >= Pow2(g) * k + b
  {
    if g == 0 {
      OrKeeps(k, b);
    } else {
      var a := Pow2(g) * k + l;
      var h := Pow2(g - 1) * k;
      assert Pow2(g) * k == 2 * h by { MulDistributes(k, Pow2(g - 1), Pow2(g - 1)); }
      OrLow(k, l / 2, b / 2, g - 1);
      assert a / 2 == h + l / 2;
    }
  }

  lemma {:induction false} OrKeeps(a: nat, b: nat)
    ensures Or(a, b) >= a
    decreases a + b
  {
    if a > 0 || b > 0 {
      OrKeeps(a / 2, b / 2);
    }
  }

  /** The bits g .. f of n are all ones and nothing stands above them. */
  ghost predicate TopOnes(n: nat, f: nat, g: nat) {
    g <= f + 1 && Pow2(f + 1) <= n + Pow2(g) && n < Pow2(f + 1)
  }

  function Below(f: nat, s: nat): nat {
    if s <= f + 1 then f + 1 - s else 0
  }

  /** One smearing step doubles the run of ones. */
  lemma SmearStep(n: nat, f: nat, s: nat)
    requires s > 0 && TopOnes(n, f, Below(f, s))
    ensures TopOnes(Or(n, Shr(n, s)), f, Below(f, 2 * s))
  {
    var g, g', m := Below(f, s), Below(f, 2 * s), Shr(n, s);
    ShrBelow(n, s, f + 1);
    OrBound(n, m, f + 1);
    if g == 0 {
      OrKeeps(n, m);
    } else {
      assert g + s == f + 1;
      ShrAtLeast(n, s, g, g');
      ShrLess(n, s, g);
      Pow2Add(g, s);
      var k := Pow2(s) - 1;
      assert Pow2(g) * k == Pow2(f + 1) - Pow2(g) by { MulDistributes(Pow2(g), Pow2(s), -1); }
      OrLow(k, n - Pow2(g) * k, m, g);
    }
  }

  lemma ShrRemainder(n: nat, s: nat) returns (r: nat)
    ensures r < Pow2(s) && n == Pow2(s) * Shr(n, s) + r
  {
    r := n % Pow2(s);
  }

  lemma ShrBelow(n: nat, s: nat, e: nat)
    requires n < Pow2(e)
    ensures Shr(n, s) < Pow2(e)
  {
    hide Shr, Pow2;
    var r := ShrRemainder(n, s);
    MulAtLeast(Shr(n, s), Pow2(s));
  }

  lemma ShrLess(n: nat, s: nat, g: nat)
    requires n < Pow2(g + s)
    ensures Shr(n, s) < Pow2(g)
  {
    hide Shr, Pow2;
    Pow2Add(g, s);
    var r := ShrRemainder(n, s);
    if Shr(n, s) >= Pow2(g) {
      MulMonotone(Pow2(s), Pow2(g), Shr(n, s));
    }
  }

  lemma ShrAtLeast(n: nat, s: nat, g: nat, g': nat)
    requires g <= g' + s && g' <= g && Pow2(g + s) <= n + Pow2(g)
    ensures Shr(n, s) + Pow2(g') >= Pow2(g)
  {
    hide Shr, Pow2;
    Pow2Add(g, s);
    Pow2Add(g', s);
    Pow2Monotone(g, g' + s);
    var r := ShrRemainder(n, s);
    var p, x := Pow2(s), Pow2(g) - Pow2(g');
    MulDistributes(p, x, Pow2(g'));
    DigitsAtLeast(p, Shr(n, s), r, x);
  }

  /** The or-shift cascade of the source. */
  function Smear(n: nat): nat {
    var n1 := Or(n, Shr(n, 1));
    var n2 := Or(n1, Shr(n1, 2));
    var n4 := Or(n2, Shr(n2, 4));
    var n8 := Or(n4, Shr(n4, 8));
    Or(n8, Shr(n8, 16))
  }

  lemma SmearFills(n: nat, f: nat)
    requires f < 31 && Pow2(f) <= n < Pow2(f + 1)
    ensures Smear(n) == Pow2(f + 1) - 1
  {
    hide Or, Shr, Pow2;
    assert TopOnes(n, f, Below(f, 1)) by { assert Pow2(f + 1) == 2 * Pow2(f) by { Pow2Double(f); } }
    SmearStep(n, f, 1);
    var n1 := Or(n, Shr(n, 1));
    SmearStep(n1, f, 2);
    var n2 := Or(n1, Shr(n1, 2));
    SmearStep(n2, f, 4);
    var n4 := Or(n2, Shr(n2, 4));
    SmearStep(n4, f, 8);
    var n8 := Or(n4, Shr(n4, 8));
    SmearStep(n8, f, 16);
    assert Pow2(0) == 1 by { Pow2Double(0); }
  }

  lemma Pow2Double(f: nat)
    ensures Pow2(f + 1) == 2 * Pow2(f) && Pow2(0) == 1
  {
  }

  lemma Pow2Two()
    ensures Pow2(0) == 1 && Pow2(1) == 2 && Pow2(2) == 4
  {
  }

  lemma SmearHalved(n: nat)
    requires 0 < n < Pow2(31)
    ensures Smear(n) / 2 == Pow2(FloorLog2(n)) - 1
  {
    hide Smear, Pow2;
    var f := FloorLog2(n);
    if f >= 31 {
      Pow2Monotone(31, f);
    }
    SmearFills(n, f);
    Pow2Double(f);
  }

  /** foo: 2^floor(log2 n) - 1 for every positive 32-bit int, as its comment promises. */
  function Foo(n: nat): (r: nat)
    requires n < Pow2(31)
    ensures n > 0 ==> r == Pow2(FloorLog2(n)) - 1
  {
    assert n > 0 ==> Smear(n) / 2 == Pow2(FloorLog2(n)) - 1 by {
      if n > 0 {
        SmearHalved(n);
      }
    }
    Smear(n) / 2
  }

  // ----- The split and the space it needs

  function Left(size: nat): (r: nat)
    requires 0 < size < Pow2(31)
    ensures r < size
  {
    Foo(size)
  }

  /** One row is left out of both blocks to enter as the carry. */
  function Right(size: nat): (r: nat)
    requires 0 < size < Pow2(31)
    ensures Left(size) + r + 1 == size
  {
    size - Foo(size) - 1
  }

  /** Both blocks are smaller, the left one is a full power of two less one, and the right one is no longer. */
  lemma SplitSizes(size: nat)
    requires 4 <= size < Pow2(31)
    ensures var f := FloorLog2(size);
            && f >= 2 && 3 <= Left(size) && Right(size) <= Left(size)
            && Left(size) == Pow2(f) - 1 && FloorLog2(Left(size)) == f - 1 && FloorLog2(Right(size)) <= f - 1
  {
    hide Foo, Pow2, FloorLog2;
    var f := FloorLog2(size);
    Pow2Two();
    if f < 2 {
      Pow2Monotone(f + 1, 2);
    }
    Pow2Monotone(2, f);
    Pow2Double(f - 1);
    Pow2Double(f);
    FloorLog2Unique(Pow2(f) - 1, f - 1);
    if FloorLog2(Right(size)) >= f {
      Pow2Monotone(f, FloorLog2(Right(size)));
    }
  }

  function Max(a: int, b: int): int {
    if a < b then b else a
  }

  /** necessary_space */
  function NecessarySpace(size: nat): (r: nat)
    requires size < Pow2(31)
  {
    if size <= 2 then size
    else if size == 3 then 2
    else
      var f := FloorLog2(size);
      Max(Max(f + 1, f + NecessarySpace(Right(size))), NecessarySpace(Left(size)))
  }

  /** The number of rows of a finished count. */
  function Width(size: nat): nat {
    FloorLog2(size) + 1
  }

  lemma SmallLogs()
    ensures FloorLog2(0) == -1 && FloorLog2(1) == 0 && FloorLog2(2) == 1 && FloorLog2(3) == 1
  {
  }

  lemma {:induction false} SpaceCoversWidth(size: nat)
    requires size < Pow2(31)
    ensures NecessarySpace(size) >= Width(size)
  {
    hide Foo, Pow2, FloorLog2;
    if size >= 4 {
      SplitSizes(size);
    } else {
      SmallLogs();
    }
  }

  function Triangle(f: int): nat {
    if f <= 0 then 0 else f + Triangle(f - 1)
  }

  lemma {:induction false} TriangleIs(f: nat)
    ensures Triangle(f) == f * (f + 1) / 2
  {
    if f > 0 {
      TriangleIs(f - 1);
    }
  }

  lemma {:induction false} TriangleMonotone(a: int, b: int)
    requires a <= b
    ensures Triangle(a) <= Triangle(b)
    decreases b - a
  {
    if a < b {
      TriangleMonotone(a, b - 1);
    }
  }

  lemma {:induction false} SpaceWithinTriangle(size: nat)
    requires 1 <= size < Pow2(31)
    ensures NecessarySpace(size) <= Triangle(FloorLog2(size)) + 1
  {
    hide Foo, Pow2, FloorLog2;
    var f := FloorLog2(size);
    if size < 4 {
      SmallLogs();
    } else {
      SplitSizes(size);
      SpaceWithinTriangle(Left(size));
      TriangleMonotone(1, f);
      if Right(size) > 0 {
        SpaceWithinTriangle(Right(size));
        TriangleMonotone(FloorLog2(Right(size)), f - 1);
      }
    }
  }

  /** The scratch space grows only with the square of the logarithm. */
  lemma SpaceBound(size: nat)
    requires 1 <= size < Pow2(31)
    ensures var f := FloorLog2(size);
            NecessarySpace(size) <= f * (f + 1) / 2 + 1
  {
    hide NecessarySpace, FloorLog2, Pow2, Triangle;
    SpaceWithinTriangle(size);
    TriangleIs(FloorLog2(size));
  }

  lemma {:induction false} SpaceFillsTriangle(k: nat)
    requires 1 <= k <= 31
    ensures 1 <= Pow2(k) - 1 < Pow2(31)
    ensures FloorLog2(Pow2(k) - 1) == k - 1
    ensures NecessarySpace(Pow2(k) - 1) == Triangle(k - 1) + 1
  {
    hide Foo, Pow2, FloorLog2;
    Pow2Monotone(k, 31);
    Pow2Monotone(1, k);
    Pow2Two();
    Pow2Double(k - 1);
    var size := Pow2(k) - 1;
    FloorLog2Unique(size, k - 1);
    if k > 2 {
      Pow2Monotone(2, k - 1);
      SplitSizes(size);
      SpaceWithinTriangle(size);
      SpaceFillsTriangle(k - 1);
    }
  }

  /** The bound is met by every size one less than a power of two. */
  lemma SpaceTight(k: nat)
    requires 1 <= k <= 31
    ensures 1 <= Pow2(k) - 1 < Pow2(31)
    ensures var f := FloorLog2(Pow2(k) - 1);
            f == k - 1 && NecessarySpace(Pow2(k) - 1) == f * (f + 1) / 2 + 1
  {
    hide NecessarySpace, FloorLog2, Pow2, Triangle;
    SpaceFillsTriangle(k);
    TriangleIs(k - 1);
  }
}
