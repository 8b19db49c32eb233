/** Multiplication by a constant: the command stream is specialised on the constant's bits. */
module ConstMultiplier {
  import opened Bits
  import opened ConstBits
  import opened Dram
  import opened Adder
  import opened Multiplier

  predicate ConstFits(size: nat, v: nat, out: nat, n: nat) {
    v + n <= out && out + 2 * n <= size
  }

  // ----- The lowest set bit

  /** The first loop: the position of the lowest set bit at or above j, or n. */
  function FirstSet(c: nat, j: nat, n: nat): (z: nat)
    requires j <= n
    ensures j <= z <= n
    ensures z < n ==> BitSet(c, z)
    ensures forall i :: j <= i < z ==> !BitSet(c, i)
    decreases n - j
  {
    if j == n || BitSet(c, j) then j else FirstSet(c, j + 1, n)
  }

  /** A constant other than zero has a set bit within its width. */
  lemma FirstSetFound(c: nat, n: nat)
    requires 0 < c < Pow2(n)
    ensures FirstSet(c, 0, n) < n
  {
    if FirstSet(c, 0, n) == n {
      LowBitsNone(c, n);
      LowBitsAll(c, n);
    }
  }

  // ----- Plain stores and copies

  function Zeros(lo: nat, k: nat): Program {
    if k == 0 then Nop else Then(Zeros(lo, k - 1), Do(AAP(Row(lo + k - 1), C0)))
  }

  lemma StoreZero(l: Lane, r: nat)
    requires r < |l.mem|
    ensures Run(l, Do(AAP(Row(r), C0))) == Lane(l.cells, l.mem[r := Zero])
  {
    hide Run, Step;
    RunDo(l, AAP(Row(r), C0));
    WriteRow(l, r, C0);
  }

  /** Rows lo .. lo+k-1 have been cleared and no others touched. */
  ghost predicate Cleared(m: seq<Bit>, m': seq<Bit>, lo: nat, k: nat) {
    && |m'| == |m| && lo + k <= |m|
    && (forall i :: lo <= i < lo + k ==> m'[i] == Zero)
    && (forall i :: 0 <= i < |m| && !(lo <= i < lo + k) ==> m'[i] == m[i])
  }

  lemma {:induction false} ZerosRun(l: Lane, lo: nat, k: nat)
    requires lo + k <= |l.mem|
    ensures Cleared(l.mem, Run(l, Zeros(lo, k)).mem, lo, k)
  {
    hide Run;
    if k == 0 {
      RunNop(l);
    } else {
      ZerosRun(l, lo, k - 1);
      RunThen(l, Zeros(lo, k - 1), Do(AAP(Row(lo + k - 1), C0)));
      StoreZero(Run(l, Zeros(lo, k - 1)), lo + k - 1);
    }
  }

  function CopyRows(v: nat, lo: nat, k: nat): Program {
    if k == 0 then Nop else Then(CopyRows(v, lo, k - 1), Do(AAP(Row(lo + k - 1), Row(v + k - 1))))
  }

  lemma CopyRow(l: Lane, r: nat, v: nat)
    requires r < |l.mem| && v < |l.mem|
    ensures Run(l, Do(AAP(Row(r), Row(v)))) == Lane(l.cells, l.mem[r := l.mem[v]])
  {
    hide Run, Step;
    RunDo(l, AAP(Row(r), Row(v)));
    WriteRow(l, r, Row(v));
  }

  lemma {:induction false} CopyRowsRun(l: Lane, v: nat, lo: nat, n: nat, k: nat)
    requires k <= n && v + n <= lo && lo + n <= |l.mem|
    ensures var m' := Run(l, CopyRows(v, lo, k)).mem;
            && (forall i :: lo <= i < lo + k ==> m'[i] == l.mem[i - lo + v])
            && (forall i :: 0 <= i < |m'| && !(lo <= i < lo + k) ==> m'[i] == l.mem[i])
  {
    hide Run;
    if k == 0 {
      RunNop(l);
    } else {
      CopyRowsRun(l, v, lo, n, k - 1);
      RunThen(l, CopyRows(v, lo, k - 1), Do(AAP(Row(lo + k - 1), Row(v + k - 1))));
      CopyRow(Run(l, CopyRows(v, lo, k - 1)), lo + k - 1, v + k - 1);
    }
  }

  // ----- The program

  /** Trailing zeros, then the operand shifted to the lowest set bit z, then one zero row. */
  function FirstRows(v: nat, out: nat, n: nat, z: nat): Program {
    Then(Zeros(out, z), Then(CopyRows(v, out + z, n), Do(AAP(Row(out + z + n), C0))))
  }

  function ConstRound(c: nat, v: nat, out: nat, n: nat, j: nat): Program {
    if BitSet(c, j) then Framed(AddRounds(out + j, v, n, out + j, n), out + j + n)
    else Do(AAP(Row(out + j + n), C0))
  }

  function ConstRounds(c: nat, v: nat, out: nat, n: nat, z: nat, r: nat): Program
    requires z < r
  {
    if r == z + 1 then FirstRows(v, out, n, z)
    else Then(ConstRounds(c, v, out, n, z, r - 1), ConstRound(c, v, out, n, r - 1))
  }

  /** 10_multu_by_const */
  function ConstMultiplication(c: nat, v: nat, out: nat, n: nat): Program {
    var z := FirstSet(c, 0, n);
    if c == 0 || z == n then Zeros(out, 2 * n) else ConstRounds(c, v, out, n, z, n)
  }

  /** A copy of n rows between z zero rows and one more holds the number times 2^z. */
  lemma ShiftedCopy(m: seq<Bit>, m': seq<Bit>, v: nat, out: nat, n: nat, z: nat)
    requires v + n <= |m| && out + z + n < |m'|
    requires forall i :: out <= i < out + z ==> m'[i] == Zero
    requires forall i :: out + z <= i < out + z + n ==> m'[i] == m[i - (out + z) + v]
    requires m'[out + z + n] == Zero
    ensures Value(m', out, n + (z + 1)) == Pow2(z) * Value(m, v, n)
  {
    assert Value(m', out + z, n + 1) == Value(m', out + z, n);
    hide Value, Pow2;
    ValueZero(m', out, z);
    ValueSplit(m', out, z, n + (z + 1));
    ValueCopy(m', out + z, m, v, n);
    assert n + (z + 1) - z == n + 1;
  }

  lemma FirstRowsMemory(m: seq<Bit>, m1: seq<Bit>, m2: seq<Bit>, v: nat, out: nat, n: nat, z: nat)
    requires z < n && ConstFits(|m|, v, out, n) && |m2| == |m1| == |m|
    requires Cleared(m, m1, out, z)
    requires forall i :: out + z <= i < out + z + n ==> m2[i] == m1[i - (out + z) + v]
    requires forall i :: 0 <= i < |m| && !(out + z <= i < out + z + n) ==> m2[i] == m1[i]
    ensures Multiplying(m, m2[out + z + n := Zero], Pow2(z), v, out, n, z + 1)
  {
    hide Value, Pow2;
    ShiftedCopy(m, m2[out + z + n := Zero], v, out, n, z);
  }

  lemma FirstRowsMultiply(l: Lane, v: nat, out: nat, n: nat, z: nat)
    requires z < n && ConstFits(|l.mem|, v, out, n)
    ensures Multiplying(l.mem, Run(l, FirstRows(v, out, n, z)).mem, Pow2(z), v, out, n, z + 1)
  {
    hide Run, Zeros, CopyRows, Multiplying;
    RunThen(l, Zeros(out, z), Then(CopyRows(v, out + z, n), Do(AAP(Row(out + z + n), C0))));
    ZerosRun(l, out, z);
    var l1 := Run(l, Zeros(out, z));
    RunThen(l1, CopyRows(v, out + z, n), Do(AAP(Row(out + z + n), C0)));
    CopyRowsRun(l1, v, out + z, n, n);
    var l2 := Run(l1, CopyRows(v, out + z, n));
    StoreZero(l2, out + z + n);
    FirstRowsMemory(l.mem, l1.mem, l2.mem, v, out, n, z);
  }

  lemma ConstRoundMultiplies(m0: seq<Bit>, l: Lane, c: nat, v: nat, out: nat, n: nat, j: nat)
    requires j < n && ConstFits(|m0|, v, out, n) && |l.mem| == |m0|
    requires Multiplying(m0, l.mem, LowBits(c, j), v, out, n, j)
    ensures Multiplying(m0, Run(l, ConstRound(c, v, out, n, j)).mem, LowBits(c, j + 1), v, out, n, j + 1)
  {
    hide Run, Framed, AddRounds;
    var top := out + j + n;
    if BitSet(c, j) {
      var body := AddRounds(out + j, v, n, out + j, n);
      FramedParts(l, body, top);
      var l0 := Lane(l.cells.(dcc1 := Zero), l.mem);
      RippleAdds(l0, out + j, v, n, out + j, n, n);
      var l1 := Run(l0, body);
      assert Added(l.mem, Zero, l1.mem, l1.cells.dcc1, One, v, out + j, n);
      hide Multiplying, Added, RippleDone, BitSet;
      MultiplyingStep(m0, l.mem, l1.mem, l1.cells.dcc1, One, LowBits(c, j), v, out, n, j);
    } else {
      StoreZero(l, top);
      ValueFrame(l.mem, l.mem[top := Zero], out, n + j);
    }
  }

  /** After the bits below r have been dealt with, the low n + r result rows hold their product with the operand. */
  lemma {:induction false} ConstRoundsMultiply(l: Lane, c: nat, v: nat, out: nat, n: nat, z: nat, r: nat)
    requires z < r <= n && ConstFits(|l.mem|, v, out, n)
    requires BitSet(c, z) && forall i :: 0 <= i < z ==> !BitSet(c, i)
    ensures Multiplying(l.mem, Run(l, ConstRounds(c, v, out, n, z, r)).mem, LowBits(c, r), v, out, n, r)
  {
    hide Run, ConstRound, FirstRows, Multiplying, BitSet;
    if r == z + 1 {
      FirstRowsMultiply(l, v, out, n, z);
      LowBitsNone(c, z);
    } else {
      ConstRoundsMultiply(l, c, v, out, n, z, r - 1);
      RunThen(l, ConstRounds(c, v, out, n, z, r - 1), ConstRound(c, v, out, n, r - 1));
      ConstRoundMultiplies(l.mem, Run(l, ConstRounds(c, v, out, n, z, r - 1)), c, v, out, n, r - 1);
    }
  }

  /** For every constant below 2^n, zero included, all 2n result rows are written and hold c times the operand. */
  lemma ConstMultiplicationMultiplies(l: Lane, c: nat, v: nat, out: nat, n: nat)
    requires c < Pow2(n) && ConstFits(|l.mem|, v, out, n)
    ensures var m' := Run(l, ConstMultiplication(c, v, out, n)).mem;
            && Value(m', out, 2 * n) == c * Value(l.mem, v, n)
            && (forall i :: 0 <= i < |m'| && !(out <= i < out + 2 * n) ==> m'[i] == l.mem[i])
  {
    if c == 0 {
      ZerosRun(l, out, 2 * n);
      hide Run, FirstSet;
      ValueZero(Run(l, ConstMultiplication(c, v, out, n)).mem, out, 2 * n);
    } else {
      hide Run, BitSet;
      FirstSetFound(c, n);
      ConstRoundsMultiply(l, c, v, out, n, FirstSet(c, 0, n), n);
      LowBitsAll(c, n);
    }
  }

  /** The specialised program and the general one leave the same result rows when the first operand is the constant. */
  lemma ConstAgreesWithGeneral(l: Lane, c: nat, v1: nat, v2: nat, out: nat, n: nat)
    requires Fits(|l.mem|, v1, v2, out, n) && Value(l.mem, v1, n) == c
    ensures Run(l, ConstMultiplication(c, v2, out, n)).mem == Run(l, Multiplication(v1, v2, out, n)).mem
  {
    hide Run, ConstMultiplication, Multiplication, Value;
    ValueBound(l.mem, v1, n);
    ConstMultiplicationMultiplies(l, c, v2, out, n);
    MultiplicationMultiplies(l, v1, v2, out, n);
    ValueInjective(Run(l, ConstMultiplication(c, v2, out, n)).mem, out,
                   Run(l, Multiplication(v1, v2, out, n)).mem, out, 2 * n);
  }

  // ----- The driver's loops

  method MultiplyByConst(s: Subarray, c: nat, v: nat, out: nat, n: nat)
    requires c < Pow2(n) && ConstFits(|s.mem|, v, out, n)
    modifies s
    ensures s.State() == Run(old(s.State()), ConstMultiplication(c, v, out, n))
    ensures |s.mem| == |old(s.mem)|
    ensures Value(s.mem, out, 2 * n) == c * old(Value(s.mem, v, n))
    ensures forall i :: 0 <= i < |s.mem| && !(out <= i < out + 2 * n) ==> s.mem[i] == old(s.mem[i])
  {
    hide Step, BitSet;
    ghost var start := s.State();
    if c == 0 {
      for j := 0 to 2 * n
        invariant s.State() == Run(start, Zeros(out, j))
      {
        RunDo(s.State(), AAP(Row(out + j), C0));
        s.Aap(Row(out + j), C0);
      }
    } else {
      FirstSetFound(c, n);
      ghost var z := FirstSet(c, 0, n);
      var j := 0;
      while j < n && !BitSet(c, j)
        invariant j <= z && FirstSet(c, j, n) == z
        invariant s.State() == Run(start, Zeros(out, j))
        decreases n - j
      {
        RunDo(s.State(), AAP(Row(out + j), C0));
        s.Aap(Row(out + j), C0);
        j := j + 1;
      }
      StoreFirstRows(s, v, out, n, j, start);
      j := j + 1;
      while j < n
        invariant z < j <= n
        invariant s.State() == Run(start, ConstRounds(c, v, out, n, z, j))
      {
        AddConstRound(s, c, v, out, n, j);
        j := j + 1;
      }
    }
    ConstMultiplicationMultiplies(start, c, v, out, n);
  }

  /** Copy the operand once, at the lowest set bit, and clear the row above it. */
  method StoreFirstRows(s: Subarray, v: nat, out: nat, n: nat, z: nat, ghost start: Lane)
    requires z < n && ConstFits(|s.mem|, v, out, n)
    requires s.State() == Run(start, Zeros(out, z))
    modifies s
    ensures s.State() == Run(start, FirstRows(v, out, n, z))
  {
    hide Step, Zeros;
    ghost var l1 := s.State();
    for k := 0 to n
      invariant s.State() == Run(l1, CopyRows(v, out + z, k))
    {
      RunDo(s.State(), AAP(Row(out + z + k), Row(v + k)));
      s.Aap(Row(out + z + k), Row(v + k));
    }
    RunDo(s.State(), AAP(Row(out + z + n), C0));
    s.Aap(Row(out + z + n), C0);
    hide Run, CopyRows;
    RunThen(start, Zeros(out, z), Then(CopyRows(v, out + z, n), Do(AAP(Row(out + z + n), C0))));
    RunThen(l1, CopyRows(v, out + z, n), Do(AAP(Row(out + z + n), C0)));
  }

  method AddConstRound(s: Subarray, c: nat, v: nat, out: nat, n: nat, j: nat)
    requires j < n && ConstFits(|s.mem|, v, out, n)
    modifies s
    ensures s.State() == Run(old(s.State()), ConstRound(c, v, out, n, j))
  {
    hide Step, BitSet, AddStep;
    ghost var l0 := s.State();
    if BitSet(c, j) {
      RunDo(l0, AAP(DCC1, C0));
      s.Aap(DCC1, C0);
      ghost var l1 := s.State();
      for k := 0 to n
        invariant s.State() == Run(l1, AddRounds(out + j, v, n, out + j, k))
      {
        AddStepIssuable(DCC1, out + j + k, Row(v + k), out + j + k, |s.mem|);
        s.Issue(AddStep(DCC1, out + j + k, Row(v + k), out + j + k));
      }
      RunDo(s.State(), AAP(Row(out + j + n), DCC1));
      s.Aap(Row(out + j + n), DCC1);
      hide Run, AddRounds;
      ghost var body := AddRounds(out + j, v, n, out + j, n);
      RunThen(l0, Then(Do(AAP(DCC1, C0)), body), Do(AAP(Row(out + j + n), DCC1)));
      RunThen(l0, Do(AAP(DCC1, C0)), body);
    } else {
      RunDo(l0, AAP(Row(out + j + n), C0));
      s.Aap(Row(out + j + n), C0);
    }
  }
}
