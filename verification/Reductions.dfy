/** The and and or of a column, two bits per step, and the sign tests of a two's complement column. */
module Reductions {
  import opened Bits
  import opened Dram

  /** The constant row that holds b. */
  function Constant(b: Bit): Address {
    if b == One then C1 else C0
  }

  /** The chain of votes against b: with b zero a conjunction, with b one a disjunction. */
  function Folded(m: seq<Bit>, v: nat, n: nat, b: Bit): Bit
    requires v + n <= |m|
  {
    if n == 0 then Not(b) else Maj(m[v + n - 1], b, Folded(m, v, n - 1, b))
  }

  /** The and of a column is one exactly when it holds the largest number. */
  lemma {:induction false} FoldedAnd(m: seq<Bit>, v: nat, n: nat)
    requires v + n <= |m|
    ensures Folded(m, v, n, Zero) == Truth(Value(m, v, n) == Pow2(n) - 1)
  {
    if n > 0 {
      FoldedAnd(m, v, n - 1);
      ValueBound(m, v, n - 1);
    }
  }

  /** The or of a column is one exactly when it does not hold zero. */
  lemma {:induction false} FoldedOr(m: seq<Bit>, v: nat, n: nat)
    requires v + n <= |m|
    ensures Folded(m, v, n, One) == Truth(Value(m, v, n) != 0)
  {
    if n > 0 {
      FoldedOr(m, v, n - 1);
    }
  }

  // ----- Two bits per step, with the vote so far in T3

  function FoldStep(b: Bit, v: nat): Program {
    Then(Block4(AAP(T0_T1_T2, Constant(b)), AAP(DCC1, Row(v)), AAP(T2, DCC1_T0_T3), AAP(DCC0, Row(v + 1))),
         Do(AAP(T3, DCC0_T1_T2)))
  }

  lemma FoldStepFirst(l: Lane, b: Bit, v: nat)
    requires v + 1 < |l.mem|
    ensures var w := Maj(l.mem[v], b, l.cells.t3);
            Steps4(l, AAP(T0_T1_T2, Constant(b)), AAP(DCC1, Row(v)), AAP(T2, DCC1_T0_T3), AAP(DCC0, Row(v + 1)))
            == Lane(Cells(w, b, w, w, l.mem[v + 1], w), l.mem)
  {
    hide Maj, Not;
  }

  lemma FoldStepRuns(l: Lane, b: Bit, v: nat)
    requires v + 1 < |l.mem|
    ensures var l' := Run(l, FoldStep(b, v));
            l'.mem == l.mem && l'.cells.t3 == Maj(l.mem[v + 1], b, Maj(l.mem[v], b, l.cells.t3))
  {
    hide Run, Steps4, Block4, Maj, Not;
    var first := Block4(AAP(T0_T1_T2, Constant(b)), AAP(DCC1, Row(v)), AAP(T2, DCC1_T0_T3), AAP(DCC0, Row(v + 1)));
    RunThen(l, first, Do(AAP(T3, DCC0_T1_T2)));
    RunBlock4(l, AAP(T0_T1_T2, Constant(b)), AAP(DCC1, Row(v)), AAP(T2, DCC1_T0_T3), AAP(DCC0, Row(v + 1)));
    FoldStepFirst(l, b, v);
    RunDo(Run(l, first), AAP(T3, DCC0_T1_T2));
  }

  /** i steps on the rows from v on. */
  function FoldRounds(b: Bit, v: nat, i: nat): Program {
    if i == 0 then Nop else Then(FoldRounds(b, v, i - 1), FoldStep(b, v + 2 * (i - 1)))
  }

  lemma FoldedTwo(m: seq<Bit>, v: nat, n: nat, b: Bit)
    requires v + n + 2 <= |m|
    ensures Folded(m, v, n + 2, b) == Maj(m[v + n + 1], b, Maj(m[v + n], b, Folded(m, v, n, b)))
  {
    hide Maj;
  }

  lemma {:induction false} FoldRoundsRun(l: Lane, b: Bit, v: nat, k: nat, i: nat)
    requires v + k + 2 * i <= |l.mem| && l.cells.t3 == Folded(l.mem, v, k, b)
    ensures var l' := Run(l, FoldRounds(b, v + k, i));
            l'.mem == l.mem && l'.cells.t3 == Folded(l.mem, v, k + 2 * i, b)
  {
    hide Run, FoldStep, Maj, Not, Folded;
    if i == 0 {
      RunNop(l);
    } else {
      FoldRoundsRun(l, b, v, k, i - 1);
      RunThen(l, FoldRounds(b, v + k, i - 1), FoldStep(b, v + k + 2 * (i - 1)));
      FoldStepRuns(Run(l, FoldRounds(b, v + k, i - 1)), b, v + k + 2 * (i - 1));
      FoldedTwo(l.mem, v, k + 2 * (i - 1), b);
    }
  }

  /** Where the fold starts: the neutral constant, or the odd first row (k one). */
  function First(b: Bit, v: nat, k: nat): Address {
    if k == 0 then Constant(Not(b)) else Row(v)
  }

  /** The fold of k + 2 * i rows. */
  function FoldingPairs(b: Bit, v: nat, k: nat, i: nat): Program {
    Then(Do(AAP(T3, First(b, v, k))), FoldRounds(b, v + k, i))
  }

  function Folding(b: Bit, v: nat, n: nat): Program {
    FoldingPairs(b, v, n % 2, n / 2)
  }

  lemma LoadFirst(l: Lane, b: Bit, v: nat, k: nat)
    requires k <= 1 && v + k <= |l.mem|
    ensures Step(l, AAP(T3, First(b, v, k))) == Lane(l.cells.(t3 := Folded(l.mem, v, k, b)), l.mem)
  {
    if k == 1 {
      assert Folded(l.mem, v, 1, b) == Maj(l.mem[v], b, Folded(l.mem, v, 0, b));
    }
  }

  lemma FoldingPairsFold(l: Lane, b: Bit, v: nat, k: nat, i: nat)
    requires k <= 1 && v + k + 2 * i <= |l.mem|
    ensures var l' := Run(l, FoldingPairs(b, v, k, i));
            l'.mem == l.mem && l'.cells.t3 == Folded(l.mem, v, k + 2 * i, b)
  {
    hide Run, FoldRounds, Step, Folded, First;
    var load := AAP(T3, First(b, v, k));
    RunThen(l, Do(load), FoldRounds(b, v + k, i));
    RunDo(l, load);
    LoadFirst(l, b, v, k);
    FoldRoundsRun(Run(l, Do(load)), b, v, k, i);
  }

  /** For every width, odd or even, the vote over the whole column ends in T3. */
  lemma FoldingFolds(l: Lane, b: Bit, v: nat, n: nat)
    requires v + n <= |l.mem|
    ensures var l' := Run(l, Folding(b, v, n));
            l'.mem == l.mem && l'.cells.t3 == Folded(l.mem, v, n, b)
  {
    hide Run, FoldingPairs, Folded;
    assert n % 2 + 2 * (n / 2) == n;
    FoldingPairsFold(l, b, v, n % 2, n / 2);
  }

  /** 31_and_reduction (b zero) and 32_or_reduction (b one). */
  function Reduction(b: Bit, v: nat, out: nat, n: nat): Program {
    Then(Folding(b, v, n), Do(AAP(Row(out), T3)))
  }

  /** The output row is one exactly when the column holds all ones (and) or is not zero (or). */
  lemma ReductionReduces(l: Lane, b: Bit, v: nat, out: nat, n: nat)
    requires v + n <= |l.mem| && out < |l.mem|
    ensures var x := Value(l.mem, v, n);
            Run(l, Reduction(b, v, out, n)).mem == l.mem[out := Truth(if b == Zero then x == Pow2(n) - 1 else x != 0)]
  {
    hide Run, Folding, Step, Folded, Value;
    RunThen(l, Folding(b, v, n), Do(AAP(Row(out), T3)));
    FoldingFolds(l, b, v, n);
    RunDo(Run(l, Folding(b, v, n)), AAP(Row(out), T3));
    WriteRow(Run(l, Folding(b, v, n)), out, T3);
    if b == Zero {
      FoldedAnd(l.mem, v, n);
    } else {
      FoldedOr(l.mem, v, n);
    }
  }

  // ----- Sign tests

  /** The two's complement number held in rows v .. v+n-1. */
  function Signed(m: seq<Bit>, v: nat, n: nat): int
    requires 0 < n && v + n <= |m|
  {
    Value(m, v, n) - Weight(m[v + n - 1], n)
  }

  /** 36_greater_than_0: the or of all rows but the last, and the complement of the last. */
  function Positive(v: nat, out: nat, n: nat): Program
    requires n > 0
  {
    Then(Folding(One, v, n - 1), Block3(AAP(DCC1N, Row(v + n - 1)), AAP(T0, C0), AAP(Row(out), DCC1_T0_T3)))
  }

  /** 35_greater_equal_0 */
  function NonNegative(v: nat, out: nat, n: nat): Program
    requires n > 0
  {
    Block2(AAP(DCC0N, Row(v + n - 1)), AAP(Row(out), DCC0))
  }

  lemma PositiveTailRuns(l: Lane, msb: nat, out: nat)
    requires msb < |l.mem| && out < |l.mem|
    ensures Run(l, Block3(AAP(DCC1N, Row(msb)), AAP(T0, C0), AAP(Row(out), DCC1_T0_T3))).mem
            == l.mem[out := Maj(Not(l.mem[msb]), Zero, l.cells.t3)]
  {
    hide Run, Maj, Not;
    RunBlock3(l, AAP(DCC1N, Row(msb)), AAP(T0, C0), AAP(Row(out), DCC1_T0_T3));
  }

  lemma SignedSign(m: seq<Bit>, v: nat, n: nat)
    requires 0 < n && v + n <= |m|
    ensures Signed(m, v, n) >= 0 <==> m[v + n - 1] == Zero
    ensures Signed(m, v, n) > 0 <==> m[v + n - 1] == Zero && Value(m, v, n - 1) != 0
  {
    ValueBound(m, v, n - 1);
  }

  lemma PositiveTests(l: Lane, v: nat, out: nat, n: nat)
    requires 0 < n && v + n <= |l.mem| && out < |l.mem|
    ensures Run(l, Positive(v, out, n)).mem == l.mem[out := Truth(Signed(l.mem, v, n) > 0)]
  {
    hide Run, Folding, Block3, Folded, Value, Signed;
    RunThen(l, Folding(One, v, n - 1), Block3(AAP(DCC1N, Row(v + n - 1)), AAP(T0, C0), AAP(Row(out), DCC1_T0_T3)));
    FoldingFolds(l, One, v, n - 1);
    FoldedOr(l.mem, v, n - 1);
    PositiveTailRuns(Run(l, Folding(One, v, n - 1)), v + n - 1, out);
    SignedSign(l.mem, v, n);
  }

  lemma NonNegativeTests(l: Lane, v: nat, out: nat, n: nat)
    requires 0 < n && v + n <= |l.mem| && out < |l.mem|
    ensures Run(l, NonNegative(v, out, n)).mem == l.mem[out := Truth(Signed(l.mem, v, n) >= 0)]
  {
    hide Run, Value, Signed;
    RunBlock2(l, AAP(DCC0N, Row(v + n - 1)), AAP(Row(out), DCC0));
    SignedSign(l.mem, v, n);
  }

  // ----- The drivers' loops

  lemma FoldStepIssuable(b: Bit, v: nat, n: nat)
    requires v + 1 < n
    ensures Issuable(FoldStep(b, v), n)
  {
    IssuableBlock4(AAP(T0_T1_T2, Constant(b)), AAP(DCC1, Row(v)), AAP(T2, DCC1_T0_T3), AAP(DCC0, Row(v + 1)), n);
    assert Issuable(Do(AAP(T3, DCC0_T1_T2)), n);
  }

  /** The stride-two loop; on return j is the first row not folded. */
  method FoldVectors(s: Subarray, b: Bit, v: nat, n: nat) returns (j: nat)
    requires v + n <= |s.mem|
    modifies s
    ensures s.State() == Run(old(s.State()), Folding(b, v, n)) && j == n
    ensures s.mem == old(s.mem) && s.t3 == Folded(s.mem, v, n, b)
  {
    hide Step, FoldStep, Folded;
    ghost var start := s.State();
    j := n % 2;
    RunDo(start, AAP(T3, First(b, v, j)));
    s.Aap(T3, First(b, v, j));
    ghost var l1 := s.State();
    ghost var i := 0;
    while j + 1 < n
      invariant j == n % 2 + 2 * i && i <= n / 2
      invariant s.State() == Run(l1, FoldRounds(b, v + n % 2, i))
    {
      FoldStepIssuable(b, v + j, |s.mem|);
      s.Issue(FoldStep(b, v + j));
      j, i := j + 2, i + 1;
    }
    hide Run, FoldRounds;
    RunThen(start, Do(AAP(T3, First(b, v, n % 2))), FoldRounds(b, v + n % 2, n / 2));
    FoldingFolds(start, b, v, n);
  }

  method ReduceVectors(s: Subarray, b: Bit, v: nat, out: nat, n: nat)
    requires v + n <= |s.mem| && out < |s.mem|
    modifies s
    ensures s.State() == Run(old(s.State()), Reduction(b, v, out, n))
    ensures var x := Value(old(s.mem), v, n);
            s.mem == old(s.mem)[out := Truth(if b == Zero then x == Pow2(n) - 1 else x != 0)]
  {
    hide Step, Run, Folding, Folded, Value;
    ghost var start := s.State();
    var j := FoldVectors(s, b, v, n);
    RunDo(s.State(), AAP(Row(out), T3));
    s.Aap(Row(out), T3);
    RunThen(start, Folding(b, v, n), Do(AAP(Row(out), T3)));
    ReductionReduces(start, b, v, out, n);
  }

  method TestPositive(s: Subarray, v: nat, out: nat, n: nat)
    requires 0 < n && v + n <= |s.mem| && out < |s.mem|
    modifies s
    ensures s.State() == Run(old(s.State()), Positive(v, out, n))
    ensures s.mem == old(s.mem)[out := Truth(Signed(old(s.mem), v, n) > 0)]
  {
    hide Step, Run, Folding, Folded, Signed, Block3;
    ghost var start := s.State();
    var j := FoldVectors(s, One, v, n - 1);
    IssuableBlock3(AAP(DCC1N, Row(v + j)), AAP(T0, C0), AAP(Row(out), DCC1_T0_T3), |s.mem|);
    s.Issue(Block3(AAP(DCC1N, Row(v + j)), AAP(T0, C0), AAP(Row(out), DCC1_T0_T3)));
    RunThen(start, Folding(One, v, n - 1), Block3(AAP(DCC1N, Row(v + j)), AAP(T0, C0), AAP(Row(out), DCC1_T0_T3)));
    PositiveTests(start, v, out, n);
  }
}
