/** The shift-and-add multiplier: n-bit operands, 2n result rows, one row of partial products per round. */
module Multiplier {
  import opened Bits
  import opened Dram
  import opened Adder

  /** Operands first, then the 2n result rows. */
  predicate Fits(size: nat, v1: nat, v2: nat, out: nat, n: nat) {
    0 < n && v1 + n <= v2 && v2 + n <= out && out + 2 * n <= size
  }

  // ----- One bit of one partial product added in place

  function MulStep(v1: nat, v2: nat, out: nat): Program {
    Then(Block8(AAP(T0, Row(v1)), AAP(T1, Row(v2)), AAP(T2, C0), AP(T0_T1_T2),
                AAP(T2_T3, DCC1), AAP(DCC1, Row(out)), AP(DCC1_T0_T3), AAP(T0_T3, DCC1N)),
         Block3(AP(T0_T1_T2), AAP(T1, Row(out)), AAP(Row(out), T1_T2_T3)))
  }

  lemma MulStepProduct(l: Lane, v1: nat, v2: nat)
    requires v1 < |l.mem| && v2 < |l.mem|
    ensures var p := Maj(l.mem[v1], l.mem[v2], Zero);
            Steps4(l, AAP(T0, Row(v1)), AAP(T1, Row(v2)), AAP(T2, C0), AP(T0_T1_T2))
            == Lane(l.cells.(t0 := p, t1 := p, t2 := p), l.mem)
  {
    hide Maj, Not;
  }

  lemma MulStepCarry(l: Lane, out: nat)
    requires out < |l.mem|
    ensures var s := Maj(l.mem[out], l.cells.t0, l.cells.dcc1);
            Steps4(l, AAP(T2_T3, DCC1), AAP(DCC1, Row(out)), AP(DCC1_T0_T3), AAP(T0_T3, DCC1N))
            == Lane(Cells(Not(s), l.cells.t1, l.cells.dcc1, Not(s), l.cells.dcc0, s), l.mem)
  {
    hide Maj, Not;
  }

  lemma MulStepSum(l: Lane, out: nat)
    requires out < |l.mem|
    ensures var x := Maj(l.cells.t0, l.cells.t1, l.cells.t2);
            var y := Maj(l.mem[out], x, l.cells.t3);
            Steps3(l, AP(T0_T1_T2), AAP(T1, Row(out)), AAP(Row(out), T1_T2_T3))
            == Lane(l.cells.(t0 := x, t1 := y, t2 := y, t3 := y), l.mem[out := y])
  {
    hide Maj, Not;
  }

  /** The eleven commands add one product bit and the carry in DCC1 to row out. */
  lemma MulStepAdds(l: Lane, v1: nat, v2: nat, out: nat)
    requires v1 < |l.mem| && v2 < |l.mem| && out < |l.mem|
    ensures var a, b, c := l.cells.dcc1, l.mem[out], And(l.mem[v1], l.mem[v2]);
            var l' := Run(l, MulStep(v1, v2, out));
            && l'.mem == l.mem[out := Sum3(a, b, c)]
            && Num(Sum3(a, b, c)) + 2 * Num(l'.cells.dcc1) == Num(a) + Num(b) + Num(c)
  {
    hide Run, Steps3, Steps4, Step, Block3, Maj, Not, And, Sum3;
    RunThen(l, Block8(AAP(T0, Row(v1)), AAP(T1, Row(v2)), AAP(T2, C0), AP(T0_T1_T2),
                      AAP(T2_T3, DCC1), AAP(DCC1, Row(out)), AP(DCC1_T0_T3), AAP(T0_T3, DCC1N)),
            Block3(AP(T0_T1_T2), AAP(T1, Row(out)), AAP(Row(out), T1_T2_T3)));
    RunBlock8(l, AAP(T0, Row(v1)), AAP(T1, Row(v2)), AAP(T2, C0), AP(T0_T1_T2),
              AAP(T2_T3, DCC1), AAP(DCC1, Row(out)), AP(DCC1_T0_T3), AAP(T0_T3, DCC1N));
    hide Block8;
    var l4 := Steps4(l, AAP(T0, Row(v1)), AAP(T1, Row(v2)), AAP(T2, C0), AP(T0_T1_T2));
    var l8 := Steps4(l4, AAP(T2_T3, DCC1), AAP(DCC1, Row(out)), AP(DCC1_T0_T3), AAP(T0_T3, DCC1N));
    RunBlock3(l8, AP(T0_T1_T2), AAP(T1, Row(out)), AAP(Row(out), T1_T2_T3));
    MulStepProduct(l, v1, v2);
    MulStepCarry(l4, out);
    MulStepSum(l8, out);
    MajZero(l.mem[v1], l.mem[v2]);
    MajSum(l.cells.dcc1, l.mem[out], And(l.mem[v1], l.mem[v2]));
  }

  /** k bits of the partial product of row v1 with the operand at v2, added to the rows at out. */
  function MulRow(v1: nat, v2: nat, out: nat, k: nat): Program {
    if k == 0 then Nop else Then(MulRow(v1, v2, out, k - 1), MulStep(v1, v2 + k - 1, out + k - 1))
  }

  function Partial(b: Bit, x: nat): nat {
    if b == One then x else 0
  }

  /** What k steps of adding b times the operand at v2 into the rows at out have done. */
  ghost predicate Added(m: seq<Bit>, c: Bit, m': seq<Bit>, c': Bit, b: Bit, v2: nat, out: nat, k: nat)
    requires |m'| == |m| && v2 + k <= |m| && out + k <= |m|
  {
    && Value(m', out, k) + Weight(c', k) == Value(m, out, k) + Partial(b, Value(m, v2, k)) + Num(c)
    && forall i :: 0 <= i < |m| && !(out <= i < out + k) ==> m'[i] == m[i]
  }

  lemma AddedStep(m: seq<Bit>, c: Bit, m1: seq<Bit>, c1: Bit, s: Bit, c': Bit, b: Bit, v2: nat, out: nat, k: nat)
    requires v2 + k < out && out + k < |m| && |m1| == |m|
    requires Added(m, c, m1, c1, b, v2, out, k)
    requires Num(s) + 2 * Num(c') == Num(c1) + Num(m1[out + k]) + Num(And(b, m1[v2 + k]))
    ensures Added(m, c, m1[out + k := s], c', b, v2, out, k + 1)
  {
    ValueFrame(m1, m1[out + k := s], out, k);
    WeightSum(s, c', c1, m[out + k], And(b, m[v2 + k]), k);
  }

  lemma {:induction false} MulRowAdds(l: Lane, v1: nat, v2: nat, out: nat, n: nat, k: nat)
    requires k <= n && v1 < v2 && v2 + n <= out && out + n <= |l.mem|
    ensures var l' := Run(l, MulRow(v1, v2, out, k));
            Added(l.mem, l.cells.dcc1, l'.mem, l'.cells.dcc1, l.mem[v1], v2, out, k)
  {
    hide Run, MulStep, And, Sum3;
    if k == 0 {
      RunNop(l);
    } else {
      MulRowAdds(l, v1, v2, out, n, k - 1);
      var l1 := Run(l, MulRow(v1, v2, out, k - 1));
      assert l1.mem[v1] == l.mem[v1];
      hide Added;
      RunThen(l, MulRow(v1, v2, out, k - 1), MulStep(v1, v2 + k - 1, out + k - 1));
      MulStepAdds(l1, v1, v2 + k - 1, out + k - 1);
      var l' := Run(l, MulRow(v1, v2, out, k));
      AddedStep(l.mem, l.cells.dcc1, l1.mem, l1.cells.dcc1, l'.mem[out + k - 1], l'.cells.dcc1,
                l.mem[v1], v2, out, k - 1);
    }
  }

  // ----- A round: clear the carry, add a shifted partial product, store the carry above it

  function Framed(body: Program, top: nat): Program {
    Then(Then(Do(AAP(DCC1, C0)), body), Do(AAP(Row(top), DCC1)))
  }

  lemma FramedParts(l: Lane, body: Program, top: nat)
    requires top < |l.mem|
    ensures var l0 := Lane(l.cells.(dcc1 := Zero), l.mem);
            var l1 := Run(l0, body);
            Run(l, Framed(body, top)) == Lane(l1.cells, l1.mem[top := l1.cells.dcc1])
  {
    hide Run;
    var l0 := Step(l, AAP(DCC1, C0));
    assert l0 == Lane(l.cells.(dcc1 := Zero), l.mem);
    RunThen(l, Then(Do(AAP(DCC1, C0)), body), Do(AAP(Row(top), DCC1)));
    RunThen(l, Do(AAP(DCC1, C0)), body);
    RunDo(l, AAP(DCC1, C0));
    RunDo(Run(l0, body), AAP(Row(top), DCC1));
  }

  /** Adding x into rows out+j .. and storing the carry on top adds 2^j x to the whole number. */
  lemma Accumulate(m: seq<Bit>, m1: seq<Bit>, c: Bit, b: Bit, v2: nat, out: nat, n: nat, j: nat)
    requires v2 + n <= out && out + j + n < |m| && |m1| == |m|
    requires Added(m, Zero, m1, c, b, v2, out + j, n)
    ensures var m' := m1[out + j + n := c];
            && Value(m', out, n + j + 1) == Value(m, out, n + j) + Pow2(j) * Partial(b, Value(m, v2, n))
            && (forall i :: 0 <= i < |m| && !(out + j <= i <= out + j + n) ==> m'[i] == m[i])
  {
    var m' := m1[out + j + n := c];
    ValueFrame(m, m', out, j);
    ValueFrame(m1, m', out + j, n);
    ValueSplit(m', out, j, n + j + 1);
    ValueSplit(m, out, j, n + j);
    assert Value(m', out + j, n + 1) == Value(m, out + j, n) + Partial(b, Value(m, v2, n));
    MulDistributes(Pow2(j), Value(m, out + j, n), Partial(b, Value(m, v2, n)));
  }

  /** The product of the low r bits of the first operand with the second stands in the low n + r result rows. */
  ghost predicate Multiplying(m0: seq<Bit>, m: seq<Bit>, x: nat, v2: nat, out: nat, n: nat, r: nat)
    requires v2 + n <= out && out + n + r <= |m0| && |m| == |m0|
  {
    && Value(m, out, n + r) == x * Value(m0, v2, n)
    && (forall i :: 0 <= i < |m0| && !(out <= i < out + n + r) ==> m[i] == m0[i])
  }

  /** Adding bit b of weight 2^j of the multiplier. */
  lemma MultiplyingStep(m0: seq<Bit>, m: seq<Bit>, m1: seq<Bit>, c: Bit, b: Bit, x: nat,
                        v2: nat, out: nat, n: nat, j: nat)
    requires v2 + n <= out && out + j + n < |m0| && |m1| == |m| == |m0|
    requires Multiplying(m0, m, x, v2, out, n, j)
    requires Added(m, Zero, m1, c, b, v2, out + j, n)
    ensures Multiplying(m0, m1[out + j + n := c], x + Weight(b, j), v2, out, n, j + 1)
  {
    Accumulate(m, m1, c, b, v2, out, n, j);
    ValueFrame(m0, m, v2, n);
    hide Value, Added;
    var y := Value(m0, v2, n);
    MulDistributes(y, x, Weight(b, j));
    assert Pow2(j) * Partial(b, y) == Weight(b, j) * y;
  }

  // ----- The whole multiplication

  /** 11_multu, first loop: the low partial product goes straight to the result rows. */
  function FirstStep(v1: nat, v2: nat, out: nat): Program {
    Block4(AAP(T0, Row(v1)), AAP(T1, Row(v2)), AAP(T2, C0), AAP(Row(out), T0_T1_T2))
  }

  lemma FirstStepRuns(l: Lane, v1: nat, v2: nat, out: nat)
    requires v1 < |l.mem| && v2 < |l.mem| && out < |l.mem|
    ensures var p := And(l.mem[v1], l.mem[v2]);
            Run(l, FirstStep(v1, v2, out)) == Lane(l.cells.(t0 := p, t1 := p, t2 := p), l.mem[out := p])
  {
    hide Run, Maj, And;
    MajZero(l.mem[v1], l.mem[v2]);
    FirstStepSteps(l, v1, v2, out);
    hide Steps4;
    RunBlock4(l, AAP(T0, Row(v1)), AAP(T1, Row(v2)), AAP(T2, C0), AAP(Row(out), T0_T1_T2));
  }

  lemma FirstStepSteps(l: Lane, v1: nat, v2: nat, out: nat)
    requires v1 < |l.mem| && v2 < |l.mem| && out < |l.mem|
    ensures var p := Maj(l.mem[v1], l.mem[v2], Zero);
            Steps4(l, AAP(T0, Row(v1)), AAP(T1, Row(v2)), AAP(T2, C0), AAP(Row(out), T0_T1_T2))
            == Lane(l.cells.(t0 := p, t1 := p, t2 := p), l.mem[out := p])
  {
    hide Maj, Not;
  }

  function FirstRow(v1: nat, v2: nat, out: nat, k: nat): Program {
    if k == 0 then Nop else Then(FirstRow(v1, v2, out, k - 1), FirstStep(v1, v2 + k - 1, out + k - 1))
  }

  lemma {:induction false} FirstRowRuns(l: Lane, v1: nat, v2: nat, out: nat, n: nat, k: nat)
    requires k <= n && v1 < v2 && v2 + n <= out && out + n <= |l.mem|
    ensures var m' := Run(l, FirstRow(v1, v2, out, k)).mem;
            && (forall i :: 0 <= i < |m'| && !(out <= i < out + k) ==> m'[i] == l.mem[i])
            && Value(m', out, k) == Partial(l.mem[v1], Value(l.mem, v2, k))
  {
    hide Run, FirstStep;
    if k == 0 {
      RunNop(l);
    } else {
      FirstRowRuns(l, v1, v2, out, n, k - 1);
      RunThen(l, FirstRow(v1, v2, out, k - 1), FirstStep(v1, v2 + k - 1, out + k - 1));
      var l1 := Run(l, FirstRow(v1, v2, out, k - 1));
      FirstStepRuns(l1, v1, v2 + k - 1, out + k - 1);
      ValueFrame(l1.mem, Run(l, FirstRow(v1, v2, out, k)).mem, out, k - 1);
    }
  }

  /** r rounds, the first of which only stores. */
  function Rounds(v1: nat, v2: nat, out: nat, n: nat, r: nat): Program
    requires r > 0
  {
    if r == 1 then Then(FirstRow(v1, v2, out, n), Do(AAP(Row(out + n), C0)))
    else Then(Rounds(v1, v2, out, n, r - 1), Framed(MulRow(v1 + r - 1, v2, out + r - 1, n), out + r - 1 + n))
  }

  lemma FirstRoundMultiplies(l: Lane, v1: nat, v2: nat, out: nat, n: nat)
    requires Fits(|l.mem|, v1, v2, out, n)
    ensures Multiplying(l.mem, Run(l, Rounds(v1, v2, out, n, 1)).mem, Value(l.mem, v1, 1), v2, out, n, 1)
  {
    hide Run, FirstRow;
    FirstRowRuns(l, v1, v2, out, n, n);
    var l1 := Run(l, FirstRow(v1, v2, out, n));
    RunThen(l, FirstRow(v1, v2, out, n), Do(AAP(Row(out + n), C0)));
    RunDo(l1, AAP(Row(out + n), C0));
    var m' := Run(l, Rounds(v1, v2, out, n, 1)).mem;
    assert m' == l1.mem[out + n := Zero];
    hide Step;
    ValueFrame(l1.mem, m', out, n);
    assert Value(l.mem, v1, 1) == Num(l.mem[v1]);
  }

  /** After r rounds the low n + r result rows hold the product with the low r bits of the first operand. */
  lemma {:induction false} RoundsMultiply(l: Lane, v1: nat, v2: nat, out: nat, n: nat, r: nat)
    requires 1 <= r <= n && Fits(|l.mem|, v1, v2, out, n)
    ensures Multiplying(l.mem, Run(l, Rounds(v1, v2, out, n, r)).mem, Value(l.mem, v1, r), v2, out, n, r)
  {
    hide Run, Framed, MulRow, Added;
    if r == 1 {
      FirstRoundMultiplies(l, v1, v2, out, n);
    } else {
      var j := r - 1;
      RoundsMultiply(l, v1, v2, out, n, j);
      var row := MulRow(v1 + j, v2, out + j, n);
      RunThen(l, Rounds(v1, v2, out, n, j), Framed(row, out + j + n));
      var l1 := Run(l, Rounds(v1, v2, out, n, j));
      assert l1.mem[v1 + j] == l.mem[v1 + j];
      hide Multiplying;
      FramedParts(l1, row, out + j + n);
      var l2 := Lane(l1.cells.(dcc1 := Zero), l1.mem);
      MulRowAdds(l2, v1 + j, v2, out + j, n, n);
      var l3 := Run(l2, row);
      MultiplyingStep(l.mem, l1.mem, l3.mem, l3.cells.dcc1, l.mem[v1 + j], Value(l.mem, v1, j), v2, out, n, j);
    }
  }

  function Multiplication(v1: nat, v2: nat, out: nat, n: nat): Program
    requires n > 0
  {
    Rounds(v1, v2, out, n, n)
  }

  /** Whatever the result rows held before, all 2n of them end up holding the exact product. */
  lemma MultiplicationMultiplies(l: Lane, v1: nat, v2: nat, out: nat, n: nat)
    requires Fits(|l.mem|, v1, v2, out, n)
    ensures var m' := Run(l, Multiplication(v1, v2, out, n)).mem;
            && Value(m', out, 2 * n) == Value(l.mem, v1, n) * Value(l.mem, v2, n)
            && (forall i :: 0 <= i < |m'| && !(out <= i < out + 2 * n) ==> m'[i] == l.mem[i])
  {
    RoundsMultiply(l, v1, v2, out, n, n);
  }

  // ----- The driver's loops

  lemma StepsIssuable(v1: nat, v2: nat, out: nat, n: nat)
    requires v1 < n && v2 < n && out < n
    ensures Issuable(FirstStep(v1, v2, out), n) && Issuable(MulStep(v1, v2, out), n)
  {
    IssuableBlock4(AAP(T0, Row(v1)), AAP(T1, Row(v2)), AAP(T2, C0), AAP(Row(out), T0_T1_T2), n);
    IssuableBlock4(AAP(T0, Row(v1)), AAP(T1, Row(v2)), AAP(T2, C0), AP(T0_T1_T2), n);
    IssuableBlock4(AAP(T2_T3, DCC1), AAP(DCC1, Row(out)), AP(DCC1_T0_T3), AAP(T0_T3, DCC1N), n);
    IssuableBlock3(AP(T0_T1_T2), AAP(T1, Row(out)), AAP(Row(out), T1_T2_T3), n);
    hide Block3, Block4, Legal;
  }

  method MultiplyVectors(s: Subarray, v1: nat, v2: nat, out: nat, n: nat)
    requires Fits(|s.mem|, v1, v2, out, n)
    modifies s
    ensures s.State() == Run(old(s.State()), Multiplication(v1, v2, out, n))
    ensures |s.mem| == |old(s.mem)|
    ensures Value(s.mem, out, 2 * n) == old(Value(s.mem, v1, n)) * old(Value(s.mem, v2, n))
    ensures forall i :: 0 <= i < |s.mem| && !(out <= i < out + 2 * n) ==> s.mem[i] == old(s.mem[i])
  {
    hide Run, Step, FirstStep, MulStep;
    ghost var start := s.State();
    RunNop(start);
    for k := 0 to n
      invariant s.State() == Run(start, FirstRow(v1, v2, out, k))
    {
      StepsIssuable(v1, v2 + k, out + k, |s.mem|);
      s.Issue(FirstStep(v1, v2 + k, out + k));
      RunThen(start, FirstRow(v1, v2, out, k), FirstStep(v1, v2 + k, out + k));
    }
    RunDo(s.State(), AAP(Row(out + n), C0));
    s.Aap(Row(out + n), C0);
    RunThen(start, FirstRow(v1, v2, out, n), Do(AAP(Row(out + n), C0)));
    for j := 1 to n
      invariant s.State() == Run(start, Rounds(v1, v2, out, n, j))
    {
      ghost var l0 := s.State();
      s.Aap(DCC1, C0);
      RunDo(l0, AAP(DCC1, C0));
      ghost var l1 := s.State();
      RunNop(l1);
      for k := 0 to n
        invariant s.State() == Run(l1, MulRow(v1 + j, v2, out + j, k))
      {
        StepsIssuable(v1 + j, v2 + k, out + j + k, |s.mem|);
        s.Issue(MulStep(v1 + j, v2 + k, out + j + k));
        RunThen(l1, MulRow(v1 + j, v2, out + j, k), MulStep(v1 + j, v2 + k, out + j + k));
      }
      RunDo(s.State(), AAP(Row(out + j + n), DCC1));
      s.Aap(Row(out + j + n), DCC1);
      ghost var row := MulRow(v1 + j, v2, out + j, n);
      RunThen(l0, Then(Do(AAP(DCC1, C0)), row), Do(AAP(Row(out + j + n), DCC1)));
      RunThen(l0, Do(AAP(DCC1, C0)), row);
      RunThen(start, Rounds(v1, v2, out, n, j), Framed(row, out + j + n));
    }
    MultiplicationMultiplies(start, v1, v2, out, n);
  }
}
