/**
  The minimum, maximum and if-then-else programs.  Their select stage overwrites the first
  operand before reading it, so a set selection bit yields all ones instead of the first operand;
  the lemmas say exactly for which lanes the result is nevertheless right.
 */
module Select {
  import opened Bits
  import opened Dram
  import opened Comparisons

  function SelectStep(s: nat, v1: nat, v2: nat, out: nat): Program {
    Then(Block4(AAP(DCC0N_T0, Row(s)), AAP(DCC1N_T1, C1), AAP(T3, Row(v1)), AAP(T2, Row(v2))),
         Block3(AP(T0_T1_T2), AAP(T3, DCC0_T1_T2), AAP(Row(out), DCC1_T0_T3)))
  }

  lemma SelectLoads(l: Lane, s: nat, v1: nat, v2: nat)
    requires s < |l.mem| && v1 < |l.mem| && v2 < |l.mem|
    ensures Steps4(l, AAP(DCC0N_T0, Row(s)), AAP(DCC1N_T1, C1), AAP(T3, Row(v1)), AAP(T2, Row(v2)))
            == Lane(Cells(l.mem[s], One, l.mem[v2], l.mem[v1], Not(l.mem[s]), Zero), l.mem)
  {
  }

  lemma SelectVotes(l: Lane, out: nat)
    requires out < |l.mem| && l.cells.t1 == One && l.cells.dcc1 == Zero
    ensures Steps3(l, AP(T0_T1_T2), AAP(T3, DCC0_T1_T2), AAP(Row(out), DCC1_T0_T3)).mem
            == l.mem[out := OrBit(l.cells.t0, l.cells.t2)]
  {
    var o := Maj(l.cells.t0, One, l.cells.t2);
    assert Maj(l.cells.dcc0, o, o) == o == Maj(Zero, o, o) == OrBit(l.cells.t0, l.cells.t2);
    hide Maj, OrBit;
  }

  function OrBit(a: Bit, b: Bit): Bit {
    if a == One then One else b
  }

  lemma SelectStepRuns(l: Lane, s: nat, v1: nat, v2: nat, out: nat)
    requires s < |l.mem| && v1 < |l.mem| && v2 < |l.mem| && out < |l.mem|
    ensures Run(l, SelectStep(s, v1, v2, out)).mem == l.mem[out := OrBit(l.mem[s], l.mem[v2])]
  {
    hide Run, Steps3, Steps4, Block3, Block4, Not, OrBit;
    RunThen(l, Block4(AAP(DCC0N_T0, Row(s)), AAP(DCC1N_T1, C1), AAP(T3, Row(v1)), AAP(T2, Row(v2))),
            Block3(AP(T0_T1_T2), AAP(T3, DCC0_T1_T2), AAP(Row(out), DCC1_T0_T3)));
    RunBlock4(l, AAP(DCC0N_T0, Row(s)), AAP(DCC1N_T1, C1), AAP(T3, Row(v1)), AAP(T2, Row(v2)));
    SelectLoads(l, s, v1, v2);
    var l4 := Steps4(l, AAP(DCC0N_T0, Row(s)), AAP(DCC1N_T1, C1), AAP(T3, Row(v1)), AAP(T2, Row(v2)));
    RunBlock3(l4, AP(T0_T1_T2), AAP(T3, DCC0_T1_T2), AAP(Row(out), DCC1_T0_T3));
    SelectVotes(l4, out);
  }

  function SelectRounds(s: nat, v1: nat, v2: nat, out: nat, k: nat): Program {
    if k == 0 then Nop
    else Then(SelectRounds(s, v1, v2, out, k - 1), SelectStep(s, v1 + k - 1, v2 + k - 1, out + k - 1))
  }

  predicate SelectFits(size: nat, s: nat, v1: nat, v2: nat, out: nat, n: nat) {
    s < v1 && v1 + n <= v2 && v2 + n <= out && out + n <= size
  }

  /** What k rounds have left: all ones under a set selection bit, else the second operand. */
  ghost predicate Selected(m: seq<Bit>, m': seq<Bit>, s: nat, v2: nat, out: nat, k: nat)
    requires s < |m| && v2 + k <= |m| && out + k <= |m|
  {
    && |m'| == |m|
    && Value(m', out, k) == (if m[s] == One then Pow2(k) - 1 else Value(m, v2, k))
    && (forall i :: 0 <= i < |m| && !(out <= i < out + k) ==> m'[i] == m[i])
  }

  lemma {:induction false} SelectRoundsRun(l: Lane, s: nat, v1: nat, v2: nat, out: nat, n: nat, k: nat)
    requires k <= n && SelectFits(|l.mem|, s, v1, v2, out, n)
    ensures Selected(l.mem, Run(l, SelectRounds(s, v1, v2, out, k)).mem, s, v2, out, k)
  {
    hide Run, SelectStep;
    if k == 0 {
      RunNop(l);
    } else {
      SelectRoundsRun(l, s, v1, v2, out, n, k - 1);
      RunThen(l, SelectRounds(s, v1, v2, out, k - 1), SelectStep(s, v1 + k - 1, v2 + k - 1, out + k - 1));
      var l1 := Run(l, SelectRounds(s, v1, v2, out, k - 1));
      SelectStepRuns(l1, s, v1 + k - 1, v2 + k - 1, out + k - 1);
      ValueFrame(l1.mem, Run(l, SelectRounds(s, v1, v2, out, k)).mem, out, k - 1);
    }
  }

  /** 60_if_then_else is right for a lane exactly when the selection bit is clear or the first operand is all ones. */
  lemma IfThenElseRightExactly(l: Lane, s: nat, v1: nat, v2: nat, out: nat, n: nat)
    requires SelectFits(|l.mem|, s, v1, v2, out, n)
    ensures var m' := Run(l, SelectRounds(s, v1, v2, out, n)).mem;
            var a, b := Value(l.mem, v1, n), Value(l.mem, v2, n);
            && (Value(m', out, n) == (if l.mem[s] == One then a else b)
                <==> l.mem[s] == Zero || a == Pow2(n) - 1)
            && (forall i :: 0 <= i < |m'| && !(out <= i < out + n) ==> m'[i] == l.mem[i])
  {
    hide Run, SelectRounds, Value;
    SelectRoundsRun(l, s, v1, v2, out, n, n);
  }

  // ----- Minimum and maximum

  function LessStep(a: nat, b: nat): Program {
    Block3(AAP(DCC0N, Row(a)), AAP(T1, Row(b)), AP(DCC0_T1_T2))
  }

  lemma LessStepSteps(l: Lane, a: nat, b: nat)
    requires a < |l.mem| && b < |l.mem|
    ensures var v := Maj(Not(l.mem[a]), l.mem[b], l.cells.t2);
            Steps3(l, AAP(DCC0N, Row(a)), AAP(T1, Row(b)), AP(DCC0_T1_T2))
            == Lane(l.cells.(t1 := v, t2 := v, dcc0 := v), l.mem)
  {
    hide Maj, Not;
  }

  /** Loading the operands in the other order makes no difference. */
  lemma LessStepRuns(l: Lane, a: nat, b: nat)
    requires a < |l.mem| && b < |l.mem|
    ensures var v := Maj(Not(l.mem[a]), l.mem[b], l.cells.t2);
            Run(l, LessStep(a, b)) == Lane(l.cells.(t1 := v, t2 := v, dcc0 := v), l.mem)
  {
    hide Run, Steps3, Step, Maj, Not;
    RunBlock3(l, AAP(DCC0N, Row(a)), AAP(T1, Row(b)), AP(DCC0_T1_T2));
    LessStepSteps(l, a, b);
  }

  function LessRounds(v1: nat, v2: nat, k: nat): Program {
    if k == 0 then Nop else Then(LessRounds(v1, v2, k - 1), LessStep(v1 + k - 1, v2 + k - 1))
  }

  lemma {:induction false} LessIsGreater(l: Lane, v1: nat, v2: nat, k: nat)
    requires v1 + k <= |l.mem| && v2 + k <= |l.mem|
    ensures Run(l, LessRounds(v1, v2, k)) == Run(l, GreaterRounds(v2, v1, k))
  {
    hide Run, LessStep, GreaterStep;
    if k > 0 {
      LessIsGreater(l, v1, v2, k - 1);
      var l1 := Run(l, LessRounds(v1, v2, k - 1));
      RunThen(l, LessRounds(v1, v2, k - 1), LessStep(v1 + k - 1, v2 + k - 1));
      RunThen(l, GreaterRounds(v2, v1, k - 1), GreaterStep(v2 + k - 1, v1 + k - 1));
      LessStepRuns(l1, v1 + k - 1, v2 + k - 1);
      GreaterStepRuns(l1, v2 + k - 1, v1 + k - 1);
    }
  }

  function PredicateStage(rounds: Program, s: nat): Program {
    Then(Then(Do(AAP(T2, C0)), rounds), Do(AAP(Row(s), T2)))
  }

  /** 02_min */
  function Minimum(s: nat, v1: nat, v2: nat, out: nat, n: nat): Program {
    Then(PredicateStage(LessRounds(v1, v2, n), s), SelectRounds(s, v1, v2, out, n))
  }

  /** 03_max */
  function Maximum(s: nat, v1: nat, v2: nat, out: nat, n: nat): Program {
    Then(PredicateStage(GreaterRounds(v1, v2, n), s), SelectRounds(s, v1, v2, out, n))
  }

  lemma MinimumPredicate(l: Lane, v1: nat, v2: nat, s: nat, n: nat)
    requires v1 + n <= |l.mem| && v2 + n <= |l.mem| && s < |l.mem|
    ensures Run(l, PredicateStage(LessRounds(v1, v2, n), s)) == Run(l, Greater(C0, v2, v1, s, n))
  {
    hide Run, LessRounds, GreaterRounds;
    var l1 := Run(l, Do(AAP(T2, C0)));
    RunThen(l, Then(Do(AAP(T2, C0)), LessRounds(v1, v2, n)), Do(AAP(Row(s), T2)));
    RunThen(l, Do(AAP(T2, C0)), LessRounds(v1, v2, n));
    RunThen(l, Then(Do(AAP(T2, C0)), GreaterRounds(v2, v1, n)), Do(AAP(Row(s), T2)));
    RunThen(l, Do(AAP(T2, C0)), GreaterRounds(v2, v1, n));
    LessIsGreater(l1, v1, v2, n);
  }

  /** Row s holds p, and no row besides it and the n rows at out has changed. */
  ghost predicate OnlyWrites(m: seq<Bit>, m': seq<Bit>, s: nat, p: Bit, out: nat, n: nat) {
    && |m'| == |m| && s < |m| && m'[s] == p
    && (forall i :: 0 <= i < |m| && i != s && !(out <= i < out + n) ==> m'[i] == m[i])
  }

  /** The select stage after a predicate stage that has put the bit p into row s. */
  lemma SelectAfter(l: Lane, stage: Program, p: Bit, s: nat, v1: nat, v2: nat, out: nat, n: nat)
    requires SelectFits(|l.mem|, s, v1, v2, out, n)
    requires Run(l, stage).mem == l.mem[s := p]
    ensures var m' := Run(l, Then(stage, SelectRounds(s, v1, v2, out, n))).mem;
            && Value(m', out, n) == (if p == One then Pow2(n) - 1 else Value(l.mem, v2, n))
            && OnlyWrites(l.mem, m', s, p, out, n)
  {
    hide Run, SelectRounds, Value;
    RunThen(l, stage, SelectRounds(s, v1, v2, out, n));
    SelectRoundsRun(Run(l, stage), s, v1, v2, out, n, n);
    ValueFrame(l.mem, Run(l, stage).mem, v2, n);
  }

  /** The minimum is right for a lane exactly when the first operand is not the smaller one. */
  lemma MinimumRightExactly(l: Lane, s: nat, v1: nat, v2: nat, out: nat, n: nat)
    requires SelectFits(|l.mem|, s, v1, v2, out, n)
    ensures var m' := Run(l, Minimum(s, v1, v2, out, n)).mem;
            var r, a, b := Value(m', out, n), Value(l.mem, v1, n), Value(l.mem, v2, n);
            && r == (if a < b then Pow2(n) - 1 else b)
            && (r == (if a < b then a else b) <==> a >= b)
            && OnlyWrites(l.mem, m', s, Truth(a < b), out, n)
  {
    hide Run, SelectRounds, Value, PredicateStage, Greater, OnlyWrites;
    MinimumPredicate(l, v1, v2, s, n);
    GreaterAnswers(l, false, v2, v1, s, n);
    SelectAfter(l, PredicateStage(LessRounds(v1, v2, n), s), Truth(Value(l.mem, v2, n) > Value(l.mem, v1, n)),
                s, v1, v2, out, n);
    ValueBound(l.mem, v2, n);
  }

  /** The maximum is right for a lane exactly when the first operand is not the larger one, or is all ones. */
  lemma MaximumRightExactly(l: Lane, s: nat, v1: nat, v2: nat, out: nat, n: nat)
    requires SelectFits(|l.mem|, s, v1, v2, out, n)
    ensures var m' := Run(l, Maximum(s, v1, v2, out, n)).mem;
            var r, a, b := Value(m', out, n), Value(l.mem, v1, n), Value(l.mem, v2, n);
            && r == (if a > b then Pow2(n) - 1 else b)
            && (r == (if a > b then a else b) <==> a <= b || a == Pow2(n) - 1)
            && OnlyWrites(l.mem, m', s, Truth(a > b), out, n)
  {
    hide Run, SelectRounds, Value, OnlyWrites;
    GreaterAnswers(l, false, v1, v2, s, n);
    SelectAfter(l, PredicateStage(GreaterRounds(v1, v2, n), s), Truth(Value(l.mem, v1, n) > Value(l.mem, v2, n)),
                s, v1, v2, out, n);
  }

  // ----- The drivers' loops

  lemma StepsIssuable(s: nat, v1: nat, v2: nat, out: nat, n: nat)
    requires s < n && v1 < n && v2 < n && out < n
    ensures Issuable(SelectStep(s, v1, v2, out), n) && Issuable(LessStep(v1, v2), n) && Issuable(GreaterStep(v1, v2), n)
  {
    IssuableBlock4(AAP(DCC0N_T0, Row(s)), AAP(DCC1N_T1, C1), AAP(T3, Row(v1)), AAP(T2, Row(v2)), n);
    IssuableBlock3(AP(T0_T1_T2), AAP(T3, DCC0_T1_T2), AAP(Row(out), DCC1_T0_T3), n);
    IssuableBlock3(AAP(DCC0N, Row(v1)), AAP(T1, Row(v2)), AP(DCC0_T1_T2), n);
    IssuableBlock3(AAP(T1, Row(v1)), AAP(DCC0N, Row(v2)), AP(DCC0_T1_T2), n);
    hide Block3, Block4, Legal;
  }

  method SelectVectors(a: Subarray, s: nat, v1: nat, v2: nat, out: nat, n: nat)
    requires SelectFits(|a.mem|, s, v1, v2, out, n)
    modifies a
    ensures a.State() == Run(old(a.State()), SelectRounds(s, v1, v2, out, n))
    ensures Selected(old(a.mem), a.mem, s, v2, out, n)
  {
    hide Step, SelectStep;
    ghost var start := a.State();
    for j := 0 to n
      invariant a.State() == Run(start, SelectRounds(s, v1, v2, out, j))
    {
      StepsIssuable(s, v1 + j, v2 + j, out + j, |a.mem|);
      a.Issue(SelectStep(s, v1 + j, v2 + j, out + j));
    }
    SelectRoundsRun(start, s, v1, v2, out, n, n);
  }

  method MinimumVectors(a: Subarray, s: nat, v1: nat, v2: nat, out: nat, n: nat)
    requires SelectFits(|a.mem|, s, v1, v2, out, n)
    modifies a
    ensures a.State() == Run(old(a.State()), Minimum(s, v1, v2, out, n))
    ensures |a.mem| == |old(a.mem)|
    ensures var x, y := old(Value(a.mem, v1, n)), old(Value(a.mem, v2, n));
            && Value(a.mem, out, n) == (if x < y then Pow2(n) - 1 else y)
            && OnlyWrites(old(a.mem), a.mem, s, Truth(x < y), out, n)
  {
    hide Step, LessStep;
    ghost var start := a.State();
    RunDo(start, AAP(T2, C0));
    a.Aap(T2, C0);
    ghost var l1 := a.State();
    for j := 0 to n
      invariant a.State() == Run(l1, LessRounds(v1, v2, j))
    {
      StepsIssuable(s, v1 + j, v2 + j, out + j, |a.mem|);
      a.Issue(LessStep(v1 + j, v2 + j));
    }
    RunDo(a.State(), AAP(Row(s), T2));
    a.Aap(Row(s), T2);
    hide Run, LessRounds, SelectRounds, Value, OnlyWrites;
    RunThen(start, Then(Do(AAP(T2, C0)), LessRounds(v1, v2, n)), Do(AAP(Row(s), T2)));
    RunThen(start, Do(AAP(T2, C0)), LessRounds(v1, v2, n));
    RunThen(start, PredicateStage(LessRounds(v1, v2, n), s), SelectRounds(s, v1, v2, out, n));
    SelectVectors(a, s, v1, v2, out, n);
    MinimumRightExactly(start, s, v1, v2, out, n);
  }

  method MaximumVectors(a: Subarray, s: nat, v1: nat, v2: nat, out: nat, n: nat)
    requires SelectFits(|a.mem|, s, v1, v2, out, n)
    modifies a
    ensures a.State() == Run(old(a.State()), Maximum(s, v1, v2, out, n))
    ensures |a.mem| == |old(a.mem)|
    ensures var x, y := old(Value(a.mem, v1, n)), old(Value(a.mem, v2, n));
            && Value(a.mem, out, n) == (if x > y then Pow2(n) - 1 else y)
            && OnlyWrites(old(a.mem), a.mem, s, Truth(x > y), out, n)
  {
    hide Run, GreaterRounds, SelectRounds, Value, OnlyWrites;
    ghost var start := a.State();
    GreaterVectors(a, false, v1, v2, s, n);
    SelectVectors(a, s, v1, v2, out, n);
    RunThen(start, PredicateStage(GreaterRounds(v1, v2, n), s), SelectRounds(s, v1, v2, out, n));
    MaximumRightExactly(start, s, v1, v2, out, n);
  }
}
