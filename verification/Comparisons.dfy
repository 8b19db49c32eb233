/** Comparison chains: greater, greater or equal, and equal. */
module Comparisons {
  import opened Bits
  import opened Dram

  // ----- Greater and greater-or-equal: one chain in T2

  function GreaterStep(a: nat, b: nat): Program {
    Block3(AAP(T1, Row(a)), AAP(DCC0N, Row(b)), AP(DCC0_T1_T2))
  }

  lemma GreaterStepSteps(l: Lane, a: nat, b: nat)
    requires a < |l.mem| && b < |l.mem|
    ensures var v := Maj(Not(l.mem[b]), l.mem[a], l.cells.t2);
            Steps3(l, AAP(T1, Row(a)), AAP(DCC0N, Row(b)), AP(DCC0_T1_T2))
            == Lane(l.cells.(t1 := v, t2 := v, dcc0 := v), l.mem)
  {
    hide Maj, Not;
  }

  lemma GreaterStepRuns(l: Lane, a: nat, b: nat)
    requires a < |l.mem| && b < |l.mem|
    ensures var v := Maj(Not(l.mem[b]), l.mem[a], l.cells.t2);
            Run(l, GreaterStep(a, b)) == Lane(l.cells.(t1 := v, t2 := v, dcc0 := v), l.mem)
  {
    hide Run, Steps3, Step, Maj, Not;
    RunBlock3(l, AAP(T1, Row(a)), AAP(DCC0N, Row(b)), AP(DCC0_T1_T2));
    GreaterStepSteps(l, a, b);
  }

  function GreaterRounds(v1: nat, v2: nat, k: nat): Program {
    if k == 0 then Nop else Then(GreaterRounds(v1, v2, k - 1), GreaterStep(v1 + k - 1, v2 + k - 1))
  }

  /** A chain that starts at zero (e = 1) decides a > b, one that starts at one (e = 0) decides a >= b. */
  lemma {:induction false} GreaterDecides(l: Lane, v1: nat, v2: nat, k: nat, e: nat)
    requires v1 + k <= |l.mem| && v2 + k <= |l.mem| && e <= 1 && l.cells.t2 == Truth(e == 0)
    ensures var l' := Run(l, GreaterRounds(v1, v2, k));
            l'.mem == l.mem && l'.cells.t2 == Truth(Value(l.mem, v1, k) >= Value(l.mem, v2, k) + e)
  {
    hide Run, GreaterStep, Maj, Not;
    if k == 0 {
      RunNop(l);
    } else {
      hide Truth;
      GreaterDecides(l, v1, v2, k - 1, e);
      RunThen(l, GreaterRounds(v1, v2, k - 1), GreaterStep(v1 + k - 1, v2 + k - 1));
      var l1 := Run(l, GreaterRounds(v1, v2, k - 1));
      GreaterStepRuns(l1, v1 + k - 1, v2 + k - 1);
      ValueBound(l.mem, v1, k - 1);
      ValueBound(l.mem, v2, k - 1);
      ChainBit(l1.cells.t2, Value(l.mem, v1, k - 1), Value(l.mem, v2, k - 1), e,
               l.mem[v1 + k - 1], l.mem[v2 + k - 1], k - 1);
    }
  }

  /** 40_greater (start C0) and 41_greater_equal (start C1). */
  function Greater(start: Address, v1: nat, v2: nat, out: nat, n: nat): Program {
    Then(Then(Do(AAP(T2, start)), GreaterRounds(v1, v2, n)), Do(AAP(Row(out), T2)))
  }

  lemma GreaterAnswers(l: Lane, orEqual: bool, v1: nat, v2: nat, out: nat, n: nat)
    requires v1 + n <= |l.mem| && v2 + n <= |l.mem| && out < |l.mem|
    ensures var a, b := Value(l.mem, v1, n), Value(l.mem, v2, n);
            Run(l, Greater(if orEqual then C1 else C0, v1, v2, out, n)).mem
            == l.mem[out := Truth(if orEqual then a >= b else a > b)]
  {
    hide Run, GreaterRounds, Value;
    var start, rounds := if orEqual then C1 else C0, GreaterRounds(v1, v2, n);
    var l1 := Step(l, AAP(T2, start));
    assert l1 == Lane(l.cells.(t2 := Truth(orEqual)), l.mem);
    RunThen(l, Then(Do(AAP(T2, start)), rounds), Do(AAP(Row(out), T2)));
    RunThen(l, Do(AAP(T2, start)), rounds);
    RunDo(l, AAP(T2, start));
    GreaterDecides(l1, v1, v2, n, if orEqual then 0 else 1);
    RunDo(Run(l1, rounds), AAP(Row(out), T2));
    WriteRow(Run(l1, rounds), out, T2);
    hide Step;
  }

  // ----- Equality: two chains at once

  function EqualStep(a: nat, b: nat): Program {
    Block4(AAP(DCC0N_T0, Row(a)), AAP(DCC1N_T1, Row(b)), AP(DCC0_T1_T2), AP(DCC1_T0_T3))
  }

  lemma EqualStepSteps(l: Lane, a: nat, b: nat)
    requires a < |l.mem| && b < |l.mem|
    ensures var x, y := l.mem[a], l.mem[b];
            var below, above := Maj(Not(x), y, l.cells.t2), Maj(Not(y), x, l.cells.t3);
            Steps4(l, AAP(DCC0N_T0, Row(a)), AAP(DCC1N_T1, Row(b)), AP(DCC0_T1_T2), AP(DCC1_T0_T3))
            == Lane(Cells(above, below, below, above, below, above), l.mem)
  {
    hide Maj, Not;
  }

  lemma EqualStepRuns(l: Lane, a: nat, b: nat)
    requires a < |l.mem| && b < |l.mem|
    ensures var x, y := l.mem[a], l.mem[b];
            var below, above := Maj(Not(x), y, l.cells.t2), Maj(Not(y), x, l.cells.t3);
            Run(l, EqualStep(a, b)) == Lane(Cells(above, below, below, above, below, above), l.mem)
  {
    hide Run, Steps4, Maj, Not;
    RunBlock4(l, AAP(DCC0N_T0, Row(a)), AAP(DCC1N_T1, Row(b)), AP(DCC0_T1_T2), AP(DCC1_T0_T3));
    EqualStepSteps(l, a, b);
  }

  function EqualRounds(v1: nat, v2: nat, k: nat): Program {
    if k == 0 then Nop else Then(EqualRounds(v1, v2, k - 1), EqualStep(v1 + k - 1, v2 + k - 1))
  }

  lemma {:induction false} EqualChains(l: Lane, v1: nat, v2: nat, k: nat)
    requires v1 + k <= |l.mem| && v2 + k <= |l.mem| && l.cells.t2 == One && l.cells.t3 == One
    ensures var l' := Run(l, EqualRounds(v1, v2, k));
            var a, b := Value(l.mem, v1, k), Value(l.mem, v2, k);
            && l'.mem == l.mem && l'.cells.t2 == Truth(b >= a) && l'.cells.t3 == Truth(a >= b)
            && (k > 0 ==> l'.cells.t0 == l'.cells.t3)
  {
    hide Run, Maj, Not, EqualStep, Pow2;
    if k == 0 {
      RunNop(l);
    } else {
      hide Truth;
      EqualChains(l, v1, v2, k - 1);
      var a, b := v1 + k - 1, v2 + k - 1;
      RunThen(l, EqualRounds(v1, v2, k - 1), EqualStep(a, b));
      var l1 := Run(l, EqualRounds(v1, v2, k - 1));
      EqualStepRuns(l1, a, b);
      ValueBound(l.mem, v1, k - 1);
      ValueBound(l.mem, v2, k - 1);
      ChainBit(l1.cells.t2, Value(l.mem, v2, k - 1), Value(l.mem, v1, k - 1), 0, l.mem[b], l.mem[a], k - 1);
      ChainBit(l1.cells.t3, Value(l.mem, v1, k - 1), Value(l.mem, v2, k - 1), 0, l.mem[a], l.mem[b], k - 1);
    }
  }

  /** 42_equal */
  function Equal(v1: nat, v2: nat, out: nat, n: nat): Program {
    Then(Then(Do(AAP(T2_T3, C1)), EqualRounds(v1, v2, n)), Block2(AAP(T1, C0), AAP(Row(out), T0_T1_T2)))
  }

  lemma EqualEnd(l: Lane, out: nat)
    requires out < |l.mem|
    ensures Steps2(l, AAP(T1, C0), AAP(Row(out), T0_T1_T2)).mem == l.mem[out := And(l.cells.t0, l.cells.t2)]
  {
    MajZero(l.cells.t0, l.cells.t2);
    hide Maj, And;
  }

  lemma EqualAnswers(l: Lane, v1: nat, v2: nat, out: nat, n: nat)
    requires 1 <= n && v1 + n <= |l.mem| && v2 + n <= |l.mem| && out < |l.mem|
    ensures Run(l, Equal(v1, v2, out, n)).mem == l.mem[out := Truth(Value(l.mem, v1, n) == Value(l.mem, v2, n))]
  {
    hide Run, EqualRounds, Steps2, Value;
    var rounds := EqualRounds(v1, v2, n);
    var l1 := Step(l, AAP(T2_T3, C1));
    assert l1 == Lane(l.cells.(t2 := One, t3 := One), l.mem);
    hide Step;
    RunThen(l, Then(Do(AAP(T2_T3, C1)), rounds), Block2(AAP(T1, C0), AAP(Row(out), T0_T1_T2)));
    RunThen(l, Do(AAP(T2_T3, C1)), rounds);
    RunDo(l, AAP(T2_T3, C1));
    EqualChains(l1, v1, v2, n);
    RunBlock2(Run(l1, rounds), AAP(T1, C0), AAP(Row(out), T0_T1_T2));
    EqualEnd(Run(l1, rounds), out);
  }

  /** Exactly one of a > b, a = b, b > a is answered, and a >= b is the negation of b > a. */
  lemma Trichotomy(l: Lane, v1: nat, v2: nat, out: nat, n: nat)
    requires 1 <= n && v1 + n <= |l.mem| && v2 + n <= |l.mem| && out < |l.mem|
    ensures var gt, eq, lt := Run(l, Greater(C0, v1, v2, out, n)).mem[out], Run(l, Equal(v1, v2, out, n)).mem[out],
                              Run(l, Greater(C0, v2, v1, out, n)).mem[out];
            Num(gt) + Num(eq) + Num(lt) == 1 && Run(l, Greater(C1, v1, v2, out, n)).mem[out] == Not(lt)
  {
    hide Run, Greater, Equal, Value;
    GreaterAnswers(l, false, v1, v2, out, n);
    GreaterAnswers(l, false, v2, v1, out, n);
    GreaterAnswers(l, true, v1, v2, out, n);
    EqualAnswers(l, v1, v2, out, n);
  }

  // ----- The drivers' loops

  lemma ChainStepsIssuable(a: nat, b: nat, n: nat)
    requires a < n && b < n
    ensures Issuable(GreaterStep(a, b), n) && Issuable(EqualStep(a, b), n)
  {
    IssuableBlock3(AAP(T1, Row(a)), AAP(DCC0N, Row(b)), AP(DCC0_T1_T2), n);
    IssuableBlock4(AAP(DCC0N_T0, Row(a)), AAP(DCC1N_T1, Row(b)), AP(DCC0_T1_T2), AP(DCC1_T0_T3), n);
  }

  method GreaterVectors(s: Subarray, orEqual: bool, v1: nat, v2: nat, out: nat, n: nat)
    requires v1 + n <= |s.mem| && v2 + n <= |s.mem| && out < |s.mem|
    modifies s
    ensures s.State() == Run(old(s.State()), Greater(if orEqual then C1 else C0, v1, v2, out, n))
    ensures var a, b := old(Value(s.mem, v1, n)), old(Value(s.mem, v2, n));
            s.mem == old(s.mem)[out := Truth(if orEqual then a >= b else a > b)]
  {
    hide Step, GreaterStep;
    ghost var start := s.State();
    var first := if orEqual then C1 else C0;
    RunDo(start, AAP(T2, first));
    s.Aap(T2, first);
    ghost var l1 := s.State();
    for j := 0 to n
      invariant s.State() == Run(l1, GreaterRounds(v1, v2, j))
    {
      ChainStepsIssuable(v1 + j, v2 + j, |s.mem|);
      s.Issue(GreaterStep(v1 + j, v2 + j));
    }
    RunDo(s.State(), AAP(Row(out), T2));
    s.Aap(Row(out), T2);
    hide Run, GreaterRounds, Value;
    RunThen(start, Then(Do(AAP(T2, first)), GreaterRounds(v1, v2, n)), Do(AAP(Row(out), T2)));
    RunThen(start, Do(AAP(T2, first)), GreaterRounds(v1, v2, n));
    GreaterAnswers(start, orEqual, v1, v2, out, n);
  }

  method EqualVectors(s: Subarray, v1: nat, v2: nat, out: nat, n: nat)
    requires 1 <= n && v1 + n <= |s.mem| && v2 + n <= |s.mem| && out < |s.mem|
    modifies s
    ensures s.State() == Run(old(s.State()), Equal(v1, v2, out, n))
    ensures s.mem == old(s.mem)[out := Truth(old(Value(s.mem, v1, n)) == old(Value(s.mem, v2, n)))]
  {
    hide Step, EqualStep;
    ghost var start := s.State();
    RunDo(start, AAP(T2_T3, C1));
    s.Aap(T2_T3, C1);
    ghost var l1 := s.State();
    for j := 0 to n
      invariant s.State() == Run(l1, EqualRounds(v1, v2, j))
    {
      ChainStepsIssuable(v1 + j, v2 + j, |s.mem|);
      s.Issue(EqualStep(v1 + j, v2 + j));
    }
    RunBlock2(s.State(), AAP(T1, C0), AAP(Row(out), T0_T1_T2));
    s.Aap(T1, C0);
    s.Aap(Row(out), T0_T1_T2);
    hide Run, EqualRounds, Value;
    RunThen(start, Then(Do(AAP(T2_T3, C1)), EqualRounds(v1, v2, n)), Block2(AAP(T1, C0), AAP(Row(out), T0_T1_T2)));
    RunThen(start, Do(AAP(T2_T3, C1)), EqualRounds(v1, v2, n));
    EqualAnswers(start, v1, v2, out, n);
  }
}
