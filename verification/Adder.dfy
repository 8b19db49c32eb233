/**
  Bit-serial addition and subtraction on vertically laid out integers, and the
  one-bit steps that the multipliers, the divider and the bit counter reuse.
 */
module Adder {
  import opened Bits
  import opened Dram

  /** A value a step may take in: a data row or a constant. */
  predicate Operand(a: Address, n: nat) {
    a.C0? || a.C1? || (a.Row? && a.row < n)
  }

  /** Two blocks of rows do not overlap. */
  predicate Apart(x: nat, nx: nat, y: nat, ny: nat) {
    x + nx <= y || y + ny <= x
  }

  function Sum3(a: Bit, b: Bit, c: Bit): Bit {
    Xor(Xor(a, b), c)
  }

  /** The sum bit comes out of two further majorities once the carry is known. */
  lemma MajSum(a: Bit, b: Bit, c: Bit)
    ensures Maj(b, Maj(Not(Maj(b, c, a)), c, a), Not(Maj(b, c, a))) == Sum3(a, b, c)
    ensures Num(Sum3(a, b, c)) + 2 * Num(Maj(b, c, a)) == Num(a) + Num(b) + Num(c)
  {
  }

  lemma WeightSum(s: Bit, carry: Bit, a: Bit, b: Bit, c: Bit, k: nat)
    requires Num(s) + 2 * Num(carry) == Num(a) + Num(b) + Num(c)
    ensures Weight(s, k) + Weight(carry, k + 1) == Weight(a, k) + Weight(b, k) + Weight(c, k)
  {
    assert Pow2(k + 1) == 2 * Pow2(k);
  }

  // ----- Addition

  /** A full adder: carry from cin, carry out left in DCC1, sum to row out. */
  function AddStep(cin: Address, v1: nat, v2: Address, out: nat): Program {
    Block8(AAP(T0_T1_T2, cin), AAP(T2_T3, Row(v1)), AAP(DCC1, v2), AP(DCC1_T0_T3),
           AAP(T0_T3, DCC1N), AP(T0_T1_T2), AAP(T1, v2), AAP(Row(out), T1_T2_T3))
  }

  lemma AddStepFirst(l: Lane, cin: Address, v1: nat, v2: Address)
    requires (cin.DCC1? || Operand(cin, |l.mem|)) && v1 < |l.mem| && Operand(v2, |l.mem|)
    ensures var a, b, c := l.mem[v1], Sense(l, v2), Sense(l, cin);
            var s := Maj(b, c, a);
            Steps4(l, AAP(T0_T1_T2, cin), AAP(T2_T3, Row(v1)), AAP(DCC1, v2), AP(DCC1_T0_T3))
            == Lane(Cells(s, c, a, s, l.cells.dcc0, s), l.mem)
  {
    hide Maj, Not;
  }

  lemma AddStepSecond(l: Lane, v2: Address, out: nat)
    requires Operand(v2, |l.mem|) && out < |l.mem|
    ensures var x := Maj(Not(l.cells.dcc1), l.cells.t1, l.cells.t2);
            var y := Maj(Sense(l, v2), x, Not(l.cells.dcc1));
            Steps4(l, AAP(T0_T3, DCC1N), AP(T0_T1_T2), AAP(T1, v2), AAP(Row(out), T1_T2_T3))
            == Lane(Cells(x, y, y, y, l.cells.dcc0, l.cells.dcc1), l.mem[out := y])
  {
    hide Maj, Not;
  }

  /** The lane after a full-adder step on bits a and b with carry c. */
  function AfterAdd(l: Lane, a: Bit, b: Bit, c: Bit, out: nat): Lane
    requires out < |l.mem|
  {
    var s := Maj(b, c, a);
    var x := Maj(Not(s), c, a);
    var y := Maj(b, x, Not(s));
    Lane(Cells(x, y, y, y, l.cells.dcc0, s), l.mem[out := y])
  }

  lemma AddStepRuns(l: Lane, cin: Address, v1: nat, v2: Address, out: nat)
    requires (cin.DCC1? || Operand(cin, |l.mem|)) && v1 < |l.mem| && Operand(v2, |l.mem|) && out < |l.mem|
    ensures Run(l, AddStep(cin, v1, v2, out)) == AfterAdd(l, l.mem[v1], Sense(l, v2), Sense(l, cin), out)
  {
    hide Run, Steps4, Step, Maj, Not;
    RunBlock8(l, AAP(T0_T1_T2, cin), AAP(T2_T3, Row(v1)), AAP(DCC1, v2), AP(DCC1_T0_T3),
              AAP(T0_T3, DCC1N), AP(T0_T1_T2), AAP(T1, v2), AAP(Row(out), T1_T2_T3));
    AddStepFirst(l, cin, v1, v2);
    AddStepSecond(Steps4(l, AAP(T0_T1_T2, cin), AAP(T2_T3, Row(v1)), AAP(DCC1, v2), AP(DCC1_T0_T3)), v2, out);
  }

  /** The eight commands of a step are a full adder: the sum in row out, the carry in DCC1, nothing else. */
  lemma AddStepAdds(l: Lane, cin: Address, v1: nat, v2: Address, out: nat)
    requires (cin.DCC1? || Operand(cin, |l.mem|)) && v1 < |l.mem| && Operand(v2, |l.mem|) && out < |l.mem|
    ensures var a, b, c := l.mem[v1], Sense(l, v2), Sense(l, cin);
            var l' := Run(l, AddStep(cin, v1, v2, out));
            && l'.mem == l.mem[out := Sum3(a, b, c)]
            && Num(Sum3(a, b, c)) + 2 * Num(l'.cells.dcc1) == Num(a) + Num(b) + Num(c)
  {
    hide Run, AddStep, Step, Sense, Maj, Not, Sum3;
    AddStepRuns(l, cin, v1, v2, out);
    MajSum(l.mem[v1], Sense(l, v2), Sense(l, cin));
  }

  /** Bit i of the second operand; above its m rows the driver feeds the constant zero. */
  function Padded(v2: nat, m: nat, i: nat): Address {
    if i < m then Row(v2 + i) else C0
  }

  /** The ripple: n steps with the carry staying in DCC1. */
  function AddRounds(v1: nat, v2: nat, m: nat, out: nat, n: nat): Program {
    if n == 0 then Nop
    else Then(AddRounds(v1, v2, m, out, n - 1),
              AddStep(DCC1, v1 + n - 1, Padded(v2, m, n - 1), out + n - 1))
  }

  /** Where the operands and the result of an n-step ripple may stand: the result may replace the first operand. */
  predicate RippleLayout(size: nat, v1: nat, v2: nat, m: nat, out: nat, n: nat) {
    && v1 + n <= size && v2 + m <= size && out + n <= size && m <= n
    && (out == v1 || Apart(out, n, v1, n))
    && Apart(out, n, v2, m)
  }

  /** What k steps of a ripple have done to the memory and the carry. */
  ghost predicate RippleDone(m: seq<Bit>, c: Bit, m': seq<Bit>, c': Bit, v1: nat, v2: nat, top: nat, out: nat, k: nat)
    requires |m'| == |m| && v1 + k <= |m| && v2 + top <= |m| && out + k <= |m|
  {
    && Value(m', out, k) + Weight(c', k) == Value(m, v1, k) + Value(m, v2, if k < top then k else top) + Num(c)
    && forall i :: 0 <= i < |m| && !(out <= i < out + k) ==> m'[i] == m[i]
  }

  lemma RippleDoneStep(m: seq<Bit>, c: Bit, m1: seq<Bit>, c1: Bit, s: Bit, c': Bit, b: Bit,
                       v1: nat, v2: nat, top: nat, out: nat, k: nat, n: nat)
    requires k < n && RippleLayout(|m|, v1, v2, top, out, n) && |m1| == |m|
    requires RippleDone(m, c, m1, c1, v1, v2, top, out, k)
    requires b == if k < top then m1[v2 + k] else Zero
    requires Num(s) + 2 * Num(c') == Num(m1[v1 + k]) + Num(b) + Num(c1)
    ensures RippleDone(m, c, m1[out + k := s], c', v1, v2, top, out, k + 1)
  {
    ValueFrame(m1, m1[out + k := s], out, k);
    WeightSum(s, c', m[v1 + k], b, c1, k);
  }

  /** A ripple of any length adds exactly: result, carry out and carry in balance, and only result rows change. */
  lemma {:induction false} RippleAdds(l: Lane, v1: nat, v2: nat, m: nat, out: nat, n: nat, k: nat)
    requires k <= n && RippleLayout(|l.mem|, v1, v2, m, out, n)
    ensures var l' := Run(l, AddRounds(v1, v2, m, out, k));
            RippleDone(l.mem, l.cells.dcc1, l'.mem, l'.cells.dcc1, v1, v2, m, out, k)
  {
    hide Run, AddStep, RippleDone;
    if k == 0 {
      RippleNone(l, v1, v2, m, out);
    } else {
      RippleAdds(l, v1, v2, m, out, n, k - 1);
      var l1 := Run(l, AddRounds(v1, v2, m, out, k - 1));
      var p := Padded(v2, m, k - 1);
      RunThen(l, AddRounds(v1, v2, m, out, k - 1), AddStep(DCC1, v1 + k - 1, p, out + k - 1));
      AddStepAdds(l1, DCC1, v1 + k - 1, p, out + k - 1);
      var l' := Run(l, AddRounds(v1, v2, m, out, k));
      RippleDoneStep(l.mem, l.cells.dcc1, l1.mem, l1.cells.dcc1, l'.mem[out + k - 1], l'.cells.dcc1, Sense(l1, p),
                     v1, v2, m, out, k - 1, n);
    }
  }

  lemma RippleNone(l: Lane, v1: nat, v2: nat, m: nat, out: nat)
    requires v1 <= |l.mem| && v2 + m <= |l.mem| && out <= |l.mem|
    ensures var l' := Run(l, AddRounds(v1, v2, m, out, 0));
            RippleDone(l.mem, l.cells.dcc1, l'.mem, l'.cells.dcc1, v1, v2, m, out, 0)
  {
  }

  /** 00_addition: clear the carry, then ripple. */
  function Addition(v1: nat, v2: nat, out: nat, n: nat): Program {
    Then(Do(AAP(DCC1, C0)), AddRounds(v1, v2, n, out, n))
  }

  /** The n result rows and the carry left in DCC1 are the exact sum; no other row changes. */
  lemma AdditionAdds(l: Lane, v1: nat, v2: nat, out: nat, n: nat)
    requires RippleLayout(|l.mem|, v1, v2, n, out, n)
    ensures var l' := Run(l, Addition(v1, v2, out, n));
            && Value(l'.mem, out, n) + Weight(l'.cells.dcc1, n) == Value(l.mem, v1, n) + Value(l.mem, v2, n)
            && forall i :: 0 <= i < |l.mem| && !(out <= i < out + n) ==> l'.mem[i] == l.mem[i]
  {
    var l1 := Step(l, AAP(DCC1, C0));
    assert l1.mem == l.mem && l1.cells.dcc1 == Zero;
    assert Run(l, Do(AAP(DCC1, C0))) == l1;
    hide Run, Step;
    RunThen(l, Do(AAP(DCC1, C0)), AddRounds(v1, v2, n, out, n));
    RippleAdds(l1, v1, v2, n, out, n, n);
  }

  lemma AddStepIssuable(cin: Address, v1: nat, v2: Address, out: nat, n: nat)
    requires (cin.DCC1? || Operand(cin, n)) && v1 < n && Operand(v2, n) && out < n
    ensures Issuable(AddStep(cin, v1, v2, out), n)
  {
    IssuableBlock4(AAP(T0_T1_T2, cin), AAP(T2_T3, Row(v1)), AAP(DCC1, v2), AP(DCC1_T0_T3), n);
    IssuableBlock4(AAP(T0_T3, DCC1N), AP(T0_T1_T2), AAP(T1, v2), AAP(Row(out), T1_T2_T3), n);
  }

  method AddVectors(s: Subarray, v1: nat, v2: nat, out: nat, n: nat)
    requires RippleLayout(|s.mem|, v1, v2, n, out, n)
    modifies s
    ensures s.State() == Run(old(s.State()), Addition(v1, v2, out, n))
    ensures |s.mem| == |old(s.mem)|
    ensures Value(s.mem, out, n) + Weight(s.dcc1, n) == old(Value(s.mem, v1, n)) + old(Value(s.mem, v2, n))
    ensures forall i :: 0 <= i < |s.mem| && !(out <= i < out + n) ==> s.mem[i] == old(s.mem[i])
  {
    ghost var start := s.State();
    s.Aap(DCC1, C0);
    for j := 0 to n
      invariant s.State() == Run(start, Then(Do(AAP(DCC1, C0)), AddRounds(v1, v2, n, out, j)))
    {
      AddStepIssuable(DCC1, v1 + j, Row(v2 + j), out + j, |s.mem|);
      hide Step;
      s.Issue(AddStep(DCC1, v1 + j, Row(v2 + j), out + j));
      RunThen(start, Do(AAP(DCC1, C0)), AddRounds(v1, v2, n, out, j));
      RunThen(start, Do(AAP(DCC1, C0)), AddRounds(v1, v2, n, out, j + 1));
    }
    AdditionAdds(start, v1, v2, out, n);
  }

  // ----- Subtraction: the second operand enters complemented and the carry lives in DCC0

  function SubStep(v1: nat, v2: nat, out: nat): Program {
    Block8(AAP(T0_T1_T2, DCC0), AAP(T2_T3, Row(v1)), AAP(DCC1N, Row(v2)), AAP(DCC0, DCC1_T0_T3),
           AAP(T0_T3, DCC1N), AP(T0_T1_T2), AAP(DCC1N, Row(v2)), AAP(Row(out), DCC1_T0_T3))
  }

  lemma SubStepFirst(l: Lane, v1: nat, v2: nat)
    requires v1 < |l.mem| && v2 < |l.mem|
    ensures var a, b, c := l.mem[v1], Not(l.mem[v2]), l.cells.dcc0;
            var s := Maj(b, c, a);
            Steps4(l, AAP(T0_T1_T2, DCC0), AAP(T2_T3, Row(v1)), AAP(DCC1N, Row(v2)), AAP(DCC0, DCC1_T0_T3))
            == Lane(Cells(s, c, a, s, s, s), l.mem)
  {
    hide Maj, Not;
  }

  lemma SubStepSecond(l: Lane, v2: nat, out: nat)
    requires v2 < |l.mem| && out < |l.mem|
    ensures var x := Maj(Not(l.cells.dcc1), l.cells.t1, l.cells.t2);
            var l' := Steps4(l, AAP(T0_T3, DCC1N), AP(T0_T1_T2), AAP(DCC1N, Row(v2)), AAP(Row(out), DCC1_T0_T3));
            && l'.mem == l.mem[out := Maj(Not(l.mem[v2]), x, Not(l.cells.dcc1))]
            && l'.cells.dcc0 == l.cells.dcc0
  {
    hide Maj, Not;
  }

  /** The eight commands are a full subtractor: difference in row out, no-borrow in DCC0, nothing else. */
  lemma SubStepSubtracts(l: Lane, v1: nat, v2: nat, out: nat)
    requires v1 < |l.mem| && v2 < |l.mem| && out < |l.mem|
    ensures var a, b, c := l.mem[v1], Not(l.mem[v2]), l.cells.dcc0;
            var l' := Run(l, SubStep(v1, v2, out));
            && l'.mem == l.mem[out := Sum3(a, b, c)]
            && Num(Sum3(a, b, c)) + 2 * Num(l'.cells.dcc0) == Num(a) + Num(b) + Num(c)
  {
    hide Run, Steps4, Step, Maj, Not, Sum3;
    RunBlock8(l, AAP(T0_T1_T2, DCC0), AAP(T2_T3, Row(v1)), AAP(DCC1N, Row(v2)), AAP(DCC0, DCC1_T0_T3),
              AAP(T0_T3, DCC1N), AP(T0_T1_T2), AAP(DCC1N, Row(v2)), AAP(Row(out), DCC1_T0_T3));
    SubStepFirst(l, v1, v2);
    var l4 := Steps4(l, AAP(T0_T1_T2, DCC0), AAP(T2_T3, Row(v1)), AAP(DCC1N, Row(v2)), AAP(DCC0, DCC1_T0_T3));
    SubStepSecond(l4, v2, out);
    MajSum(l.mem[v1], Not(l.mem[v2]), l.cells.dcc0);
  }

  function SubRounds(v1: nat, v2: nat, out: nat, n: nat): Program {
    if n == 0 then Nop
    else Then(SubRounds(v1, v2, out, n - 1), SubStep(v1 + n - 1, v2 + n - 1, out + n - 1))
  }

  /** What k steps of a borrow ripple have done. */
  ghost predicate BorrowDone(m: seq<Bit>, c: Bit, m': seq<Bit>, c': Bit, v1: nat, v2: nat, out: nat, k: nat)
    requires |m'| == |m| && v1 + k <= |m| && v2 + k <= |m| && out + k <= |m|
  {
    && Value(m', out, k) + Weight(c', k) + Value(m, v2, k) + 1 == Value(m, v1, k) + Pow2(k) + Num(c)
    && forall i :: 0 <= i < |m| && !(out <= i < out + k) ==> m'[i] == m[i]
  }

  lemma BorrowDoneStep(m: seq<Bit>, c: Bit, m1: seq<Bit>, c1: Bit, s: Bit, c': Bit,
                       v1: nat, v2: nat, out: nat, k: nat, n: nat)
    requires k < n && RippleLayout(|m|, v1, v2, n, out, n) && |m1| == |m|
    requires BorrowDone(m, c, m1, c1, v1, v2, out, k)
    requires Num(s) + 2 * Num(c') == Num(m1[v1 + k]) + Num(Not(m1[v2 + k])) + Num(c1)
    ensures BorrowDone(m, c, m1[out + k := s], c', v1, v2, out, k + 1)
  {
    ValueFrame(m1, m1[out + k := s], out, k);
    WeightSum(s, c', m[v1 + k], Not(m[v2 + k]), c1, k);
  }

  lemma BorrowNone(l: Lane, v1: nat, v2: nat, out: nat)
    requires v1 <= |l.mem| && v2 <= |l.mem| && out <= |l.mem|
    ensures var l' := Run(l, SubRounds(v1, v2, out, 0));
            BorrowDone(l.mem, l.cells.dcc0, l'.mem, l'.cells.dcc0, v1, v2, out, 0)
  {
  }

  lemma {:induction false} RippleSubtracts(l: Lane, v1: nat, v2: nat, out: nat, n: nat, k: nat)
    requires k <= n && RippleLayout(|l.mem|, v1, v2, n, out, n)
    ensures var l' := Run(l, SubRounds(v1, v2, out, k));
            BorrowDone(l.mem, l.cells.dcc0, l'.mem, l'.cells.dcc0, v1, v2, out, k)
  {
    hide Run, SubStep, BorrowDone;
    if k == 0 {
      BorrowNone(l, v1, v2, out);
    } else {
      RippleSubtracts(l, v1, v2, out, n, k - 1);
      var l1 := Run(l, SubRounds(v1, v2, out, k - 1));
      RunThen(l, SubRounds(v1, v2, out, k - 1), SubStep(v1 + k - 1, v2 + k - 1, out + k - 1));
      SubStepSubtracts(l1, v1 + k - 1, v2 + k - 1, out + k - 1);
      var l' := Run(l, SubRounds(v1, v2, out, k));
      BorrowDoneStep(l.mem, l.cells.dcc0, l1.mem, l1.cells.dcc0, l'.mem[out + k - 1], l'.cells.dcc0,
                     v1, v2, out, k - 1, n);
    }
  }

  /** 01_subtraction: set the carry, then ripple. */
  function Subtraction(v1: nat, v2: nat, out: nat, n: nat): Program {
    Then(Do(AAP(DCC0, C1)), SubRounds(v1, v2, out, n))
  }

  /** The result rows are the difference modulo 2^n, and DCC0 ends as 1 exactly when nothing was borrowed. */
  lemma SubtractionSubtracts(l: Lane, v1: nat, v2: nat, out: nat, n: nat)
    requires RippleLayout(|l.mem|, v1, v2, n, out, n)
    ensures var l' := Run(l, Subtraction(v1, v2, out, n));
            var a, b := Value(l.mem, v1, n), Value(l.mem, v2, n);
            && (l'.cells.dcc0 == One <==> a >= b)
            && Value(l'.mem, out, n) == (if a >= b then a - b else a + Pow2(n) - b)
            && forall i :: 0 <= i < |l.mem| && !(out <= i < out + n) ==> l'.mem[i] == l.mem[i]
  {
    var l1 := Step(l, AAP(DCC0, C1));
    assert l1.mem == l.mem && l1.cells.dcc0 == One;
    assert Run(l, Do(AAP(DCC0, C1))) == l1;
    hide Run, Step;
    RunThen(l, Do(AAP(DCC0, C1)), SubRounds(v1, v2, out, n));
    RippleSubtracts(l1, v1, v2, out, n, n);
    var l' := Run(l, Subtraction(v1, v2, out, n));
    ValueBound(l'.mem, out, n);
    ValueBound(l.mem, v1, n);
    ValueBound(l.mem, v2, n);
  }

  lemma SubStepIssuable(v1: nat, v2: nat, out: nat, n: nat)
    requires v1 < n && v2 < n && out < n
    ensures Issuable(SubStep(v1, v2, out), n)
  {
    IssuableBlock4(AAP(T0_T1_T2, DCC0), AAP(T2_T3, Row(v1)), AAP(DCC1N, Row(v2)), AAP(DCC0, DCC1_T0_T3), n);
    IssuableBlock4(AAP(T0_T3, DCC1N), AP(T0_T1_T2), AAP(DCC1N, Row(v2)), AAP(Row(out), DCC1_T0_T3), n);
  }

  method SubtractVectors(s: Subarray, v1: nat, v2: nat, out: nat, n: nat)
    requires RippleLayout(|s.mem|, v1, v2, n, out, n)
    modifies s
    ensures s.State() == Run(old(s.State()), Subtraction(v1, v2, out, n))
    ensures |s.mem| == |old(s.mem)|
    ensures var a, b := old(Value(s.mem, v1, n)), old(Value(s.mem, v2, n));
            && (s.dcc0 == One <==> a >= b)
            && Value(s.mem, out, n) == if a >= b then a - b else a + Pow2(n) - b
    ensures forall i :: 0 <= i < |s.mem| && !(out <= i < out + n) ==> s.mem[i] == old(s.mem[i])
  {
    ghost var start := s.State();
    s.Aap(DCC0, C1);
    for j := 0 to n
      invariant s.State() == Run(start, Then(Do(AAP(DCC0, C1)), SubRounds(v1, v2, out, j)))
    {
      SubStepIssuable(v1 + j, v2 + j, out + j, |s.mem|);
      hide Step;
      s.Issue(SubStep(v1 + j, v2 + j, out + j));
      RunThen(start, Do(AAP(DCC0, C1)), SubRounds(v1, v2, out, j));
      RunThen(start, Do(AAP(DCC0, C1)), SubRounds(v1, v2, out, j + 1));
    }
    SubtractionSubtracts(start, v1, v2, out, n);
  }

  /** Subtracting the second operand from the sum rows gives back the first operand, bit for bit. */
  lemma SubtractionUndoesAddition(l: Lane, v1: nat, v2: nat, out: nat, diff: nat, n: nat)
    requires RippleLayout(|l.mem|, v1, v2, n, out, n) && RippleLayout(|l.mem|, out, v2, n, diff, n)
    ensures var l' := Run(l, Then(Addition(v1, v2, out, n), Subtraction(out, v2, diff, n)));
            forall i :: diff <= i < diff + n ==> l'.mem[i] == l.mem[i - diff + v1]
  {
    hide Run;
    RunThen(l, Addition(v1, v2, out, n), Subtraction(out, v2, diff, n));
    var l1 := Run(l, Addition(v1, v2, out, n));
    AdditionAdds(l, v1, v2, out, n);
    SubtractionSubtracts(l1, out, v2, diff, n);
    var l' := Run(l1, Subtraction(out, v2, diff, n));
    ValueFrame(l.mem, l1.mem, v2, n);
    ValueBound(l.mem, v1, n);
    ValueBound(l.mem, v2, n);
    ValueBound(l1.mem, out, n);
    ValueInjective(l'.mem, diff, l.mem, v1, n);
  }
}
