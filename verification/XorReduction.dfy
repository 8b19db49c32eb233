/** The parity of a column, two bits per step, and the log-step folds of the baseline programs. */
module XorReduction {
  import opened Bits
  import opened Dram
  import opened BitcountValue

  /** The exclusive or of rows v .. v+n-1. */
  function Parity(m: seq<Bit>, v: nat, n: nat): Bit
    requires v + n <= |m|
  {
    if n == 0 then Zero else Xor(Parity(m, v, n - 1), m[v + n - 1])
  }

  /** The parity tells whether the number of ones is odd. */
  lemma {:induction false} ParityIsOddCount(m: seq<Bit>, v: nat, n: nat)
    requires v + n <= |m|
    ensures Parity(m, v, n) == Truth(Ones(m, v, n) % 2 == 1)
  {
    if n > 0 {
      ParityIsOddCount(m, v, n - 1);
    }
  }

  // ----- Two bits per step, with the parity in T1 and its complement in DCC1

  function XorStep(v: nat): Program {
    Then(Block4(AAP(DCC0N_T0, Row(v)), AAP(T2, Row(v + 1)), AAP(T3, DCC0_T1_T2), AAP(T2, DCC1_T0_T3)),
         Block2(AAP(DCC0N, Row(v + 1)), AAP(DCC1N, DCC0_T1_T2)))
  }

  lemma XorStepFirst(l: Lane, v: nat)
    requires v + 1 < |l.mem|
    ensures var x := Maj(Not(l.mem[v]), l.cells.t1, l.mem[v + 1]);
            var y := Maj(l.cells.dcc1, l.mem[v], x);
            Steps4(l, AAP(DCC0N_T0, Row(v)), AAP(T2, Row(v + 1)), AAP(T3, DCC0_T1_T2), AAP(T2, DCC1_T0_T3))
            == Lane(Cells(y, x, y, y, x, y), l.mem)
  {
    hide Maj, Not;
  }

  lemma XorStepSecond(l: Lane, v: nat)
    requires v < |l.mem|
    ensures var z := Maj(Not(l.mem[v]), l.cells.t1, l.cells.t2);
            Steps2(l, AAP(DCC0N, Row(v)), AAP(DCC1N, DCC0_T1_T2))
            == Lane(l.cells.(t1 := z, t2 := z, dcc0 := z, dcc1 := Not(z)), l.mem)
  {
    hide Maj, Not;
  }

  /** Three majorities make an exclusive or of three bits when the complement of one of them is at hand. */
  lemma ThreeVotesXor(p: Bit, a: Bit, b: Bit)
    ensures var x := Maj(Not(a), p, b);
            Maj(Not(b), x, Maj(Not(p), a, x)) == Xor(Xor(p, a), b)
  {
  }

  lemma XorStepRuns(l: Lane, v: nat)
    requires v + 1 < |l.mem| && l.cells.dcc1 == Not(l.cells.t1)
    ensures var l' := Run(l, XorStep(v));
            && l'.mem == l.mem && l'.cells.t1 == Xor(Xor(l.cells.t1, l.mem[v]), l.mem[v + 1])
            && l'.cells.dcc1 == Not(l'.cells.t1)
  {
    hide Run, Steps2, Steps4, Block2, Block4, Maj, Not, Xor;
    RunThen(l, Block4(AAP(DCC0N_T0, Row(v)), AAP(T2, Row(v + 1)), AAP(T3, DCC0_T1_T2), AAP(T2, DCC1_T0_T3)),
            Block2(AAP(DCC0N, Row(v + 1)), AAP(DCC1N, DCC0_T1_T2)));
    RunBlock4(l, AAP(DCC0N_T0, Row(v)), AAP(T2, Row(v + 1)), AAP(T3, DCC0_T1_T2), AAP(T2, DCC1_T0_T3));
    var l4 := Steps4(l, AAP(DCC0N_T0, Row(v)), AAP(T2, Row(v + 1)), AAP(T3, DCC0_T1_T2), AAP(T2, DCC1_T0_T3));
    RunBlock2(l4, AAP(DCC0N, Row(v + 1)), AAP(DCC1N, DCC0_T1_T2));
    XorStepFirst(l, v);
    XorStepSecond(l4, v + 1);
    ThreeVotesXor(l.cells.t1, l.mem[v], l.mem[v + 1]);
  }

  /** i steps on the rows from v on. */
  function XorRounds(v: nat, i: nat): Program {
    if i == 0 then Nop else Then(XorRounds(v, i - 1), XorStep(v + 2 * (i - 1)))
  }

  lemma {:induction false} XorRoundsRun(l: Lane, v: nat, k: nat, i: nat)
    requires v + k + 2 * i <= |l.mem| && l.cells.t1 == Parity(l.mem, v, k) && l.cells.dcc1 == Not(l.cells.t1)
    ensures var l' := Run(l, XorRounds(v + k, i));
            l'.mem == l.mem && l'.cells.t1 == Parity(l.mem, v, k + 2 * i) && l'.cells.dcc1 == Not(l'.cells.t1)
  {
    hide Run, XorStep, Not, Xor;
    if i == 0 {
      RunNop(l);
    } else {
      XorRoundsRun(l, v, k, i - 1);
      RunThen(l, XorRounds(v + k, i - 1), XorStep(v + k + 2 * (i - 1)));
      XorStepRuns(Run(l, XorRounds(v + k, i - 1)), v + k + 2 * (i - 1));
      ParityTwo(l.mem, v, k + 2 * (i - 1));
    }
  }

  lemma ParityTwo(m: seq<Bit>, v: nat, n: nat)
    requires v + n + 2 <= |m|
    ensures Parity(m, v, n + 2) == Xor(Xor(Parity(m, v, n), m[v + n]), m[v + n + 1])
  {
  }

  /** 30_xor_reduction: an odd first row is loaded directly, then pairs. */
  function XorReduction(v: nat, out: nat, n: nat): Program {
    Then(Then(Do(AAP(DCC1N_T1, if n % 2 == 0 then C0 else Row(v))), XorRounds(v + n % 2, n / 2)), Do(AAP(Row(out), T1)))
  }

  lemma LoadFirst(l: Lane, v: nat, odd: bool)
    requires odd ==> v < |l.mem|
    ensures var b := if odd then l.mem[v] else Zero;
            Step(l, AAP(DCC1N_T1, if odd then Row(v) else C0)) == Lane(l.cells.(t1 := b, dcc1 := Not(b)), l.mem)
  {
    hide Not;
  }

  lemma ParityShort(m: seq<Bit>, v: nat, k: nat)
    requires k <= 1 && v + k <= |m|
    ensures Parity(m, v, k) == if k == 1 then m[v] else Zero
  {
    assert Parity(m, v, 0) == Zero;
  }

  /** For every width, odd or even, the output row is the parity of the column. */
  lemma XorReductionIsParity(l: Lane, v: nat, out: nat, n: nat)
    requires v + n <= |l.mem| && out < |l.mem|
    ensures Run(l, XorReduction(v, out, n)).mem == l.mem[out := Parity(l.mem, v, n)]
  {
    hide Run, XorRounds, Step, Not, Parity, Xor;
    var k, load := n % 2, Do(AAP(DCC1N_T1, if n % 2 == 0 then C0 else Row(v)));
    RunThen(l, Then(load, XorRounds(v + k, n / 2)), Do(AAP(Row(out), T1)));
    RunThen(l, load, XorRounds(v + k, n / 2));
    LoadFirst(l, v, k == 1);
    RunDo(l, AAP(DCC1N_T1, if n % 2 == 0 then C0 else Row(v)));
    var l1 := Run(l, load);
    ParityShort(l.mem, v, k);
    XorRoundsRun(l1, v, k, n / 2);
    var l2 := Run(l1, XorRounds(v + k, n / 2));
    RunDo(l2, AAP(Row(out), T1));
    WriteRow(l2, out, T1);
  }

  // ----- The baseline: x ^= x >> k for halving k, then the low bit

  /** x ^= x >> k on a fixed-width word, least significant bit first. */
  function ShiftXor(x: seq<Bit>, k: nat): (r: seq<Bit>)
    ensures |r| == |x|
  {
    seq(|x|, i requires 0 <= i < |x| => if i + k < |x| then Xor(x[i], x[i + k]) else x[i])
  }

  function Fold(x: seq<Bit>, k: nat): Bit
    requires |x| > 0
    decreases k
  {
    if k == 0 then x[0] else Fold(ShiftXor(x, k), k / 2)
  }

  lemma {:induction false} ParitySplit(x: seq<Bit>, v: nat, a: nat, b: nat)
    requires v + a + b <= |x|
    ensures Parity(x, v, a + b) == Xor(Parity(x, v, a), Parity(x, v + a, b))
  {
    if b > 0 {
      ParitySplit(x, v, a, b - 1);
    }
  }

  /** The low half of the shifted word has the parity of the whole. */
  lemma {:induction false} ShiftXorParity(x: seq<Bit>, k: nat, i: nat)
    requires i <= k && 2 * k <= |x|
    ensures Parity(ShiftXor(x, k), 0, i) == Xor(Parity(x, 0, i), Parity(x, k, i))
  {
    if i > 0 {
      ShiftXorParity(x, k, i - 1);
    }
  }

  /** Folding a word of 2^(e+1) bits, starting with a shift of 2^e, gives its parity. */
  lemma {:induction false} FoldIsParity(x: seq<Bit>, e: nat)
    requires |x| >= 2 * Pow2(e)
    ensures Fold(x, Pow2(e)) == Parity(x, 0, 2 * Pow2(e))
    decreases e
  {
    hide Xor, Parity, ShiftXor, Fold;
    var k := Pow2(e);
    FoldStep(x, k);
    ShiftXorParity(x, k, k);
    ParitySplit(x, 0, k, k);
    if e == 0 {
      ParityShort(ShiftXor(x, 1), 0, 1);
      FoldStep(ShiftXor(x, 1), 0);
    } else {
      FoldIsParity(ShiftXor(x, k), e - 1);
    }
  }

  lemma FoldStep(x: seq<Bit>, k: nat)
    requires |x| > 0
    ensures Fold(x, k) == if k == 0 then x[0] else Fold(ShiftXor(x, k), k / 2)
  {
  }

  /** xor_reduction8, 16, 32 and 64 agree with the in-memory program on columns of those widths. */
  lemma BaselineAgrees(l: Lane, out: nat, e: nat)
    requires e in {2, 3, 4, 5} && 2 * Pow2(e) <= |l.mem| && out < |l.mem|
    ensures Run(l, XorReduction(0, out, 2 * Pow2(e))).mem[out] == Fold(l.mem[..2 * Pow2(e)], Pow2(e))
  {
    hide Run, XorReduction, Parity, Fold;
    var n := 2 * Pow2(e);
    XorReductionIsParity(l, 0, out, n);
    FoldIsParity(l.mem[..n], e);
    ParityFrame(l.mem, l.mem[..n], n);
  }

  lemma {:induction false} ParityFrame(x: seq<Bit>, y: seq<Bit>, n: nat)
    requires n <= |x| && n <= |y| && forall i :: 0 <= i < n ==> x[i] == y[i]
    ensures Parity(x, 0, n) == Parity(y, 0, n)
  {
    if n > 0 {
      ParityFrame(x, y, n - 1);
    }
  }

  // ----- The driver's loop

  lemma XorStepIssuable(v: nat, n: nat)
    requires v + 1 < n
    ensures Issuable(XorStep(v), n)
  {
    IssuableBlock4(AAP(DCC0N_T0, Row(v)), AAP(T2, Row(v + 1)), AAP(T3, DCC0_T1_T2), AAP(T2, DCC1_T0_T3), n);
    IssuableBlock2(AAP(DCC0N, Row(v + 1)), AAP(DCC1N, DCC0_T1_T2), n);
  }

  method ReduceVectors(s: Subarray, v: nat, out: nat, n: nat)
    requires v + n <= |s.mem| && out < |s.mem|
    modifies s
    ensures s.State() == Run(old(s.State()), XorReduction(v, out, n))
    ensures s.mem == old(s.mem)[out := Parity(old(s.mem), v, n)]
  {
    hide Step, XorStep, Parity;
    ghost var start := s.State();
    var j := n % 2;
    var first := if n % 2 == 0 then C0 else Row(v);
    RunDo(start, AAP(DCC1N_T1, first));
    s.Aap(DCC1N_T1, first);
    ghost var l1 := s.State();
    ghost var i := 0;
    while j < n - 1
      invariant j == n % 2 + 2 * i && i <= n / 2
      invariant s.State() == Run(l1, XorRounds(v + n % 2, i))
    {
      XorStepIssuable(v + j, |s.mem|);
      s.Issue(XorStep(v + j));
      j, i := j + 2, i + 1;
    }
    RunDo(s.State(), AAP(Row(out), T1));
    s.Aap(Row(out), T1);
    hide Run, XorRounds;
    RunThen(start, Then(Do(AAP(DCC1N_T1, first)), XorRounds(v + n % 2, n / 2)), Do(AAP(Row(out), T1)));
    RunThen(start, Do(AAP(DCC1N_T1, first)), XorRounds(v + n % 2, n / 2));
    XorReductionIsParity(start, v, out, n);
  }
}
