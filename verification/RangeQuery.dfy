/**
  The range test c1 <= v <= c2.  Two comparison chains run side by side, one in the pair
  DCC1/T3 and one in the pair T1/T2; which cell of a pair carries the chain and which holds the
  constant depends on the bits of c1 and c2.
 */
module RangeQuery {
  import opened Bits
  import opened Dram
  import opened ConstBits

  /** The command that depends on the two constants' bits. */
  function ConstantCommand(b1: bool, b2: bool): Command {
    if !b1 && !b2 then AAP(DCC1N_T1, C0)
    else if !b1 && b2 then AAP(T2_T3, C1)
    else if b1 && !b2 then AAP(T2_T3, C0)
    else AAP(DCC1N_T1, C1)
  }

  function RangeStep(b1: bool, b2: bool, v: nat): Program {
    Block4(AAP(DCC0N_T0, Row(v)), ConstantCommand(b1, b2), AP(DCC1_T0_T3), AP(DCC0_T1_T2))
  }

  /** The cell of the pair DCC1/T3 that carries the lower chain into a step. */
  function LowerCarrier(c: Cells, b1: bool, b2: bool): Bit {
    if b1 == b2 then c.t3 else c.dcc1
  }

  /** The cell of the pair T1/T2 that carries the upper chain into a step. */
  function UpperCarrier(c: Cells, b1: bool, b2: bool): Bit {
    if b1 == b2 then c.t2 else c.t1
  }

  lemma RangeStepRuns(l: Lane, b1: bool, b2: bool, v: nat)
    requires v < |l.mem|
    ensures var x := l.mem[v];
            var lower := Maj(Not(Truth(b1)), x, LowerCarrier(l.cells, b1, b2));
            var upper := Maj(Not(x), Truth(b2), UpperCarrier(l.cells, b1, b2));
            Run(l, RangeStep(b1, b2, v)) == Lane(Cells(lower, upper, upper, lower, upper, lower), l.mem)
  {
    hide Run;
    RangeStepSteps(l, b1, b2, v);
    hide Steps4, Maj, Not, Truth;
    RunBlock4(l, AAP(DCC0N_T0, Row(v)), ConstantCommand(b1, b2), AP(DCC1_T0_T3), AP(DCC0_T1_T2));
  }

  lemma RangeStepSteps(l: Lane, b1: bool, b2: bool, v: nat)
    requires v < |l.mem|
    ensures var x := l.mem[v];
            var lower := Maj(Not(Truth(b1)), x, LowerCarrier(l.cells, b1, b2));
            var upper := Maj(Not(x), Truth(b2), UpperCarrier(l.cells, b1, b2));
            Steps4(l, AAP(DCC0N_T0, Row(v)), ConstantCommand(b1, b2), AP(DCC1_T0_T3), AP(DCC0_T1_T2))
            == Lane(Cells(lower, upper, upper, lower, upper, lower), l.mem)
  {
    RangeStepCells(l, b1, b2, v);
    var x := l.mem[v];
    MajOrder(Not(Truth(b1)), x, LowerCarrier(l.cells, b1, b2));
    MajOrder(Not(x), Truth(b2), UpperCarrier(l.cells, b1, b2));
    hide Steps4, Maj;
  }

  /** Bit and constant are loaded; the cells that carry the chains are left alone. */
  lemma LoadBit(l: Lane, b1: bool, b2: bool, v: nat)
    requires v < |l.mem|
    ensures var x, a, b := l.mem[v], Not(Truth(b1)), Truth(b2);
            var c := l.cells.(t0 := x, dcc0 := Not(x));
            Steps2(l, AAP(DCC0N_T0, Row(v)), ConstantCommand(b1, b2))
            == Lane(if b1 == b2 then c.(dcc1 := a, t1 := b) else c.(t2 := b, t3 := a), l.mem)
  {
    if b1 { if b2 { } else { } } else { if b2 { } else { } }
  }

  lemma TwoVotes(l: Lane)
    ensures var lower := Maj(l.cells.dcc1, l.cells.t0, l.cells.t3);
            var upper := Maj(l.cells.dcc0, l.cells.t1, l.cells.t2);
            Steps2(l, AP(DCC1_T0_T3), AP(DCC0_T1_T2)) == Lane(Cells(lower, upper, upper, lower, upper, lower), l.mem)
  {
    hide Maj;
  }

  /** The step's majorities as the commands form them. */
  lemma RangeStepCells(l: Lane, b1: bool, b2: bool, v: nat)
    requires v < |l.mem|
    ensures var x, a, b := l.mem[v], Not(Truth(b1)), Truth(b2);
            var lower := if b1 == b2 then Maj(a, x, l.cells.t3) else Maj(l.cells.dcc1, x, a);
            var upper := if b1 == b2 then Maj(Not(x), b, l.cells.t2) else Maj(Not(x), l.cells.t1, b);
            Steps4(l, AAP(DCC0N_T0, Row(v)), ConstantCommand(b1, b2), AP(DCC1_T0_T3), AP(DCC0_T1_T2))
            == Lane(Cells(lower, upper, upper, lower, upper, lower), l.mem)
  {
    hide Step, ConstantCommand, Maj, Not, Truth;
    LoadBit(l, b1, b2, v);
    TwoVotes(Steps2(l, AAP(DCC0N_T0, Row(v)), ConstantCommand(b1, b2)));
  }

  // ----- The chains

  function RangeRounds(c1: nat, c2: nat, v: nat, k: nat): Program {
    if k == 0 then Nop
    else Then(RangeRounds(c1, c2, v, k - 1), RangeStep(BitSet(c1, k - 1), BitSet(c2, k - 1), v + k - 1))
  }

  /** 0 if the lower chain starts at one, else 1: it starts in T3 when bit 0 of the constants agrees, else in DCC1. */
  function Strict(t3: Bit, c1: nat, c2: nat): nat {
    if t3 == One || BitSet(c1, 0) != BitSet(c2, 0) then 0 else 1
  }

  /** After k >= 1 bits both cells of a pair hold the chain: v >= c1 (or v > c1) in one, v <= c2 in the other. */
  ghost predicate Chained(m: seq<Bit>, c: Cells, e: nat, c1: nat, c2: nat, v: nat, k: nat)
    requires v + k <= |m|
  {
    && c.dcc1 == c.t3 == Truth(Value(m, v, k) >= LowBits(c1, k) + e)
    && c.t1 == c.t2 == Truth(LowBits(c2, k) >= Value(m, v, k))
  }

  lemma ChainedStep(m: seq<Bit>, lower: Bit, upper: Bit, e: nat, c1: nat, c2: nat, v: nat, k: nat)
    requires v + k < |m| && e <= 1
    requires lower == Truth(Value(m, v, k) >= LowBits(c1, k) + e) && upper == Truth(LowBits(c2, k) >= Value(m, v, k))
    ensures Maj(Not(Truth(BitSet(c1, k))), m[v + k], lower) == Truth(Value(m, v, k + 1) >= LowBits(c1, k + 1) + e)
    ensures Maj(Not(m[v + k]), Truth(BitSet(c2, k)), upper) == Truth(LowBits(c2, k + 1) >= Value(m, v, k + 1))
  {
    hide BitSet, Maj, Not, Truth;
    ValueBound(m, v, k);
    LowBitsBound(c1, k);
    LowBitsBound(c2, k);
    ChainBit(lower, Value(m, v, k), LowBits(c1, k), e, m[v + k], Truth(BitSet(c1, k)), k);
    ChainBit(upper, LowBits(c2, k), Value(m, v, k), 0, Truth(BitSet(c2, k)), m[v + k], k);
  }

  lemma {:induction false} RoundsChain(l: Lane, c1: nat, c2: nat, v: nat, k: nat)
    requires v + k <= |l.mem| && k >= 1
    requires l.cells.dcc1 == One && l.cells.t1 == One && l.cells.t2 == One
    ensures var l' := Run(l, RangeRounds(c1, c2, v, k));
            l'.mem == l.mem && Chained(l.mem, l'.cells, Strict(l.cells.t3, c1, c2), c1, c2, v, k)
  {
    hide Run, RangeStep, BitSet, Maj, Not;
    var i, e := k - 1, Strict(l.cells.t3, c1, c2);
    RunThen(l, RangeRounds(c1, c2, v, i), RangeStep(BitSet(c1, i), BitSet(c2, i), v + i));
    var l1 := Run(l, RangeRounds(c1, c2, v, i));
    if i == 0 {
      RunNop(l);
    } else {
      RoundsChain(l, c1, c2, v, i);
    }
    RangeStepRuns(l1, BitSet(c1, i), BitSet(c2, i), v + i);
    ChainedStep(l.mem, LowerCarrier(l1.cells, BitSet(c1, i), BitSet(c2, i)),
                UpperCarrier(l1.cells, BitSet(c1, i), BitSet(c2, i)),
                e, c1, c2, v, i);
  }

  // ----- The query

  /** 90_bitweave; T3 is not initialised. */
  function RangeQuery(c1: nat, c2: nat, v: nat, out: nat, n: nat): Program {
    Then(Then(Block2(AAP(DCC1, C1), AAP(T0_T1_T2, C1)), RangeRounds(c1, c2, v, n)),
         Block2(AAP(T1, C0), AAP(Row(out), T1_T2_T3)))
  }

  lemma RangeStart(l: Lane)
    ensures Steps2(l, AAP(DCC1, C1), AAP(T0_T1_T2, C1))
            == Lane(l.cells.(dcc1 := One, t0 := One, t1 := One, t2 := One), l.mem)
  {
  }

  lemma RangeEnd(l: Lane, out: nat)
    requires out < |l.mem|
    ensures var b := And(l.cells.t3, l.cells.t2);
            Steps2(l, AAP(T1, C0), AAP(Row(out), T1_T2_T3))
            == Lane(l.cells.(t1 := b, t2 := b, t3 := b), l.mem[out := b])
  {
    MajZero(l.cells.t3, l.cells.t2);
    hide Maj, And;
  }

  /** What the query answers for value x: the upper test, and the lower test made strict when e is 1. */
  function Answer(x: nat, y1: nat, y2: nat, e: nat): Bit {
    Truth(y1 + e <= x <= y2)
  }

  /** The answer is the range test, with a strict lower bound when the chain started at zero; T3 keeps it. */
  lemma RangeQueryAnswers(l: Lane, c1: nat, c2: nat, v: nat, out: nat, n: nat)
    requires 1 <= n && v + n <= |l.mem| && out < |l.mem|
    ensures var a := Answer(Value(l.mem, v, n), LowBits(c1, n), LowBits(c2, n), Strict(l.cells.t3, c1, c2));
            var l' := Run(l, RangeQuery(c1, c2, v, out, n));
            l'.mem == l.mem[out := a] && l'.cells.t3 == a
  {
    hide Run, Steps2, BitSet, Value, LowBits;
    var start, rounds, end := Block2(AAP(DCC1, C1), AAP(T0_T1_T2, C1)), RangeRounds(c1, c2, v, n),
                              Block2(AAP(T1, C0), AAP(Row(out), T1_T2_T3));
    RunThen(l, Then(start, rounds), end);
    RunThen(l, start, rounds);
    RunBlock2(l, AAP(DCC1, C1), AAP(T0_T1_T2, C1));
    RangeStart(l);
    var l1 := Run(l, start);
    RoundsChain(l1, c1, c2, v, n);
    var l2 := Run(l1, rounds);
    RunBlock2(l2, AAP(T1, C0), AAP(Row(out), T1_T2_T3));
    RangeEnd(l2, out);
  }

  // ----- When the answer is right

  /** For this entry value of T3 the query decides c1 <= v <= c2, on the low n bits, for every lane. */
  ghost predicate Decides(t3: Bit, c1: nat, c2: nat, n: nat) {
    forall l: Lane, v: nat, out: nat | l.cells.t3 == t3 && v + n <= |l.mem| && out < |l.mem| ::
      Run(l, RangeQuery(c1, c2, v, out, n)).mem
      == l.mem[out := Truth(LowBits(c1, n) <= Value(l.mem, v, n) <= LowBits(c2, n))]
  }

  /** The lane whose rows hold c1 itself. */
  function AtLowerBound(t3: Bit, c1: nat, n: nat): Lane {
    Lane(Cells(Zero, Zero, Zero, t3, Zero, Zero), Encode(c1, n) + [Zero])
  }

  lemma LowerBoundMissed(c1: nat, c2: nat, n: nat)
    requires 1 <= n && Strict(Zero, c1, c2) == 1 && LowBits(c1, n) <= LowBits(c2, n)
    ensures var l := AtLowerBound(Zero, c1, n);
            && Value(l.mem, 0, n) == LowBits(c1, n)
            && Run(l, RangeQuery(c1, c2, 0, n, n)).mem[n] == Zero
  {
    hide Run, RangeQuery, Strict, BitSet, LowBits, Encode;
    var l := AtLowerBound(Zero, c1, n);
    EncodeValue(c1, n);
    ValueFrame(Encode(c1, n), l.mem, 0, n);
    RangeQueryAnswers(l, c1, c2, 0, n, n);
  }

  /**
    The query is right for every lane exactly when T3 happens to hold one at entry, or bit 0 of the
    constants differs, or the range is empty; otherwise it misses values equal to c1.
   */
  lemma DecidesExactlyWhen(t3: Bit, c1: nat, c2: nat, n: nat)
    requires 1 <= n
    ensures Decides(t3, c1, c2, n)
            <==> t3 == One || BitSet(c1, 0) != BitSet(c2, 0) || LowBits(c1, n) > LowBits(c2, n)
  {
    hide Run, RangeQuery, BitSet, LowBits, Value;
    var right := t3 == One || BitSet(c1, 0) != BitSet(c2, 0) || LowBits(c1, n) > LowBits(c2, n);
    if right {
      forall l: Lane, v: nat, out: nat | l.cells.t3 == t3 && v + n <= |l.mem| && out < |l.mem|
        ensures Run(l, RangeQuery(c1, c2, v, out, n)).mem
                == l.mem[out := Truth(LowBits(c1, n) <= Value(l.mem, v, n) <= LowBits(c2, n))]
      {
        RangeQueryAnswers(l, c1, c2, v, out, n);
      }
    } else {
      LowerBoundMissed(c1, c2, n);
      var l := AtLowerBound(Zero, c1, n);
      assert Run(l, RangeQuery(c1, c2, 0, n, n)).mem
             != l.mem[n := Truth(LowBits(c1, n) <= Value(l.mem, 0, n) <= LowBits(c2, n))];
    }
  }

  /**
    The cells a chunk leaves are the next chunk's entry: its answer is right exactly when bit 0 of the
    constants differs, the lane before it was in range, its own value is not c1, or the range is empty.
   */
  lemma NextChunkRightExactly(l: Lane, next: seq<Bit>, c1: nat, c2: nat, v: nat, out: nat, n: nat)
    requires 1 <= n && v + n <= |l.mem| && out < |l.mem| && |next| == |l.mem|
    ensures var l1 := Run(l, RangeQuery(c1, c2, v, out, n));
            var y1, y2, x := LowBits(c1, n), LowBits(c2, n), Value(next, v, n);
            Run(Lane(l1.cells, next), RangeQuery(c1, c2, v, out, n)).mem == next[out := Truth(y1 <= x <= y2)]
            <==> BitSet(c1, 0) != BitSet(c2, 0) || l1.mem[out] == One || x != y1 || y1 > y2
  {
    hide Run, RangeQuery, BitSet, LowBits, Value;
    var l1 := Run(l, RangeQuery(c1, c2, v, out, n));
    RangeQueryAnswers(l, c1, c2, v, out, n);
    RangeQueryAnswers(Lane(l1.cells, next), c1, c2, v, out, n);
    var a, b := Answer(Value(next, v, n), LowBits(c1, n), LowBits(c2, n), Strict(l1.cells.t3, c1, c2)),
                Truth(LowBits(c1, n) <= Value(next, v, n) <= LowBits(c2, n));
    assert next[out := a] == next[out := b] <==> a == b by {
      assert next[out := a][out] == a && next[out := b][out] == b;
    }
  }

  // ----- The driver's loop

  method QueryVectors(s: Subarray, c1: nat, c2: nat, v: nat, out: nat, n: nat)
    requires 1 <= n && v + n <= |s.mem| && out < |s.mem|
    modifies s
    ensures s.State() == Run(old(s.State()), RangeQuery(c1, c2, v, out, n))
    ensures |s.mem| == |old(s.mem)|
    ensures var x, y1, y2 := old(Value(s.mem, v, n)), LowBits(c1, n), LowBits(c2, n);
            s.mem == old(s.mem)[out := Answer(x, y1, y2, Strict(old(s.t3), c1, c2))]
  {
    hide Step, BitSet, RangeStep, Answer, Strict;
    ghost var start := s.State();
    s.Aap(DCC1, C1);
    s.Aap(T0_T1_T2, C1);
    RunBlock2(start, AAP(DCC1, C1), AAP(T0_T1_T2, C1));
    ghost var l1 := s.State();
    for j := 0 to n
      invariant s.State() == Run(l1, RangeRounds(c1, c2, v, j))
    {
      RangeStepIssuable(BitSet(c1, j), BitSet(c2, j), v + j, |s.mem|);
      s.Issue(RangeStep(BitSet(c1, j), BitSet(c2, j), v + j));
    }
    RunBlock2(s.State(), AAP(T1, C0), AAP(Row(out), T1_T2_T3));
    s.Aap(T1, C0);
    s.Aap(Row(out), T1_T2_T3);
    hide Run, RangeRounds;
    ghost var begin, rounds, end := Block2(AAP(DCC1, C1), AAP(T0_T1_T2, C1)), RangeRounds(c1, c2, v, n),
                                    Block2(AAP(T1, C0), AAP(Row(out), T1_T2_T3));
    RunThen(start, Then(begin, rounds), end);
    RunThen(start, begin, rounds);
    RangeQueryAnswers(start, c1, c2, v, out, n);
  }

  lemma RangeStepIssuable(b1: bool, b2: bool, v: nat, n: nat)
    requires v < n
    ensures Issuable(RangeStep(b1, b2, v), n)
  {
    IssuableBlock4(AAP(DCC0N_T0, Row(v)), ConstantCommand(b1, b2), AP(DCC1_T0_T3), AP(DCC0_T1_T2), n);
  }
}
