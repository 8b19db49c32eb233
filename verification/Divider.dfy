/**
  The restoring divider.  Round j brings bit j of the dividend into the partial
  remainder, compares the remainder with the divisor, records the outcome as
  quotient bit j and subtracts the masked divisor.
 */
module Divider {
  import opened Bits
  import opened Dram
  import opened Adder

  /**
    Where the rows stand: scratch rows first, then the operands and the quotient, all of
    width n.  Every array is allocated on its own, so the blocks do not overlap.
   */
  datatype Layout = Layout(rest: nat, tmp: nat, m: nat, v1: nat, v2: nat, out: nat, n: nat) {

    predicate Fits(size: nat) {
      rest + n <= tmp && tmp + n <= m && m < v1 && v1 + n <= v2 && v2 + n <= out && out + n <= size
    }
  }

  // ----- The one- and two-bit blocks

  function CompareBit(r: nat, b: nat): Program {
    Block3(AAP(T2, Row(r)), AAP(DCC0N, Row(b)), AP(DCC0_T1_T2))
  }

  lemma CompareBitRuns(l: Lane, r: nat, b: nat)
    requires r < |l.mem| && b < |l.mem|
    ensures var v := Maj(Not(l.mem[b]), l.cells.t1, l.mem[r]);
            Run(l, CompareBit(r, b)) == Lane(l.cells.(t1 := v, t2 := v, dcc0 := v), l.mem)
  {
    hide Run, Maj, Not;
    RunBlock3(l, AAP(T2, Row(r)), AAP(DCC0N, Row(b)), AP(DCC0_T1_T2));
  }

  /** Two divisor bits above the remainder's width, each against a remainder bit of zero. */
  function ComparePair(b: nat): Program {
    Then(Block3(AAP(T2_T3, C0), AAP(DCC0N, Row(b)), AAP(T0, DCC0_T1_T2)),
         Block2(AAP(DCC1N, Row(b + 1)), AAP(T1, DCC1_T0_T3)))
  }

  lemma ComparePairSteps(l: Lane, b: nat)
    requires b + 1 < |l.mem|
    ensures var x := Maj(Not(l.mem[b]), l.cells.t1, Zero);
            var y := Maj(Not(l.mem[b + 1]), x, Zero);
            Steps2(Steps3(l, AAP(T2_T3, C0), AAP(DCC0N, Row(b)), AAP(T0, DCC0_T1_T2)),
                   AAP(DCC1N, Row(b + 1)), AAP(T1, DCC1_T0_T3))
            == Lane(Cells(y, y, x, y, x, y), l.mem)
  {
    hide Maj, Not;
  }

  lemma ComparePairRuns(l: Lane, b: nat)
    requires b + 1 < |l.mem|
    ensures var x := Maj(Not(l.mem[b]), l.cells.t1, Zero);
            var y := Maj(Not(l.mem[b + 1]), x, Zero);
            Run(l, ComparePair(b)) == Lane(Cells(y, y, x, y, x, y), l.mem)
  {
    hide Run, Steps2, Steps3, Maj, Not;
    var l3 := Steps3(l, AAP(T2_T3, C0), AAP(DCC0N, Row(b)), AAP(T0, DCC0_T1_T2));
    RunThen(l, Block3(AAP(T2_T3, C0), AAP(DCC0N, Row(b)), AAP(T0, DCC0_T1_T2)),
            Block2(AAP(DCC1N, Row(b + 1)), AAP(T1, DCC1_T0_T3)));
    RunBlock3(l, AAP(T2_T3, C0), AAP(DCC0N, Row(b)), AAP(T0, DCC0_T1_T2));
    RunBlock2(l3, AAP(DCC1N, Row(b + 1)), AAP(T1, DCC1_T0_T3));
    ComparePairSteps(l, b);
  }

  /** The last divisor bit when their number above the remainder is odd; the outcome goes straight to row m. */
  function CompareLast(b: nat, m: nat): Program {
    Block3(AAP(T2, C0), AAP(DCC0N, Row(b)), AAP(Row(m), DCC0_T1_T2))
  }

  lemma CompareLastSteps(l: Lane, b: nat, m: nat)
    requires b < |l.mem| && m < |l.mem|
    ensures var v := Maj(Not(l.mem[b]), l.cells.t1, Zero);
            Steps3(l, AAP(T2, C0), AAP(DCC0N, Row(b)), AAP(Row(m), DCC0_T1_T2))
            == Lane(l.cells.(t1 := v, t2 := v, dcc0 := v), l.mem[m := v])
  {
    hide Maj, Not;
  }

  lemma CompareLastRuns(l: Lane, b: nat, m: nat)
    requires b < |l.mem| && m < |l.mem|
    ensures var v := Maj(Not(l.mem[b]), l.cells.t1, Zero);
            Run(l, CompareLast(b, m)) == Lane(l.cells.(t1 := v, t2 := v, dcc0 := v), l.mem[m := v])
  {
    hide Run, Steps3, Step, Maj, Not;
    RunBlock3(l, AAP(T2, C0), AAP(DCC0N, Row(b)), AAP(Row(m), DCC0_T1_T2));
    CompareLastSteps(l, b, m);
  }

  /** Two bits of the masked divisor. */
  function MaskPair(m: nat, b: nat, t: nat): Program {
    Then(MaskOne(m, b, t), MaskOther(b + 1, t + 1))
  }

  function MaskOne(m: nat, b: nat, t: nat): Program {
    Block4(AAP(T0_T1_T2, C0), AAP(T2_T3, Row(m)), AAP(DCC0, Row(b)), AAP(Row(t), DCC0_T1_T2))
  }

  function MaskOther(b: nat, t: nat): Program {
    Block2(AAP(DCC1, Row(b)), AAP(Row(t), DCC1_T0_T3))
  }

  lemma MaskOneSteps(l: Lane, m: nat, b: nat, t: nat)
    requires m < |l.mem| && b < |l.mem| && t < |l.mem|
    ensures var x := Maj(l.mem[b], Zero, l.mem[m]);
            Steps4(l, AAP(T0_T1_T2, C0), AAP(T2_T3, Row(m)), AAP(DCC0, Row(b)), AAP(Row(t), DCC0_T1_T2))
            == Lane(Cells(Zero, x, x, l.mem[m], x, l.cells.dcc1), l.mem[t := x])
  {
    hide Maj, Not;
  }

  lemma MaskOtherSteps(l: Lane, b: nat, t: nat)
    requires b < |l.mem| && t < |l.mem|
    ensures var y := Maj(l.mem[b], l.cells.t0, l.cells.t3);
            Steps2(l, AAP(DCC1, Row(b)), AAP(Row(t), DCC1_T0_T3))
            == Lane(l.cells.(t0 := y, t3 := y, dcc1 := y), l.mem[t := y])
  {
    hide Maj, Not;
  }

  lemma MaskOneRuns(l: Lane, m: nat, b: nat, t: nat)
    requires m < |l.mem| && b < |l.mem| && t < |l.mem|
    ensures var x := And(l.mem[b], l.mem[m]);
            Run(l, MaskOne(m, b, t)) == Lane(Cells(Zero, x, x, l.mem[m], x, l.cells.dcc1), l.mem[t := x])
  {
    hide Run, Steps4, Step, Block4, Maj, Not, And;
    RunBlock4(l, AAP(T0_T1_T2, C0), AAP(T2_T3, Row(m)), AAP(DCC0, Row(b)), AAP(Row(t), DCC0_T1_T2));
    MaskOneSteps(l, m, b, t);
    MajZero(l.mem[b], l.mem[m]);
  }

  lemma MaskOtherRuns(l: Lane, b: nat, t: nat)
    requires b < |l.mem| && t < |l.mem| && l.cells.t0 == Zero
    ensures var y := And(l.mem[b], l.cells.t3);
            Run(l, MaskOther(b, t)) == Lane(l.cells.(t0 := y, t3 := y, dcc1 := y), l.mem[t := y])
  {
    hide Run, Steps2, Step, Block2, Maj, Not, And;
    RunBlock2(l, AAP(DCC1, Row(b)), AAP(Row(t), DCC1_T0_T3));
    MaskOtherSteps(l, b, t);
    MajZero(l.mem[b], l.cells.t3);
  }

  function MaskLast(m: nat, b: nat, t: nat): Program {
    Block4(AAP(T0, C0), AAP(T1, Row(m)), AAP(T2, Row(b)), AAP(Row(t), T0_T1_T2))
  }

  lemma MaskLastSteps(l: Lane, m: nat, b: nat, t: nat)
    requires m < |l.mem| && b < |l.mem| && t < |l.mem|
    ensures var v := Maj(Zero, l.mem[m], l.mem[b]);
            Steps4(l, AAP(T0, C0), AAP(T1, Row(m)), AAP(T2, Row(b)), AAP(Row(t), T0_T1_T2))
            == Lane(l.cells.(t0 := v, t1 := v, t2 := v), l.mem[t := v])
  {
    hide Maj, Not;
  }

  lemma MaskLastRuns(l: Lane, m: nat, b: nat, t: nat)
    requires m < |l.mem| && b < |l.mem| && t < |l.mem|
    ensures Run(l, MaskLast(m, b, t)).mem == l.mem[t := And(l.mem[b], l.mem[m])]
  {
    hide Run, Steps4, Maj, Not, And;
    RunBlock4(l, AAP(T0, C0), AAP(T1, Row(m)), AAP(T2, Row(b)), AAP(Row(t), T0_T1_T2));
    MaskLastSteps(l, m, b, t);
    MajZero(l.mem[b], l.mem[m]);
  }

  // ----- Step 2: compare the partial remainder with the divisor

  function CompareLow(r: nat, b: nat, k: nat): Program {
    if k == 0 then Nop else Then(CompareLow(r, b, k - 1), CompareBit(r + k - 1, b + k - 1))
  }

  lemma {:induction false} CompareLowDecides(l: Lane, r: nat, b: nat, k: nat)
    requires r + k <= |l.mem| && b + k <= |l.mem| && l.cells.t1 == One
    ensures var l' := Run(l, CompareLow(r, b, k));
            && l'.mem == l.mem
            && l'.cells.t1 == Truth(Value(l.mem, r, k) >= Value(l.mem, b, k))
  {
    if k > 0 {
      CompareLowDecides(l, r, b, k - 1);
      hide Run, CompareBit, Maj, Not, Truth;
      RunThen(l, CompareLow(r, b, k - 1), CompareBit(r + k - 1, b + k - 1));
      var l1 := Run(l, CompareLow(r, b, k - 1));
      CompareBitRuns(l1, r + k - 1, b + k - 1);
      ValueBound(l.mem, r, k - 1);
      ValueBound(l.mem, b, k - 1);
      var x, y := l.mem[r + k - 1], l.mem[b + k - 1];
      ChainBit(l1.cells.t1, Value(l.mem, r, k - 1), Value(l.mem, b, k - 1), 0, x, y, k - 1);
      MajOrder(Not(y), x, l1.cells.t1);
    }
  }

  /** i pairs of divisor bits starting at row b. */
  function CompareHigh(b: nat, i: nat): Program {
    if i == 0 then Nop else Then(CompareHigh(b, i - 1), ComparePair(b + 2 * (i - 1)))
  }

  /** A remainder below 2^k loses against a divisor bit at position k. */
  lemma CompareZeroBit(c: Bit, x: nat, y: nat, b: Bit, w: nat, k: nat)
    requires w <= k && x < Pow2(w)
    requires c == Truth(x >= y)
    ensures Maj(Not(b), c, Zero) == Truth(x >= y + Weight(b, k))
  {
    Pow2Monotone(w, k);
  }

  lemma {:induction false} CompareHighDecides(l: Lane, v2: nat, w: nat, i: nat, x: nat)
    requires v2 + w + 2 * i <= |l.mem| && x < Pow2(w)
    requires l.cells.t1 == Truth(x >= Value(l.mem, v2, w))
    ensures var l' := Run(l, CompareHigh(v2 + w, i));
            l'.mem == l.mem && l'.cells.t1 == Truth(x >= Value(l.mem, v2, w + 2 * i))
  {
    if i > 0 {
      CompareHighDecides(l, v2, w, i - 1, x);
      hide Run, ComparePair, Maj, Not, Truth;
      var b, k := v2 + w + 2 * (i - 1), w + 2 * (i - 1);
      RunThen(l, CompareHigh(v2 + w, i - 1), ComparePair(b));
      var l1 := Run(l, CompareHigh(v2 + w, i - 1));
      ComparePairRuns(l1, b);
      CompareZeroBit(l1.cells.t1, x, Value(l.mem, v2, k), l.mem[b], w, k);
      CompareZeroBit(Maj(Not(l.mem[b]), l1.cells.t1, Zero), x, Value(l.mem, v2, k + 1), l.mem[b + 1], w, k + 1);
    }
  }

  /** The outcome reaches row m either through the odd last bit or from T1. */
  function CompareTail(lay: Layout, j: nat): Program
    requires j < lay.n
  {
    if j % 2 == 1 then CompareLast(lay.v2 + lay.n - 1, lay.m) else Do(AAP(Row(lay.m), T1))
  }

  function Compare(lay: Layout, j: nat): Program
    requires j < lay.n
  {
    var w := lay.n - j;
    Then(Then(Do(AAP(T1, C1)), CompareLow(lay.rest + j, lay.v2, w)),
         Then(CompareHigh(lay.v2 + w, j / 2), CompareTail(lay, j)))
  }

  lemma CompareParts(l: Lane, lay: Layout, j: nat)
    requires j < lay.n
    ensures var low, high := CompareLow(lay.rest + j, lay.v2, lay.n - j), CompareHigh(lay.v2 + lay.n - j, j / 2);
            Run(l, Compare(lay, j)) == Run(Run(Run(Step(l, AAP(T1, C1)), low), high), CompareTail(lay, j))
  {
    hide Run, Step;
    var low, high := CompareLow(lay.rest + j, lay.v2, lay.n - j), CompareHigh(lay.v2 + lay.n - j, j / 2);
    RunThen(l, Then(Do(AAP(T1, C1)), low), Then(high, CompareTail(lay, j)));
    RunThen(l, Do(AAP(T1, C1)), low);
    RunDo(l, AAP(T1, C1));
    RunThen(Run(Step(l, AAP(T1, C1)), low), high, CompareTail(lay, j));
  }

  lemma SetT1(l: Lane)
    ensures Step(l, AAP(T1, C1)) == Lane(l.cells.(t1 := One), l.mem)
  {
  }

  lemma StoreT1(l: Lane, m: nat)
    requires m < |l.mem|
    ensures Run(l, Do(AAP(Row(m), T1))) == Lane(l.cells, l.mem[m := l.cells.t1])
  {
    hide Run, Step;
    RunDo(l, AAP(Row(m), T1));
    WriteRow(l, m, T1);
  }

  lemma CompareTailWrites(l: Lane, lay: Layout, j: nat, x: nat)
    requires lay.v2 + lay.n <= |l.mem| && lay.m < |l.mem| && j < lay.n && x < Pow2(lay.n - j)
    requires l.cells.t1 == Truth(x >= Value(l.mem, lay.v2, lay.n - j % 2))
    ensures Run(l, CompareTail(lay, j)).mem == l.mem[lay.m := Truth(x >= Value(l.mem, lay.v2, lay.n))]
  {
    hide Run, CompareLast, Step, Maj, Not, Truth, Pow2;
    if j % 2 == 1 {
      CompareLastRuns(l, lay.v2 + lay.n - 1, lay.m);
      CompareZeroBit(l.cells.t1, x, Value(l.mem, lay.v2, lay.n - 1), l.mem[lay.v2 + lay.n - 1], lay.n - j, lay.n - 1);
    } else {
      StoreT1(l, lay.m);
    }
  }

  /** Whatever the parity of j, row m ends up telling whether the partial remainder is at least the divisor. */
  lemma CompareDecides(l: Lane, lay: Layout, j: nat)
    requires lay.v2 + lay.n <= |l.mem| && lay.rest + lay.n <= |l.mem| && lay.m < |l.mem| && j < lay.n
    ensures Run(l, Compare(lay, j)).mem
            == l.mem[lay.m := Truth(Value(l.mem, lay.rest + j, lay.n - j) >= Value(l.mem, lay.v2, lay.n))]
  {
    hide Run, Step, CompareTail, CompareLow, CompareHigh, Compare, Value, Truth, Pow2;
    var w, x := lay.n - j, Value(l.mem, lay.rest + j, lay.n - j);
    CompareParts(l, lay, j);
    SetT1(l);
    var l1 := Step(l, AAP(T1, C1));
    CompareLowDecides(l1, lay.rest + j, lay.v2, w);
    var l2 := Run(l1, CompareLow(lay.rest + j, lay.v2, w));
    ValueBound(l.mem, lay.rest + j, w);
    CompareHighDecides(l2, lay.v2, w, j / 2, x);
    CompareTailWrites(Run(l2, CompareHigh(lay.v2 + w, j / 2)), lay, j, x);
  }

  // ----- Step 4: the divisor masked by the outcome

  function MaskPairs(lay: Layout, i: nat): Program {
    if i == 0 then Nop
    else Then(MaskPairs(lay, i - 1), MaskPair(lay.m, lay.v2 + 2 * (i - 1), lay.tmp + 2 * (i - 1)))
  }

  function Mask(lay: Layout, w: nat): Program {
    Then(MaskPairs(lay, w / 2),
         if w % 2 == 1 then MaskLast(lay.m, lay.v2 + w - 1, lay.tmp + w - 1) else Nop)
  }

  /** The first k scratch rows hold the masked divisor; everything else is as before. */
  ghost predicate Masked(m0: seq<Bit>, m1: seq<Bit>, lay: Layout, k: nat)
    requires k <= lay.n && lay.Fits(|m0|) && |m1| == |m0|
  {
    && (forall i :: 0 <= i < |m0| && !(lay.tmp <= i < lay.tmp + k) ==> m1[i] == m0[i])
    && (forall i :: lay.tmp <= i < lay.tmp + k ==> m1[i] == And(m0[i - lay.tmp + lay.v2], m0[lay.m]))
  }

  lemma MaskedNext(m0: seq<Bit>, m1: seq<Bit>, lay: Layout, k: nat)
    requires k < lay.n && lay.Fits(|m0|) && |m1| == |m0| && Masked(m0, m1, lay, k)
    ensures Masked(m0, m1[lay.tmp + k := And(m1[lay.v2 + k], m1[lay.m])], lay, k + 1)
    ensures m1[lay.v2 + k] == m0[lay.v2 + k] && m1[lay.m] == m0[lay.m]
  {
  }

  lemma MaskOneMasks(m0: seq<Bit>, l: Lane, lay: Layout, k: nat)
    requires k < lay.n && lay.Fits(|m0|) && |l.mem| == |m0| && Masked(m0, l.mem, lay, k)
    ensures var l' := Run(l, MaskOne(lay.m, lay.v2 + k, lay.tmp + k));
            Masked(m0, l'.mem, lay, k + 1) && l'.cells.t0 == Zero && l'.cells.t3 == m0[lay.m]
  {
    hide Run, MaskOne, Masked, And;
    MaskOneRuns(l, lay.m, lay.v2 + k, lay.tmp + k);
    MaskedNext(m0, l.mem, lay, k);
  }

  lemma MaskOtherMasks(m0: seq<Bit>, l: Lane, lay: Layout, k: nat)
    requires k < lay.n && lay.Fits(|m0|) && |l.mem| == |m0| && Masked(m0, l.mem, lay, k)
    requires l.cells.t0 == Zero && l.cells.t3 == m0[lay.m]
    ensures Masked(m0, Run(l, MaskOther(lay.v2 + k, lay.tmp + k)).mem, lay, k + 1)
  {
    hide Run, MaskOther, Masked, And;
    MaskOtherRuns(l, lay.v2 + k, lay.tmp + k);
    MaskedNext(m0, l.mem, lay, k);
  }

  lemma MaskPairMasks(m0: seq<Bit>, l: Lane, lay: Layout, k: nat)
    requires k + 1 < lay.n && lay.Fits(|m0|) && |l.mem| == |m0| && Masked(m0, l.mem, lay, k)
    ensures Masked(m0, Run(l, MaskPair(lay.m, lay.v2 + k, lay.tmp + k)).mem, lay, k + 2)
  {
    hide Run, MaskOne, MaskOther, Masked;
    var l1 := Run(l, MaskOne(lay.m, lay.v2 + k, lay.tmp + k));
    RunThen(l, MaskOne(lay.m, lay.v2 + k, lay.tmp + k), MaskOther(lay.v2 + k + 1, lay.tmp + k + 1));
    MaskOneMasks(m0, l, lay, k);
    MaskOtherMasks(m0, l1, lay, k + 1);
  }

  lemma {:induction false} MaskPairsMask(l: Lane, lay: Layout, i: nat)
    requires 2 * i <= lay.n && lay.Fits(|l.mem|)
    ensures Masked(l.mem, Run(l, MaskPairs(lay, i)).mem, lay, 2 * i)
  {
    hide Run, MaskPair, And;
    if i == 0 {
      RunNop(l);
    } else {
      hide Masked, Layout.Fits;
      MaskPairsMask(l, lay, i - 1);
      var k := 2 * (i - 1);
      RunThen(l, MaskPairs(lay, i - 1), MaskPair(lay.m, lay.v2 + k, lay.tmp + k));
      MaskPairMasks(l.mem, Run(l, MaskPairs(lay, i - 1)), lay, k);
    }
  }

  lemma MaskMasks(l: Lane, lay: Layout, w: nat)
    requires w <= lay.n && lay.Fits(|l.mem|)
    ensures Masked(l.mem, Run(l, Mask(lay, w)).mem, lay, w)
  {
    hide Run, MaskPairs, MaskLast, Masked, And;
    MaskPairsMask(l, lay, w / 2);
    var l1 := Run(l, MaskPairs(lay, w / 2));
    if w % 2 == 0 {
      RunThen(l, MaskPairs(lay, w / 2), Nop);
      RunNop(l1);
    } else {
      RunThen(l, MaskPairs(lay, w / 2), MaskLast(lay.m, lay.v2 + w - 1, lay.tmp + w - 1));
      MaskLastRuns(l1, lay.m, lay.v2 + w - 1, lay.tmp + w - 1);
      MaskedNext(l.mem, l1.mem, lay, w - 1);
    }
  }

  lemma MaskedValue(m0: seq<Bit>, m1: seq<Bit>, lay: Layout, k: nat)
    requires k <= lay.n && lay.Fits(|m0|) && |m1| == |m0| && Masked(m0, m1, lay, k)
    ensures Value(m1, lay.tmp, k) == if m0[lay.m] == One then Value(m0, lay.v2, k) else 0
  {
    if m0[lay.m] == One {
      ValueCopy(m1, lay.tmp, m0, lay.v2, k);
    } else {
      ValueZero(m1, lay.tmp, k);
    }
  }

  // ----- One round

  /** Step 1: a bit of the dividend becomes the low bit of the partial remainder. */
  function Load(v: nat, r: nat): Program {
    Block2(AAP(T0, Row(v)), AAP(Row(r), T0))
  }

  lemma LoadSteps(l: Lane, v: nat, r: nat)
    requires v < |l.mem| && r < |l.mem|
    ensures Steps2(l, AAP(T0, Row(v)), AAP(Row(r), T0)) == Lane(l.cells.(t0 := l.mem[v]), l.mem[r := l.mem[v]])
  {
  }

  function Round(lay: Layout, j: nat): Program
    requires j < lay.n
  {
    Then(Then(Load(lay.v1 + j, lay.rest + j), Compare(lay, j)),
         Then(Then(Do(AAP(Row(lay.out + j), Row(lay.m))), Mask(lay, lay.n - j)),
              Subtraction(lay.rest + j, lay.tmp, lay.rest + j, lay.n - j)))
  }

  /** The five steps of a round, in order. */
  lemma RoundParts(l: Lane, lay: Layout, j: nat)
    requires j < lay.n
    ensures var r, w := lay.rest + j, lay.n - j;
            var l1 := Steps2(l, AAP(T0, Row(lay.v1 + j)), AAP(Row(r), T0));
            var l2 := Run(l1, Compare(lay, j));
            var l3 := Step(l2, AAP(Row(lay.out + j), Row(lay.m)));
            Run(l, Round(lay, j)) == Run(Run(l3, Mask(lay, w)), Subtraction(r, lay.tmp, r, w))
  {
    hide Run, Step, Steps2, Compare, Mask, Subtraction;
    var r, w := lay.rest + j, lay.n - j;
    var load, record, sub := Load(lay.v1 + j, r), Do(AAP(Row(lay.out + j), Row(lay.m))), Subtraction(r, lay.tmp, r, w);
    RunThen(l, Then(load, Compare(lay, j)), Then(Then(record, Mask(lay, w)), sub));
    RunThen(l, load, Compare(lay, j));
    RunBlock2(l, AAP(T0, Row(lay.v1 + j)), AAP(Row(r), T0));
    var l2 := Run(Run(l, load), Compare(lay, j));
    RunThen(l2, Then(record, Mask(lay, w)), sub);
    RunThen(l2, record, Mask(lay, w));
    RunDo(l2, AAP(Row(lay.out + j), Row(lay.m)));
  }

  /** The partial remainder once bit j has been brought in. */
  function Brought(m: seq<Bit>, lay: Layout, j: nat): nat
    requires j < lay.n && lay.v1 + lay.n <= |m| && lay.rest + lay.n <= |m|
  {
    Num(m[lay.v1 + j]) + 2 * Value(m, lay.rest + j + 1, lay.n - j - 1)
  }

  /** What a round leaves: the restored remainder, the quotient bit, and all rows it does not own. */
  ghost predicate RoundDone(m: seq<Bit>, m': seq<Bit>, lay: Layout, j: nat)
    requires j < lay.n && lay.Fits(|m|) && |m'| == |m|
  {
    var d, b := Brought(m, lay, j), Value(m, lay.v2, lay.n);
    && Value(m', lay.rest + j, lay.n - j) == (if d >= b then d - b else d)
    && m'[lay.out + j] == Truth(d >= b)
    && (forall i :: lay.m < i < |m| && i != lay.out + j ==> m'[i] == m[i])
  }

  /** Steps 1 to 3 on the memory alone. */
  function Decided(m: seq<Bit>, lay: Layout, j: nat): (m': seq<Bit>)
    requires j < lay.n && lay.Fits(|m|)
    ensures |m'| == |m|
  {
    var m1 := m[lay.rest + j := m[lay.v1 + j]];
    var q := Truth(Value(m1, lay.rest + j, lay.n - j) >= Value(m1, lay.v2, lay.n));
    m1[lay.m := q][lay.out + j := q]
  }

  lemma DecidedMeans(m: seq<Bit>, lay: Layout, j: nat)
    requires j < lay.n && lay.Fits(|m|)
    ensures var m' := Decided(m, lay, j);
            var d, b := Brought(m, lay, j), Value(m, lay.v2, lay.n);
            && Value(m', lay.rest + j, lay.n - j) == d < Pow2(lay.n - j)
            && Value(m', lay.v2, lay.n) == b
            && m'[lay.m] == m'[lay.out + j] == Truth(d >= b)
            && (forall i :: lay.m < i < |m| && i != lay.out + j ==> m'[i] == m[i])
  {
    hide Truth, Value, Pow2;
    var w, m' := lay.n - j, Decided(m, lay, j);
    var m1 := m[lay.rest + j := m[lay.v1 + j]];
    ValueFrame(m, m1, lay.rest + j + 1, w - 1);
    ValueFrame(m, m1, lay.v2, lay.n);
    ValueFrame(m, m', lay.v2, lay.n);
    ValueFrame(m1, m', lay.rest + j, w);
    ValueBound(m', lay.rest + j, w);
    ValueCons(m1, lay.rest + j, w);
  }

  /** Subtracting the masked divisor restores the remainder. */
  lemma RestoredValue(m3: seq<Bit>, m4: seq<Bit>, lay: Layout, j: nat, d: nat)
    requires j < lay.n && lay.Fits(|m3|) && |m4| == |m3|
    requires Masked(m3, m4, lay, lay.n - j)
    requires Value(m3, lay.rest + j, lay.n - j) == d < Pow2(lay.n - j)
    requires m3[lay.m] == Truth(d >= Value(m3, lay.v2, lay.n))
    ensures var a, b, t := Value(m4, lay.rest + j, lay.n - j), Value(m3, lay.v2, lay.n), Value(m4, lay.tmp, lay.n - j);
            a == d && t == (if d >= b then b else 0)
    ensures forall i :: lay.m < i < |m3| ==> m4[i] == m3[i]
  {
    var w := lay.n - j;
    ValueFrame(m3, m4, lay.rest + j, w);
    hide Value;
    MaskedValue(m3, m4, lay, w);
    LowRowsSuffice(m3, lay.v2, w, lay.n, d);
  }

  /** Steps 4 and 5 on the memory alone. */
  lemma RoundMemory(m0: seq<Bit>, m4: seq<Bit>, m5: seq<Bit>, lay: Layout, j: nat)
    requires j < lay.n && lay.Fits(|m0|) && |m5| == |m4| == |m0|
    requires Masked(Decided(m0, lay, j), m4, lay, lay.n - j)
    requires var a, b := Value(m4, lay.rest + j, lay.n - j), Value(m4, lay.tmp, lay.n - j);
             a >= b ==> Value(m5, lay.rest + j, lay.n - j) == a - b
    requires forall i :: 0 <= i < |m4| && !(lay.rest + j <= i < lay.rest + lay.n) ==> m5[i] == m4[i]
    ensures RoundDone(m0, m5, lay, j)
  {
    hide Decided, Brought, Value, Truth, Masked;
    DecidedMeans(m0, lay, j);
    RestoredValue(Decided(m0, lay, j), m4, lay, j, Brought(m0, lay, j));
  }

  /** A divisor that does not exceed a w-bit number has nothing above its low w rows. */
  lemma LowRowsSuffice(m: seq<Bit>, lo: nat, w: nat, n: nat, x: nat)
    requires w <= n && lo + n <= |m| && x < Pow2(w)
    ensures x >= Value(m, lo, n) ==> Value(m, lo, w) == Value(m, lo, n)
  {
    ValueSplit(m, lo, w, n);
    if Value(m, lo + w, n - w) > 0 {
      MulAtLeast(Pow2(w), Value(m, lo + w, n - w));
    }
  }

  /** One round of the program does one step of restoring division. */
  lemma RoundRuns(l: Lane, lay: Layout, j: nat)
    requires j < lay.n && lay.Fits(|l.mem|)
    ensures RoundDone(l.mem, Run(l, Round(lay, j)).mem, lay, j)
  {
    hide Run, Step, Steps2, Round, Compare, Mask, Subtraction, Value, Truth, Masked, RoundDone;
    var w, r := lay.n - j, lay.rest + j;
    RoundParts(l, lay, j);
    LoadSteps(l, lay.v1 + j, r);
    var l1 := Steps2(l, AAP(T0, Row(lay.v1 + j)), AAP(Row(r), T0));
    CompareDecides(l1, lay, j);
    var l2 := Run(l1, Compare(lay, j));
    WriteRow(l2, lay.out + j, Row(lay.m));
    var l3 := Step(l2, AAP(Row(lay.out + j), Row(lay.m)));
    assert l3.mem == Decided(l.mem, lay, j);
    MaskMasks(l3, lay, w);
    var l4 := Run(l3, Mask(lay, w));
    SubtractionSubtracts(l4, r, lay.tmp, r, w);
    RoundMemory(l.mem, l4.mem, Run(l4, Subtraction(r, lay.tmp, r, w)).mem, lay, j);
  }

  // ----- The whole division

  /** 16_divu: rounds from the top bit down; t rounds have been run. */
  function Rounds(lay: Layout, t: nat): Program
    requires t <= lay.n
  {
    if t == 0 then Nop else Then(Rounds(lay, t - 1), Round(lay, lay.n - t))
  }

  /** q and r divide a by b; for b zero the t quotient bits are all ones. */
  ghost predicate Quotient(a: nat, b: nat, q: nat, r: nat, t: nat) {
    && a == q * b + r
    && (b > 0 ==> r < b)
    && (b == 0 ==> q == Pow2(t) - 1)
  }

  /** Bringing in dividend bit x and restoring extends the quotient by one bit at the low end. */
  lemma QuotientStep(a: nat, b: nat, q: nat, r: nat, t: nat, x: Bit)
    requires Quotient(a, b, q, r, t)
    ensures var d := Num(x) + 2 * r;
            Quotient(Num(x) + 2 * a, b, Num(Truth(d >= b)) + 2 * q, if d >= b then d - b else d, t + 1)
  {
    MulDistributes(b, 1, 2 * q);
    MulDistributes(b, q, q);
  }

  /** The program's promise for a t-bit dividend: quotient and remainder; for b zero all ones and the dividend. */
  ghost predicate Divided(a: nat, b: nat, q: nat, r: nat, t: nat) {
    if b > 0 then q == a / b && r == a % b else q == Pow2(t) - 1 && r == a
  }

  lemma QuotientMeans(a: nat, b: nat, q: nat, r: nat, t: nat)
    requires Quotient(a, b, q, r, t)
    ensures Divided(a, b, q, r, t)
  {
    if b > 0 {
      DivModUnique(a, b, q, r);
    }
  }

  /**
    The loop invariant after t rounds, with j = n - t: quotient rows j.. and remainder rows j..
    divide the dividend rows j.. by the divisor, and the operands are untouched.
   */
  ghost predicate Dividing(m0: seq<Bit>, m: seq<Bit>, lay: Layout, t: nat)
    requires t <= lay.n && lay.Fits(|m0|) && |m| == |m0|
  {
    var j := lay.n - t;
    && Quotient(Value(m0, lay.v1 + j, t), Value(m0, lay.v2, lay.n),
                Value(m, lay.out + j, t), Value(m, lay.rest + j, t), t)
    && (forall i :: lay.m < i < |m0| && !(lay.out + j <= i < lay.out + lay.n) ==> m[i] == m0[i])
  }

  lemma DividingStep(m0: seq<Bit>, m: seq<Bit>, m': seq<Bit>, lay: Layout, t: nat)
    requires t < lay.n && lay.Fits(|m0|) && |m'| == |m| == |m0|
    requires Dividing(m0, m, lay, t)
    requires RoundDone(m, m', lay, lay.n - t - 1)
    ensures Dividing(m0, m', lay, t + 1)
  {
    hide Quotient, Value, Truth;
    var j := lay.n - t - 1;
    ValueFrame(m0, m, lay.v2, lay.n);
    ValueFrame(m, m', lay.out + j + 1, t);
    ValueCons(m0, lay.v1 + j, t + 1);
    ValueCons(m', lay.out + j, t + 1);
    QuotientStep(Value(m0, lay.v1 + j + 1, t), Value(m0, lay.v2, lay.n), Value(m, lay.out + j + 1, t),
                 Value(m, lay.rest + j + 1, t), t, m0[lay.v1 + j]);
  }

  lemma {:induction false} RoundsDivide(l: Lane, lay: Layout, t: nat)
    requires t <= lay.n && lay.Fits(|l.mem|)
    ensures Dividing(l.mem, Run(l, Rounds(lay, t)).mem, lay, t)
  {
    hide Run, Round, RoundDone;
    if t == 0 {
      RunNop(l);
    } else {
      hide Dividing;
      RoundsDivide(l, lay, t - 1);
      RunThen(l, Rounds(lay, t - 1), Round(lay, lay.n - t));
      var l1 := Run(l, Rounds(lay, t - 1));
      RoundRuns(l1, lay, lay.n - t);
      DividingStep(l.mem, l1.mem, Run(l1, Round(lay, lay.n - t)).mem, lay, t - 1);
    }
  }

  /** After the round for bit j, rows j.. of quotient and remainder are those of the dividend shifted right by j. */
  lemma RoundsDivideShifted(l: Lane, lay: Layout, j: nat)
    requires j <= lay.n && lay.Fits(|l.mem|)
    ensures var m' := Run(l, Rounds(lay, lay.n - j)).mem;
            Divided(Shr(Value(l.mem, lay.v1, lay.n), j), Value(l.mem, lay.v2, lay.n),
                    Value(m', lay.out + j, lay.n - j), Value(m', lay.rest + j, lay.n - j), lay.n - j)
  {
    hide Run, Rounds, Value, Quotient, Divided, Pow2, Shr;
    RoundsDivide(l, lay, lay.n - j);
    ValueShift(l.mem, lay.v1, j, lay.n);
    var m' := Run(l, Rounds(lay, lay.n - j)).mem;
    QuotientMeans(Value(l.mem, lay.v1 + j, lay.n - j), Value(l.mem, lay.v2, lay.n),
                  Value(m', lay.out + j, lay.n - j), Value(m', lay.rest + j, lay.n - j), lay.n - j);
  }

  function Division(lay: Layout): Program {
    Rounds(lay, lay.n)
  }

  /**
    From any contents of the cells, the scratch rows and the quotient rows, the program leaves
    quotient and remainder; dividing by zero leaves all ones and the dividend.
   */
  lemma DivisionDivides(l: Lane, lay: Layout)
    requires lay.Fits(|l.mem|)
    ensures var m' := Run(l, Division(lay)).mem;
            && Divided(Value(l.mem, lay.v1, lay.n), Value(l.mem, lay.v2, lay.n),
                       Value(m', lay.out, lay.n), Value(m', lay.rest, lay.n), lay.n)
            && (forall i :: lay.m < i < |m'| && !(lay.out <= i < lay.out + lay.n) ==> m'[i] == l.mem[i])
  {
    hide Run, Rounds, Value, Quotient, Divided;
    RoundsDivide(l, lay, lay.n);
    var m' := Run(l, Division(lay)).mem;
    QuotientMeans(Value(l.mem, lay.v1, lay.n), Value(l.mem, lay.v2, lay.n),
                  Value(m', lay.out, lay.n), Value(m', lay.rest, lay.n), lay.n);
  }

  // ----- The driver's loops

  lemma CompareBlocksIssuable(r: nat, b: nat, m: nat, n: nat)
    requires r < n && b < n && m < n
    ensures Issuable(CompareBit(r, b), n) && Issuable(CompareLast(b, m), n)
  {
    IssuableBlock3(AAP(T2, Row(r)), AAP(DCC0N, Row(b)), AP(DCC0_T1_T2), n);
    IssuableBlock3(AAP(T2, C0), AAP(DCC0N, Row(b)), AAP(Row(m), DCC0_T1_T2), n);
  }

  lemma ComparePairIssuable(b: nat, n: nat)
    requires b + 1 < n
    ensures Issuable(ComparePair(b), n)
  {
    IssuableBlock3(AAP(T2_T3, C0), AAP(DCC0N, Row(b)), AAP(T0, DCC0_T1_T2), n);
    IssuableBlock2(AAP(DCC1N, Row(b + 1)), AAP(T1, DCC1_T0_T3), n);
  }

  lemma MaskPairIssuable(m: nat, b: nat, t: nat, n: nat)
    requires m < n && b + 1 < n && t + 1 < n
    ensures Issuable(MaskPair(m, b, t), n)
  {
    IssuableBlock4(AAP(T0_T1_T2, C0), AAP(T2_T3, Row(m)), AAP(DCC0, Row(b)), AAP(Row(t), DCC0_T1_T2), n);
    IssuableBlock2(AAP(DCC1, Row(b + 1)), AAP(Row(t + 1), DCC1_T0_T3), n);
  }

  lemma MaskLastIssuable(m: nat, b: nat, t: nat, n: nat)
    requires m < n && b < n && t < n
    ensures Issuable(MaskLast(m, b, t), n)
  {
    IssuableBlock4(AAP(T0, C0), AAP(T1, Row(m)), AAP(T2, Row(b)), AAP(Row(t), T0_T1_T2), n);
  }

  method CompareRows(s: Subarray, lay: Layout, j: nat)
    requires j < lay.n && lay.Fits(|s.mem|)
    modifies s
    ensures s.State() == Run(old(s.State()), Compare(lay, j))
  {
    hide Step, CompareBit, ComparePair, CompareLast;
    ghost var start := s.State();
    var w := lay.n - j;
    s.Aap(T1, C1);
    ghost var l1 := s.State();
    for k := 0 to w
      invariant s.State() == Run(l1, CompareLow(lay.rest + j, lay.v2, k))
    {
      CompareBlocksIssuable(lay.rest + j + k, lay.v2 + k, lay.m, |s.mem|);
      s.Issue(CompareBit(lay.rest + j + k, lay.v2 + k));
    }
    ghost var l2 := s.State();
    var k := w;
    ghost var i := 0;
    while k < lay.n - 1
      invariant k == w + 2 * i && i <= j / 2
      invariant s.State() == Run(l2, CompareHigh(lay.v2 + w, i))
    {
      ComparePairIssuable(lay.v2 + k, |s.mem|);
      s.Issue(ComparePair(lay.v2 + k));
      k, i := k + 2, i + 1;
    }
    CompareBlocksIssuable(lay.rest, lay.v2 + lay.n - 1, lay.m, |s.mem|);
    ghost var l3 := s.State();
    if j % 2 == 1 {
      s.Issue(CompareLast(lay.v2 + lay.n - 1, lay.m));
    } else {
      s.Aap(Row(lay.m), T1);
      RunDo(l3, AAP(Row(lay.m), T1));
    }
    CompareParts(start, lay, j);
  }

  method MaskRows(s: Subarray, lay: Layout, w: nat)
    requires w <= lay.n && lay.Fits(|s.mem|)
    modifies s
    ensures s.State() == Run(old(s.State()), Mask(lay, w))
  {
    hide Step, MaskPair, MaskLast;
    ghost var start := s.State();
    var k := 0;
    ghost var i := 0;
    while k < w - 1
      invariant k == 2 * i && i <= w / 2
      invariant s.State() == Run(start, MaskPairs(lay, i))
    {
      MaskPairIssuable(lay.m, lay.v2 + k, lay.tmp + k, |s.mem|);
      s.Issue(MaskPair(lay.m, lay.v2 + k, lay.tmp + k));
      k, i := k + 2, i + 1;
    }
    if w % 2 == 1 {
      MaskLastIssuable(lay.m, lay.v2 + w - 1, lay.tmp + w - 1, |s.mem|);
      s.Issue(MaskLast(lay.m, lay.v2 + w - 1, lay.tmp + w - 1));
    }
  }

  method DivideVectors(s: Subarray, lay: Layout)
    requires lay.Fits(|s.mem|)
    modifies s
    ensures s.State() == Run(old(s.State()), Division(lay))
    ensures |s.mem| == |old(s.mem)|
    ensures Divided(old(Value(s.mem, lay.v1, lay.n)), old(Value(s.mem, lay.v2, lay.n)),
                    Value(s.mem, lay.out, lay.n), Value(s.mem, lay.rest, lay.n), lay.n)
    ensures forall i :: lay.m < i < |s.mem| && !(lay.out <= i < lay.out + lay.n) ==> s.mem[i] == old(s.mem[i])
  {
    hide Run, Step, Round, Compare, Mask, Subtraction, Divided;
    ghost var start := s.State();
    RunNop(start);
    for j := lay.n downto 0
      invariant s.State() == Run(start, Rounds(lay, lay.n - j))
    {
      RoundParts(s.State(), lay, j);
      s.Aap(T0, Row(lay.v1 + j));
      s.Aap(Row(lay.rest + j), T0);
      CompareRows(s, lay, j);
      s.Aap(Row(lay.out + j), Row(lay.m));
      MaskRows(s, lay, lay.n - j);
      SubtractVectors(s, lay.rest + j, lay.tmp, lay.rest + j, lay.n - j);
      RunThen(start, Rounds(lay, lay.n - j - 1), Round(lay, j));
    }
    DivisionDivides(start, lay);
  }
}
