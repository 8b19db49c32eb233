/**
  The divide-and-conquer bit counter, in its plain form and in the form that
  fuses the carry in and the carry out into the adder steps.
 */
module Bitcount {
  import opened Bits
  import opened Dram
  import opened Adder
  import opened Widths

  // ----- An adder step that also stores its carry

  function FusedStep(cin: Address, v1: nat, v2: Address, cout: nat, out: nat): Program {
    Block8(AAP(T0_T1_T2, cin), AAP(T2_T3, Row(v1)), AAP(DCC1, v2), AAP(Row(cout), DCC1_T0_T3),
           AAP(T0_T3, DCC1N), AP(T0_T1_T2), AAP(T1, v2), AAP(Row(out), T1_T2_T3))
  }

  lemma FusedStepFirst(l: Lane, cin: Address, v1: nat, v2: Address, cout: nat)
    requires (cin.DCC1? || Operand(cin, |l.mem|)) && v1 < |l.mem| && Operand(v2, |l.mem|) && cout < |l.mem|
    ensures var a, b, c := l.mem[v1], Sense(l, v2), Sense(l, cin);
            var s := Maj(b, c, a);
            Steps4(l, AAP(T0_T1_T2, cin), AAP(T2_T3, Row(v1)), AAP(DCC1, v2), AAP(Row(cout), DCC1_T0_T3))
            == Lane(Cells(s, c, a, s, l.cells.dcc0, s), l.mem[cout := s])
  {
    hide Maj, Not;
  }

  /** Storing the carry inside the step is the same as storing it afterwards, if the step uses other rows. */
  lemma FusedStepRuns(l: Lane, cin: Address, v1: nat, v2: Address, cout: nat, out: nat)
    requires (cin.DCC1? || Operand(cin, |l.mem|)) && v1 < |l.mem| && Operand(v2, |l.mem|)
    requires cout < |l.mem| && out < |l.mem| && cout != out && v2 != Row(cout)
    ensures var l' := AfterAdd(l, l.mem[v1], Sense(l, v2), Sense(l, cin), out);
            Run(l, FusedStep(cin, v1, v2, cout, out)) == Lane(l'.cells, l'.mem[cout := l'.cells.dcc1])
  {
    hide Run, Steps4, Step, Maj, Not;
    RunBlock8(l, AAP(T0_T1_T2, cin), AAP(T2_T3, Row(v1)), AAP(DCC1, v2), AAP(Row(cout), DCC1_T0_T3),
              AAP(T0_T3, DCC1N), AP(T0_T1_T2), AAP(T1, v2), AAP(Row(out), T1_T2_T3));
    FusedStepFirst(l, cin, v1, v2, cout);
    var l4 := Steps4(l, AAP(T0_T1_T2, cin), AAP(T2_T3, Row(v1)), AAP(DCC1, v2), AAP(Row(cout), DCC1_T0_T3));
    AddStepSecond(l4, v2, out);
    assert Sense(l4, v2) == Sense(l, v2);
    var l' := AfterAdd(l, l.mem[v1], Sense(l, v2), Sense(l, cin), out);
    assert l4.mem[out := l'.cells.t1] == l'.mem[cout := l'.cells.dcc1];
  }

  // ----- Merging two counts and one more bit

  /** Copy the extra bit to DCC1, ripple, store the carry above the sum. */
  function PlainMerge(c: nat, out: nat, b1: nat, b2: nat): Program {
    Then(Then(Do(AAP(DCC1, Row(c))), AddRounds(out, out + b1, b2, out, b1)), Do(AAP(Row(out + b1), DCC1)))
  }

  /** The extra bit enters the first step directly and the last step stores its own carry. */
  function FusedRound(c: nat, out: nat, b1: nat, b2: nat, i: nat): Program {
    var cin, v2 := if i == 0 then Row(c) else DCC1, Padded(out + b1, b2, i);
    if i < b1 - 1 then AddStep(cin, out + i, v2, out + i) else FusedStep(cin, out + i, v2, out + b1, out + i)
  }

  function FusedMerge(c: nat, out: nat, b1: nat, b2: nat, k: nat): Program {
    if k == 0 then Nop else Then(FusedMerge(c, out, b1, b2, k - 1), FusedRound(c, out, b1, b2, k - 1))
  }

  predicate MergeFits(size: nat, c: nat, out: nat, b1: nat, b2: nat) {
    2 <= b1 && b2 <= b1 && c < size && out + b1 < size && out + b1 + b2 <= size
  }

  /** The lane with the extra bit already in DCC1. */
  function Primed(l: Lane, c: nat): Lane
    requires c < |l.mem|
  {
    Lane(l.cells.(dcc1 := l.mem[c]), l.mem)
  }

  lemma PlainMergeParts(l: Lane, c: nat, out: nat, b1: nat, b2: nat)
    requires MergeFits(|l.mem|, c, out, b1, b2)
    ensures var l1 := Run(Primed(l, c), AddRounds(out, out + b1, b2, out, b1));
            Run(l, PlainMerge(c, out, b1, b2)) == Lane(l1.cells, l1.mem[out + b1 := l1.cells.dcc1])
  {
    hide Run, AddRounds;
    var body := AddRounds(out, out + b1, b2, out, b1);
    var l0 := Step(l, AAP(DCC1, Row(c)));
    assert l0 == Primed(l, c);
    RunThen(l, Then(Do(AAP(DCC1, Row(c))), body), Do(AAP(Row(out + b1), DCC1)));
    RunThen(l, Do(AAP(DCC1, Row(c))), body);
    RunDo(l, AAP(DCC1, Row(c)));
    RunDo(Run(l0, body), AAP(Row(out + b1), DCC1));
  }

  /** Before the last step the fused ripple is in the very state of the plain one. */
  lemma {:induction false} FusedMergeFollows(l: Lane, c: nat, out: nat, b1: nat, b2: nat, k: nat)
    requires MergeFits(|l.mem|, c, out, b1, b2) && 1 <= k < b1
    ensures Run(l, FusedMerge(c, out, b1, b2, k)) == Run(Primed(l, c), AddRounds(out, out + b1, b2, out, k))
  {
    hide Run, AddStep, AfterAdd, Sense;
    var i, l0 := k - 1, Primed(l, c);
    var v2 := Padded(out + b1, b2, i);
    RunThen(l, FusedMerge(c, out, b1, b2, i), FusedRound(c, out, b1, b2, i));
    RunThen(l0, AddRounds(out, out + b1, b2, out, i), AddStep(DCC1, out + i, v2, out + i));
    if i == 0 {
      RunNop(l);
      RunNop(l0);
      AddStepRuns(l, Row(c), out, v2, out);
      AddStepRuns(l0, DCC1, out, v2, out);
      PrimedAlike(l, c, v2, out);
    } else {
      FusedMergeFollows(l, c, out, b1, b2, i);
    }
  }

  lemma PrimedAlike(l: Lane, c: nat, v2: Address, out: nat)
    requires c < |l.mem| && out < |l.mem| && Operand(v2, |l.mem|)
    ensures var l0 := Primed(l, c);
            AfterAdd(l0, l0.mem[out], Sense(l0, v2), Sense(l0, DCC1), out)
            == AfterAdd(l, l.mem[out], Sense(l, v2), Sense(l, Row(c)), out)
  {
  }

  /**
    The fused merge leaves the lane exactly as the plain one.  The carry row out+b1 is also row 0
    of the right count; it is overwritten in the last step, which reads row b1-1 of the right
    count, and b1 is at least 2.
   */
  lemma FusedMergeAgrees(l: Lane, c: nat, out: nat, b1: nat, b2: nat)
    requires MergeFits(|l.mem|, c, out, b1, b2)
    ensures Run(l, FusedMerge(c, out, b1, b2, b1)) == Run(l, PlainMerge(c, out, b1, b2))
  {
    hide Run, AddStep, FusedStep, AfterAdd, Sense;
    var i, l0 := b1 - 1, Primed(l, c);
    var v2 := Padded(out + b1, b2, i);
    FusedMergeFollows(l, c, out, b1, b2, i);
    RunThen(l, FusedMerge(c, out, b1, b2, i), FusedRound(c, out, b1, b2, i));
    var l1 := Run(l0, AddRounds(out, out + b1, b2, out, i));
    FusedStepRuns(l1, DCC1, out + i, v2, out + b1, out + i);
    AddStepRuns(l1, DCC1, out + i, v2, out + i);
    RunThen(l0, AddRounds(out, out + b1, b2, out, i), AddStep(DCC1, out + i, v2, out + i));
    PlainMergeParts(l, c, out, b1, b2);
  }

  // ----- The counter

  /** The value bitcount returns. */
  function Returned(size: nat): (r: nat)
    requires size < Pow2(31)
    ensures r == Width(size)
  {
    if size <= 2 then
      SmallLogs();
      size
    else if size == 3 then
      SmallLogs();
      2
    else
      SplitSizes(size);
      1 + Returned(Left(size))
  }

  function Merge(fused: bool, c: nat, out: nat, b1: nat, b2: nat): Program {
    if fused then FusedMerge(c, out, b1, b2, b1) else PlainMerge(c, out, b1, b2)
  }

  /** Two or three rows are counted by a single adder step. */
  function SmallCount(inp: nat, size: nat, out: nat): Program {
    FusedStep(Row(inp), inp + 1, if size == 2 then C0 else Row(inp + 2), out + 1, out)
  }

  function Counting(fused: bool, inp: nat, size: nat, out: nat): Program
    requires size < Pow2(31)
    decreases size
  {
    if size == 0 then Nop
    else if size == 1 then Do(AAP(Row(out), Row(inp)))
    else if size <= 3 then SmallCount(inp, size, out)
    else
      var left, right := Left(size), Right(size);
      var b1, b2 := Returned(left), Returned(right);
      Then(Then(Counting(fused, inp, left, out), Counting(fused, inp + left, right, out + b1)),
           Merge(fused, inp + left, out, b1, b2))
  }

  lemma CountingParts(l: Lane, fused: bool, inp: nat, size: nat, out: nat)
    requires 4 <= size < Pow2(31)
    ensures var left, right := Left(size), Right(size);
            var b1, b2 := Returned(left), Returned(right);
            Run(l, Counting(fused, inp, size, out))
            == Run(Run(Run(l, Counting(fused, inp, left, out)), Counting(fused, inp + left, right, out + b1)),
                   Merge(fused, inp + left, out, b1, b2))
  {
    hide Run, Merge, Returned, Foo, FloorLog2, Pow2;
    SplitSizes(size);
    var left, right := Left(size), Right(size);
    var b1, b2 := Returned(left), Returned(right);
    RunThen(l, Then(Counting(fused, inp, left, out), Counting(fused, inp + left, right, out + b1)),
            Merge(fused, inp + left, out, b1, b2));
    RunThen(l, Counting(fused, inp, left, out), Counting(fused, inp + left, right, out + b1));
  }

  /** Where a counter may run: size input rows, NecessarySpace(size) output rows, no overlap. */
  predicate CountFits(rows: nat, inp: nat, size: nat, out: nat)
    requires size < Pow2(31)
  {
    inp + size <= rows && out + NecessarySpace(size) <= rows && Apart(inp, size, out, NecessarySpace(size))
  }

  /** The blocks of a counter fit where the counter fits, and so does the merge. */
  lemma BlocksFit(rows: nat, inp: nat, size: nat, out: nat)
    requires 4 <= size < Pow2(31) && CountFits(rows, inp, size, out)
    ensures 3 <= Left(size) && FloorLog2(size) == Width(Left(size)) >= 2
    ensures var left, right := Left(size), Right(size);
            var b1, b2 := Returned(left), Returned(right);
            && CountFits(rows, inp, left, out) && CountFits(rows, inp + left, right, out + b1)
            && MergeFits(rows, inp + left, out, b1, b2)
            && NecessarySpace(left) <= NecessarySpace(size) && b1 + NecessarySpace(right) <= NecessarySpace(size)
            && b1 + 1 == Returned(size) <= NecessarySpace(size)
            && inp + size <= rows && out + NecessarySpace(size) <= rows
            && Apart(inp, size, out, NecessarySpace(left)) && Apart(inp, size, out + b1, NecessarySpace(right))
  {
    hide Returned, FloorLog2, Foo, Pow2;
    SplitSizes(size);
    SpaceCoversWidth(Right(size));
  }

  // ----- Refinement

  /** For every size the fused counter leaves the lane, cells included, exactly as the plain counter does. */
  lemma {:induction false} FusedAgreesWithPlain(l: Lane, inp: nat, size: nat, out: nat)
    requires size < Pow2(31) && CountFits(|l.mem|, inp, size, out)
    ensures Run(l, Counting(true, inp, size, out)) == Run(l, Counting(false, inp, size, out))
    decreases size
  {
    hide Run, Returned, Left, Right, FusedMerge, PlainMerge, CountFits, FloorLog2, Pow2, SmallCount;
    if size >= 4 {
      hide Counting;
      BlocksFit(|l.mem|, inp, size, out);
      CountingParts(l, true, inp, size, out);
      CountingParts(l, false, inp, size, out);
      var left, right := Left(size), Right(size);
      var b1, b2 := Returned(left), Returned(right);
      FusedAgreesWithPlain(l, inp, left, out);
      var l1 := Run(l, Counting(false, inp, left, out));
      FusedAgreesWithPlain(l1, inp + left, right, out + b1);
      FusedMergeAgrees(Run(l1, Counting(false, inp + left, right, out + b1)), inp + left, out, b1, b2);
    }
  }
}
