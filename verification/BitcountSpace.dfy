/** The space calculator is exact: it names the number of output rows the counter really touches. */
module BitcountSpace {
  import opened Bits
  import opened Dram
  import opened Adder
  import opened Widths
  import opened Bitcount

  lemma AddStepTouches(cin: Address, v1: nat, v2: Address, out: nat, r: nat)
    ensures Touches(AddStep(cin, v1, v2, out), r) <==> r == v1 || r == out || cin == Row(r) || v2 == Row(r)
  {
    TouchesBlock4(AAP(T0_T1_T2, cin), AAP(T2_T3, Row(v1)), AAP(DCC1, v2), AP(DCC1_T0_T3), r);
    TouchesBlock4(AAP(T0_T3, DCC1N), AP(T0_T1_T2), AAP(T1, v2), AAP(Row(out), T1_T2_T3), r);
    hide Block4;
  }

  lemma FusedStepTouches(cin: Address, v1: nat, v2: Address, cout: nat, out: nat, r: nat)
    ensures Touches(FusedStep(cin, v1, v2, cout, out), r)
            <==> r == v1 || r == out || r == cout || cin == Row(r) || v2 == Row(r)
  {
    TouchesBlock4(AAP(T0_T1_T2, cin), AAP(T2_T3, Row(v1)), AAP(DCC1, v2), AAP(Row(cout), DCC1_T0_T3), r);
    TouchesBlock4(AAP(T0_T3, DCC1N), AP(T0_T1_T2), AAP(T1, v2), AAP(Row(out), T1_T2_T3), r);
    hide Block4;
  }

  lemma {:induction false} AddRoundsTouches(out: nat, v2: nat, m: nat, k: nat, r: nat)
    ensures Touches(AddRounds(out, v2, m, out, k), r)
            <==> out <= r < out + k || v2 <= r < v2 + (if k < m then k else m)
  {
    hide AddStep;
    if k > 0 {
      AddRoundsTouches(out, v2, m, k - 1, r);
      AddStepTouches(DCC1, out + k - 1, Padded(v2, m, k - 1), out + k - 1, r);
    }
  }

  lemma {:induction false} FusedMergeTouches(c: nat, out: nat, b1: nat, b2: nat, k: nat, r: nat)
    requires b2 <= b1 && 1 <= k <= b1
    ensures Touches(FusedMerge(c, out, b1, b2, k), r)
            <==> r == c || out <= r < out + k || out + b1 <= r < out + b1 + (if k < b2 then k else b2)
                 || (k == b1 && r == out + b1)
  {
    hide AddStep, FusedStep;
    var i := k - 1;
    var cin, v2 := if i == 0 then Row(c) else DCC1, Padded(out + b1, b2, i);
    AddStepTouches(cin, out + i, v2, out + i, r);
    FusedStepTouches(cin, out + i, v2, out + b1, out + i, r);
    if k > 1 {
      FusedMergeTouches(c, out, b1, b2, i, r);
    }
  }

  /** Both merges touch the extra input row, the rows of both counts and the carry row, and nothing else. */
  lemma MergeTouches(fused: bool, c: nat, out: nat, b1: nat, b2: nat, r: nat)
    requires b2 <= b1 && 1 <= b1
    ensures Touches(Merge(fused, c, out, b1, b2), r)
            <==> r == c || out <= r <= out + b1 || out + b1 <= r < out + b1 + b2
  {
    hide AddStep, FusedStep;
    if fused {
      FusedMergeTouches(c, out, b1, b2, b1, r);
    } else {
      AddRoundsTouches(out, out + b1, b2, b1, r);
      hide AddRounds;
      var body := AddRounds(out, out + b1, b2, out, b1);
      assert Touches(Then(Do(AAP(DCC1, Row(c))), body), r) <==> r == c || Touches(body, r);
    }
  }

  lemma CountingTouches(fused: bool, inp: nat, size: nat, out: nat, r: nat)
    requires 4 <= size < Pow2(31)
    ensures var left, right := Left(size), Right(size);
            var b1, b2 := Returned(left), Returned(right);
            Touches(Counting(fused, inp, size, out), r)
            <==> || Touches(Counting(fused, inp, left, out), r)
                 || Touches(Counting(fused, inp + left, right, out + b1), r)
                 || Touches(Merge(fused, inp + left, out, b1, b2), r)
  {
    hide Merge, Returned, Foo, FloorLog2, Pow2;
    var left, right := Left(size), Right(size);
    var b1, b2 := Returned(left), Returned(right);
    var p, q := Counting(fused, inp, left, out), Counting(fused, inp + left, right, out + b1);
    assert Touches(Then(p, q), r) <==> Touches(p, r) || Touches(q, r);
  }

  lemma SmallTouches(fused: bool, inp: nat, size: nat, out: nat, r: nat)
    requires size <= 3
    ensures Touches(Counting(fused, inp, size, out), r)
            <==> inp <= r < inp + size || out <= r < out + NecessarySpace(size)
  {
    hide FusedStep, Merge, FloorLog2, Foo;
    if size >= 2 {
      FusedStepTouches(Row(inp), inp + 1, if size == 2 then C0 else Row(inp + 2), out + 1, out, r);
    }
  }

  /** The counter stays below NecessarySpace(size) output rows and uses no input row outside its block. */
  lemma {:induction false} StaysWithinSpace(fused: bool, inp: nat, size: nat, out: nat, r: nat)
    requires size < Pow2(31) && Touches(Counting(fused, inp, size, out), r)
    ensures inp <= r < inp + size || out <= r < out + NecessarySpace(size)
    decreases size
  {
    hide Counting, Merge, FloorLog2, Foo, Pow2, Returned;
    if size <= 3 {
      SmallTouches(fused, inp, size, out, r);
    } else {
      SplitSizes(size);
      var left, right := Left(size), Right(size);
      var b1, b2 := Returned(left), Returned(right);
      CountingTouches(fused, inp, size, out, r);
      MergeTouches(fused, inp + left, out, b1, b2, r);
      SpaceCoversWidth(right);
      if Touches(Counting(fused, inp, left, out), r) {
        StaysWithinSpace(fused, inp, left, out, r);
      } else if Touches(Counting(fused, inp + left, right, out + b1), r) {
        StaysWithinSpace(fused, inp + left, right, out + b1, r);
      }
    }
  }

  /** The last of those rows is touched, so no smaller allocation would do. */
  lemma {:induction false} SpaceIsNeeded(fused: bool, inp: nat, size: nat, out: nat)
    requires 1 <= size < Pow2(31)
    ensures Touches(Counting(fused, inp, size, out), out + NecessarySpace(size) - 1)
    decreases size
  {
    hide Counting, Merge, FloorLog2, Foo, Pow2, Returned;
    var r := out + NecessarySpace(size) - 1;
    if size <= 3 {
      SmallTouches(fused, inp, size, out, r);
    } else {
      SplitSizes(size);
      var left, right := Left(size), Right(size);
      var b1, b2 := Returned(left), Returned(right);
      CountingTouches(fused, inp, size, out, r);
      MergeTouches(fused, inp + left, out, b1, b2, r);
      if NecessarySpace(size) == NecessarySpace(left) {
        SpaceIsNeeded(fused, inp, left, out);
      } else if NecessarySpace(size) != b1 + 1 {
        SpaceIsNeeded(fused, inp + left, right, out + b1);
      }
    }
  }
}
