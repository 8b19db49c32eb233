/** The recursive drivers of the bit counter, issuing commands as they go. */
module BitcountDriver {
  import opened Bits
  import opened Dram
  import opened Adder
  import opened Widths
  import opened Bitcount
  import opened BitcountValue

  lemma FusedStepIssuable(cin: Address, v1: nat, v2: Address, cout: nat, out: nat, n: nat)
    requires (cin.DCC1? || Operand(cin, n)) && v1 < n && Operand(v2, n) && cout < n && out < n
    ensures Issuable(FusedStep(cin, v1, v2, cout, out), n)
  {
    IssuableBlock4(AAP(T0_T1_T2, cin), AAP(T2_T3, Row(v1)), AAP(DCC1, v2), AAP(Row(cout), DCC1_T0_T3), n);
    IssuableBlock4(AAP(T0_T3, DCC1N), AP(T0_T1_T2), AAP(T1, v2), AAP(Row(out), T1_T2_T3), n);
  }

  method MergePlain(s: Subarray, c: nat, out: nat, b1: nat, b2: nat)
    requires MergeFits(|s.mem|, c, out, b1, b2)
    modifies s
    ensures s.State() == Run(old(s.State()), PlainMerge(c, out, b1, b2))
  {
    hide Step, AddStep;
    ghost var l0 := s.State();
    RunDo(l0, AAP(DCC1, Row(c)));
    s.Aap(DCC1, Row(c));
    ghost var l1 := s.State();
    for i := 0 to b1
      invariant s.State() == Run(l1, AddRounds(out, out + b1, b2, out, i))
    {
      var v2 := if i < b2 then Row(out + b1 + i) else C0;
      AddStepIssuable(DCC1, out + i, v2, out + i, |s.mem|);
      s.Issue(AddStep(DCC1, out + i, v2, out + i));
    }
    RunDo(s.State(), AAP(Row(out + b1), DCC1));
    s.Aap(Row(out + b1), DCC1);
    hide Run, AddRounds;
    ghost var body := AddRounds(out, out + b1, b2, out, b1);
    RunThen(l0, Then(Do(AAP(DCC1, Row(c))), body), Do(AAP(Row(out + b1), DCC1)));
    RunThen(l0, Do(AAP(DCC1, Row(c))), body);
  }

  method MergeFused(s: Subarray, c: nat, out: nat, b1: nat, b2: nat)
    requires MergeFits(|s.mem|, c, out, b1, b2)
    modifies s
    ensures s.State() == Run(old(s.State()), FusedMerge(c, out, b1, b2, b1))
  {
    hide Step, AddStep, FusedStep;
    ghost var start := s.State();
    var cin := Row(c);
    for i := 0 to b1
      invariant cin == if i == 0 then Row(c) else DCC1
      invariant s.State() == Run(start, FusedMerge(c, out, b1, b2, i))
    {
      var v2 := if i < b2 then Row(out + b1 + i) else C0;
      AddStepIssuable(cin, out + i, v2, out + i, |s.mem|);
      FusedStepIssuable(cin, out + i, v2, out + b1, out + i, |s.mem|);
      if i < b1 - 1 {
        s.Issue(AddStep(cin, out + i, v2, out + i));
      } else {
        s.Issue(FusedStep(cin, out + i, v2, out + b1, out + i));
      }
      cin := DCC1;
    }
  }

  /** bitcount, in both forms: the returned width and the rows below it are the count of the visited rows. */
  method CountBits(s: Subarray, fused: bool, inp: nat, size: nat, out: nat) returns (width: nat)
    requires size < Pow2(31) && CountFits(|s.mem|, inp, size, out)
    modifies s
    ensures s.State() == Run(old(s.State()), Counting(fused, inp, size, out))
    ensures width == Width(size)
    ensures Counted(old(s.mem), s.mem, out, width, NecessarySpace(size), CountAt(old(s.mem), Visited(inp, size)))
    decreases size
  {
    hide Step, FloorLog2, Foo, Pow2, Returned, NecessarySpace, FusedStep, Merge, Counted, CountAt, Visited;
    ghost var start := s.State();
    if size == 0 {
      width := 0;
      SmallLogs();
    } else if size == 1 {
      SmallLogs();
      CountFitsSmall(|s.mem|, inp, size, out);
      RunDo(start, AAP(Row(out), Row(inp)));
      s.Aap(Row(out), Row(inp));
      width := 1;
    } else if size <= 3 {
      SmallLogs();
      CountFitsSmall(|s.mem|, inp, size, out);
      var v3 := if size == 2 then C0 else Row(inp + 2);
      FusedStepIssuable(Row(inp), inp + 1, v3, out + 1, out, |s.mem|);
      s.Issue(FusedStep(Row(inp), inp + 1, v3, out + 1, out));
      width := 2;
    } else {
      BlocksFit(|s.mem|, inp, size, out);
      CountingParts(start, fused, inp, size, out);
      hide Counting;
      var left := Left(size);
      var right := size - left - 1;
      var b1 := CountBits(s, fused, inp, left, out);
      var b2 := CountBits(s, fused, inp + left, right, out + b1);
      MergeCounted(s, fused, inp + left, out, b1, b2);
      width := 1 + b1;
    }
    FusedAgreesWithPlain(start, inp, size, out);
    CountingCounts(start, inp, size, out);
  }

  lemma CountFitsSmall(rows: nat, inp: nat, size: nat, out: nat)
    requires 1 <= size <= 3 && CountFits(rows, inp, size, out)
    ensures inp + size <= rows && out < rows && (size >= 2 ==> out + 1 < rows)
  {
    hide FloorLog2, Foo;
  }

  method MergeCounted(s: Subarray, fused: bool, c: nat, out: nat, b1: nat, b2: nat)
    requires MergeFits(|s.mem|, c, out, b1, b2)
    modifies s
    ensures s.State() == Run(old(s.State()), Merge(fused, c, out, b1, b2))
  {
    if fused {
      MergeFused(s, c, out, b1, b2);
    } else {
      MergePlain(s, c, out, b1, b2);
    }
  }
}
