/** What the bit counter counts: the rows it visits, and when those are all of them. */
module BitcountValue {
  import opened Bits
  import opened Dram
  import opened Adder
  import opened Widths
  import opened Bitcount

  function At(m: seq<Bit>, r: nat): Bit {
    if r < |m| then m[r] else Zero
  }

  /** The number of ones among the listed rows, repetitions included. */
  function CountAt(m: seq<Bit>, rows: seq<nat>): nat {
    if rows == [] then 0 else Num(At(m, rows[0])) + CountAt(m, rows[1..])
  }

  lemma {:induction false} CountConcat(m: seq<Bit>, a: seq<nat>, b: seq<nat>)
    ensures CountAt(m, a + b) == CountAt(m, a) + CountAt(m, b)
  {
    if a == [] {
      assert a + b == b;
    } else {
      assert (a + b)[1..] == a[1..] + b;
      CountConcat(m, a[1..], b);
    }
  }

  lemma {:induction false} CountFrame(m: seq<Bit>, m': seq<Bit>, rows: seq<nat>)
    requires forall r :: r in rows ==> At(m, r) == At(m', r)
    ensures CountAt(m, rows) == CountAt(m', rows)
  {
    if rows != [] {
      assert rows[0] in rows;
      CountFrame(m, m', rows[1..]);
    }
  }

  /** The rows a counter adds up: left block, right block, then the row just after the left block. */
  function Visited(inp: nat, size: nat): seq<nat>
    requires size < Pow2(31)
    decreases size
  {
    if size == 0 then []
    else if size == 1 then [inp]
    else if size == 2 then [inp, inp + 1]
    else if size == 3 then [inp, inp + 1, inp + 2]
    else
      Visited(inp, Left(size)) + Visited(inp + Left(size), Right(size)) + [inp + Left(size)]
  }

  /** Exactly size visits, all of them to input rows. */
  lemma {:induction false} VisitedRows(inp: nat, size: nat)
    requires size < Pow2(31)
    ensures |Visited(inp, size)| == size
    ensures forall r :: r in Visited(inp, size) ==> inp <= r < inp + size
    decreases size
  {
    hide Foo, FloorLog2, Pow2;
    if size >= 4 {
      SplitSizes(size);
      VisitedRows(inp, Left(size));
      VisitedRows(inp + Left(size), Right(size));
    }
  }

  lemma CountVisited(m: seq<Bit>, inp: nat, size: nat)
    requires 4 <= size < Pow2(31)
    ensures CountAt(m, Visited(inp, size))
            == CountAt(m, Visited(inp, Left(size))) + CountAt(m, Visited(inp + Left(size), Right(size)))
               + Num(At(m, inp + Left(size)))
  {
    hide Foo, FloorLog2, Pow2;
    SplitSizes(size);
    var a, b := Visited(inp, Left(size)), Visited(inp + Left(size), Right(size));
    CountConcat(m, a + b, [inp + Left(size)]);
    CountConcat(m, a, b);
    assert CountAt(m, [inp + Left(size)]) == Num(At(m, inp + Left(size))) + CountAt(m, []);
  }

  /** A count of the given width has been finished, and only the counter's own output rows have changed. */
  ghost predicate Counted(m: seq<Bit>, m': seq<Bit>, out: nat, width: nat, space: nat, total: nat) {
    && |m'| == |m| && width <= space && out + space <= |m|
    && Value(m', out, width) == total
    && (forall i :: 0 <= i < |m| && !(out <= i < out + space) ==> m'[i] == m[i])
  }

  /** Merging on memories: m is before both blocks, m1 after the left, m2 after the right, m3 after the ripple. */
  lemma MergeMemory(m: seq<Bit>, m1: seq<Bit>, m2: seq<Bit>, m3: seq<Bit>, extra: Bit, carry: Bit,
                    out: nat, b1: nat, b2: nat, space1: nat, space2: nat, space: nat, x: nat, y: nat)
    requires Counted(m, m1, out, b1, space1, x) && Counted(m1, m2, out + b1, b2, space2, y)
    requires space1 <= space && b1 + space2 <= space && b1 + 1 <= space && out + space <= |m| && b2 <= b1
    requires |m3| == |m2| && RippleDone(m2, extra, m3, carry, out, out + b1, b2, out, b1)
    ensures Counted(m, m3[out + b1 := carry], out, b1 + 1, space, x + y + Num(extra))
  {
    ValueFrame(m1, m2, out, b1);
    ValueFrame(m3, m3[out + b1 := carry], out, b1);
  }

  lemma OneCounts(l: Lane, inp: nat, out: nat)
    requires inp < |l.mem| && out < |l.mem|
    ensures Counted(l.mem, Run(l, Counting(false, inp, 1, out)).mem, out, 1, 1, CountAt(l.mem, Visited(inp, 1)))
  {
    hide Run;
    RunDo(l, AAP(Row(out), Row(inp)));
    var m' := Step(l, AAP(Row(out), Row(inp))).mem;
    assert m' == l.mem[out := l.mem[inp]];
    hide Step;
    assert Value(m', out, 1) == Num(m'[out]);
    assert CountAt(l.mem, [inp]) == Num(l.mem[inp]);
  }

  lemma FewMemory(m: seq<Bit>, a: Bit, b: Bit, c: Bit, out: nat)
    requires out + 2 <= |m|
    ensures var s := Maj(b, c, a);
            var y := Maj(b, Maj(Not(s), c, a), Not(s));
            Counted(m, m[out := y][out + 1 := s], out, 2, 2, Num(a) + Num(b) + Num(c))
  {
    MajSum(a, b, c);
    hide Maj, Not, Sum3;
    var s := Maj(b, c, a);
    var m' := m[out := Sum3(a, b, c)][out + 1 := s];
    assert Value(m', out, 1) == Num(m'[out]);
  }

  lemma FewCounts(l: Lane, inp: nat, size: nat, out: nat)
    requires 2 <= size <= 3 && inp + size <= |l.mem| && out + 2 <= |l.mem| && Apart(inp, size, out, 2)
    ensures Counted(l.mem, Run(l, Counting(false, inp, size, out)).mem, out, 2, 2, CountAt(l.mem, Visited(inp, size)))
  {
    hide Run, FusedStep, Maj, Not, CountAt, Visited, Value, Counted;
    var v2 := if size == 2 then C0 else Row(inp + 2);
    FusedStepRuns(l, Row(inp), inp + 1, v2, out + 1, out);
    FewMemory(l.mem, l.mem[inp + 1], Sense(l, v2), l.mem[inp], out);
    FewVisited(l.mem, inp, size);
  }

  lemma FewVisited(m: seq<Bit>, inp: nat, size: nat)
    requires 2 <= size <= 3
    ensures CountAt(m, Visited(inp, size))
            == Num(At(m, inp)) + Num(At(m, inp + 1)) + if size == 3 then Num(At(m, inp + 2)) else 0
  {
    assert Visited(inp, 2) == [inp, inp + 1] && Visited(inp, 3) == [inp, inp + 1, inp + 2];
    assert CountAt(m, [inp + 2]) == Num(At(m, inp + 2));
    assert [inp, inp + 1, inp + 2][1..] == [inp + 1, inp + 2] && [inp + 1, inp + 2][1..] == [inp + 2];
    assert CountAt(m, [inp + 1]) == Num(At(m, inp + 1));
    assert [inp, inp + 1][1..] == [inp + 1];
  }

  lemma NoneCounts(l: Lane, inp: nat, out: nat)
    requires out <= |l.mem|
    ensures Counted(l.mem, Run(l, Counting(false, inp, 0, out)).mem, out, 0, 0, CountAt(l.mem, Visited(inp, 0)))
  {
    hide Run;
    RunNop(l);
  }

  lemma SmallCounts(l: Lane, inp: nat, size: nat, out: nat)
    requires size <= 3 && CountFits(|l.mem|, inp, size, out)
    ensures Counted(l.mem, Run(l, Counting(false, inp, size, out)).mem, out, Returned(size), NecessarySpace(size),
                    CountAt(l.mem, Visited(inp, size)))
  {
    hide Run, Counting, CountAt, Visited, FloorLog2, Counted;
    SmallLogs();
    if size == 0 {
      NoneCounts(l, inp, out);
    } else if size == 1 {
      OneCounts(l, inp, out);
    } else {
      FewCounts(l, inp, size, out);
    }
  }

  /** Rows apart from a counter's output rows keep their bits and so their count. */
  lemma CountKept(m: seq<Bit>, m': seq<Bit>, out: nat, width: nat, space: nat, total: nat,
                  inp: nat, size: nat, rows: seq<nat>)
    requires Counted(m, m', out, width, space, total)
    requires inp + size <= |m| && Apart(inp, size, out, space)
    requires forall r :: r in rows ==> inp <= r < inp + size
    ensures CountAt(m', rows) == CountAt(m, rows)
    ensures forall i :: inp <= i < inp + size ==> m'[i] == m[i]
  {
    CountFrame(m, m', rows);
  }

  lemma MergeCounts(m: seq<Bit>, m1: seq<Bit>, l: Lane, c: nat, out: nat, b1: nat, b2: nat,
                    space1: nat, space2: nat, space: nat, x: nat, y: nat)
    requires Counted(m, m1, out, b1, space1, x) && Counted(m1, l.mem, out + b1, b2, space2, y)
    requires space1 <= space && b1 + space2 <= space && b1 + 1 <= space && out + space <= |m|
    requires |l.mem| == |m| && MergeFits(|m|, c, out, b1, b2)
    ensures Counted(m, Run(l, PlainMerge(c, out, b1, b2)).mem, out, b1 + 1, space, x + y + Num(l.mem[c]))
  {
    hide Run, Counted, RippleDone, PlainMerge, Value;
    PlainMergeParts(l, c, out, b1, b2);
    var l0 := Primed(l, c);
    RippleAdds(l0, out, out + b1, b2, out, b1, b1);
    var l3 := Run(l0, AddRounds(out, out + b1, b2, out, b1));
    MergeMemory(m, m1, l.mem, l3.mem, l.mem[c], l3.cells.dcc1, out, b1, b2, space1, space2, space, x, y);
  }

  /** The counter returns Width(size) rows holding the exact sum of the rows it visits; no carry is lost. */
  lemma {:induction false} CountingCounts(l: Lane, inp: nat, size: nat, out: nat)
    requires size < Pow2(31) && CountFits(|l.mem|, inp, size, out)
    ensures Counted(l.mem, Run(l, Counting(false, inp, size, out)).mem, out, Returned(size), NecessarySpace(size),
                    CountAt(l.mem, Visited(inp, size)))
    decreases size
  {
    hide Run, CountAt, Counting, Visited, Counted, PlainMerge, Apart, Foo, MergeFits, Returned;
    hide NecessarySpace, FloorLog2, Pow2;
    if size <= 3 {
      SmallCounts(l, inp, size, out);
    } else {
      BlocksFit(|l.mem|, inp, size, out);
      CountingParts(l, false, inp, size, out);
      CountVisited(l.mem, inp, size);
      var left, right := Left(size), Right(size);
      var b1, b2 := Returned(left), Returned(right);
      hide Left, Right;
      var space1, space2 := NecessarySpace(left), NecessarySpace(right);
      CountingCounts(l, inp, left, out);
      var l1 := Run(l, Counting(false, inp, left, out));
      var x := CountAt(l.mem, Visited(inp, left));
      VisitedRows(inp + left, right);
      CountKept(l.mem, l1.mem, out, b1, space1, x, inp, size, Visited(inp + left, right));
      CountingCounts(l1, inp + left, right, out + b1);
      var l2 := Run(l1, Counting(false, inp + left, right, out + b1));
      var y := CountAt(l.mem, Visited(inp + left, right));
      CountKept(l1.mem, l2.mem, out + b1, b2, space2, y, inp, size, []);
      MergeCounts(l.mem, l1.mem, l2, inp + left, out, b1, b2, space1, space2, NecessarySpace(size), x, y);
    }
  }

  lemma {:induction false} CountBound(m: seq<Bit>, rows: seq<nat>)
    ensures CountAt(m, rows) <= |rows|
  {
    if rows != [] {
      CountBound(m, rows[1..]);
    }
  }

  /** The sum always fits the returned width. */
  lemma CountFitsWidth(m: seq<Bit>, inp: nat, size: nat)
    requires size < Pow2(31)
    ensures CountAt(m, Visited(inp, size)) < Pow2(Returned(size))
  {
    hide CountAt, Visited, Pow2;
    VisitedRows(inp, size);
    CountBound(m, Visited(inp, size));
  }

  // ----- When the visited rows are all the rows

  /** The number of ones in rows inp .. inp+n-1. */
  function Ones(m: seq<Bit>, inp: nat, n: nat): nat {
    if n == 0 then 0 else Ones(m, inp, n - 1) + Num(At(m, inp + n - 1))
  }

  lemma {:induction false} OnesSome(m: seq<Bit>, inp: nat, n: nat, r: nat)
    requires inp <= r < inp + n && At(m, r) == One
    ensures Ones(m, inp, n) >= 1
  {
    if r < inp + n - 1 {
      OnesSome(m, inp, n - 1, r);
    }
  }

  lemma {:induction false} CountNone(m: seq<Bit>, rows: seq<nat>)
    requires forall r :: r in rows ==> At(m, r) == Zero
    ensures CountAt(m, rows) == 0
  {
    if rows != [] {
      assert rows[0] in rows;
      CountNone(m, rows[1..]);
    }
  }

  /** A row the counter skips once size is at least 5. */
  function Skipped(inp: nat, size: nat): nat
    requires 5 <= size < Pow2(31)
  {
    if Right(size) > 0 then inp + size - 1 else inp + size - 2
  }

  lemma VisitedParts(inp: nat, size: nat, x: nat)
    requires 4 <= size < Pow2(31)
    ensures x in Visited(inp, size)
            <==> x in Visited(inp, Left(size)) || x in Visited(inp + Left(size), Right(size)) || x == inp + Left(size)
  {
    hide Foo, Pow2, Left, Right;
  }

  lemma NotVisited(inp: nat, size: nat)
    requires 5 <= size < Pow2(31)
    ensures inp <= Skipped(inp, size) < inp + size
    ensures Skipped(inp, size) !in Visited(inp, size)
    decreases size
  {
    hide Foo, FloorLog2, Pow2, Visited, Left, Right;
    SplitSizes(size);
    VisitedParts(inp, size, Skipped(inp, size));
    VisitedRows(inp, Left(size));
    VisitedRows(inp + Left(size), Right(size));
    if Right(size) == 0 {
      PowerSplit(size);
      NotVisited(inp, Left(size));
    }
  }

  lemma {:induction false} FirstVisited(inp: nat, size: nat)
    requires 1 <= size < Pow2(31)
    ensures inp in Visited(inp, size)
    decreases size
  {
    if size >= 4 {
      hide Foo, FloorLog2, Pow2, Visited, Left, Right;
      SplitSizes(size);
      VisitedParts(inp, size, inp);
      FirstVisited(inp, Left(size));
    }
  }

  lemma VisitedJoin(inp: nat, size: nat)
    requires 4 <= size < Pow2(31)
    ensures Visited(inp, size)
            == Visited(inp, Left(size)) + Visited(inp + Left(size), Right(size)) + [inp + Left(size)]
  {
    hide Foo, Pow2, Left, Right;
  }

  lemma InBoth(a: seq<nat>, b: seq<nat>, x: nat)
    requires x in b
    ensures multiset(a + b + [x])[x] >= 2
  {
    assert x in multiset(b);
  }

  /** A right block starts with the very row that enters as the carry, which is so counted twice. */
  lemma SharedRowTwice(inp: nat, size: nat)
    requires 4 <= size < Pow2(31) && Right(size) > 0
    ensures multiset(Visited(inp, size))[inp + Pow2(FloorLog2(size)) - 1] >= 2
  {
    hide Foo, FloorLog2, Pow2, Left, Right, Visited;
    SplitSizes(size);
    var left, right := Left(size), Right(size);
    VisitedJoin(inp, size);
    FirstVisited(inp + left, right);
    InBoth(Visited(inp, left), Visited(inp + left, right), inp + left);
  }

  /** Five to seven rows: the fourth is counted twice and the last not at all. */
  lemma FiveToSeven(m: seq<Bit>, inp: nat, size: nat)
    requires 5 <= size <= 7
    ensures size < Pow2(31)
    ensures CountAt(m, Visited(inp, size)) + Num(At(m, inp + size - 1)) == Ones(m, inp, size) + Num(At(m, inp + 3))
  {
    hide Foo, FloorLog2, Pow2, Visited, CountAt, Left, Right, Ones, Num, At;
    SplitFiveToSeven(size);
    OnesLast(m, inp, size);
    CountVisited(m, inp, size);
    UpToThree(m, inp, 3);
    UpToThree(m, inp + 3, size - 4);
    OnesSplit(m, inp, 3, size - 4);
  }

  lemma SplitFiveToSeven(size: nat)
    requires 5 <= size <= 7
    ensures size < Pow2(31) && Left(size) == 3 && Right(size) == size - 4
  {
    hide Foo;
    assert FloorLog2(size) == 2;
    assert Pow2(2) == 4;
  }

  lemma OnesLast(m: seq<Bit>, inp: nat, n: nat)
    requires n > 0
    ensures Ones(m, inp, n) == Ones(m, inp, n - 1) + Num(At(m, inp + n - 1))
  {
  }

  lemma {:induction false} OnesSplit(m: seq<Bit>, inp: nat, a: nat, b: nat)
    ensures Ones(m, inp, a + b) == Ones(m, inp, a) + Ones(m, inp + a, b)
  {
    if b > 0 {
      OnesSplit(m, inp, a, b - 1);
    }
  }

  /** A power of two has no right block, but its left block has one. */
  lemma PowerSplit(size: nat)
    requires 5 <= size < Pow2(31) && Right(size) == 0
    ensures 5 <= Left(size) && Right(Left(size)) > 0
  {
    hide Foo, Pow2;
    SplitSizes(size);
    var f := FloorLog2(size);
    Pow2Two();
    Pow2Double(f - 1);
    Pow2Double(f - 2);
    Pow2Double(2);
    Pow2Monotone(3, f);
    SplitSizes(Left(size));
  }

  lemma CountsAllUpToFour(m: seq<Bit>, inp: nat, size: nat)
    requires size <= 4
    ensures CountAt(m, Visited(inp, size)) == Ones(m, inp, size)
  {
    hide Foo, FloorLog2, Visited;
    UpToThree(m, inp, if size == 4 then 3 else size);
    if size == 4 {
      SplitFour();
      CountVisited(m, inp, 4);
      UpToThree(m, inp + 3, 0);
    }
  }

  lemma SplitFour()
    ensures Left(4) == 3 && Right(4) == 0
  {
    hide Foo;
    assert FloorLog2(4) == 2;
    assert Pow2(2) == 4;
  }

  lemma UpToThree(m: seq<Bit>, inp: nat, size: nat)
    requires size <= 3
    ensures CountAt(m, Visited(inp, size)) == Ones(m, inp, size)
  {
    if size >= 2 {
      FewVisited(m, inp, size);
      assert Ones(m, inp, 1) == Num(At(m, inp));
      assert Ones(m, inp, 2) == Num(At(m, inp)) + Num(At(m, inp + 1));
    } else {
      assert CountAt(m, [inp]) == Num(At(m, inp)) + CountAt(m, []);
    }
  }

  /** The lane whose only set bit is row r. */
  function Lonely(r: nat, rows: nat): Lane {
    Lane(Cells(Zero, Zero, Zero, Zero, Zero, Zero), seq(rows, i => if i == r then One else Zero))
  }

  /** On every lane where it fits, the counter's result rows hold the number of ones among the input rows. */
  ghost predicate CountsOnes(size: nat)
    requires size < Pow2(31)
  {
    forall l: Lane, inp: nat, out: nat | CountFits(|l.mem|, inp, size, out) ::
      Counted(l.mem, Run(l, Counting(false, inp, size, out)).mem, out, Returned(size), NecessarySpace(size),
              Ones(l.mem, inp, size))
  }

  lemma FourOrFewerCounted(size: nat)
    requires size <= 4
    ensures CountsOnes(size)
  {
    hide Run, Counting, Visited, CountAt, Ones, Foo, FloorLog2, Returned, Counted, NecessarySpace;
    forall l: Lane, inp: nat, out: nat | CountFits(|l.mem|, inp, size, out)
      ensures Counted(l.mem, Run(l, Counting(false, inp, size, out)).mem, out, Returned(size), NecessarySpace(size),
                      Ones(l.mem, inp, size))
    {
      CountingCounts(l, inp, size, out);
      CountsAllUpToFour(l.mem, inp, size);
    }
  }

  /** With five rows or more, a single one in a skipped row is counted as nothing. */
  lemma SkippedOneIsLost(size: nat)
    requires 5 <= size < Pow2(31)
    ensures var l := Lonely(Skipped(0, size), size + NecessarySpace(size));
            && CountFits(|l.mem|, 0, size, size) && Returned(size) <= NecessarySpace(size)
            && Ones(l.mem, 0, size) >= 1
            && Value(Run(l, Counting(false, 0, size, size)).mem, size, Returned(size)) == 0
  {
    hide Run, Counting, Visited, CountAt, Ones, Foo, FloorLog2, Returned, NecessarySpace, Value, Pow2;
    var l := Lonely(Skipped(0, size), size + NecessarySpace(size));
    NotVisited(0, size);
    VisitedRows(0, size);
    CountingCounts(l, 0, size, size);
    CountNone(l.mem, Visited(0, size));
    OnesSome(l.mem, 0, size, Skipped(0, size));
  }

  /** The counter computes a population count for every input exactly when it has at most four rows. */
  lemma PopulationCountUpToFour(size: nat)
    requires size < Pow2(31)
    ensures CountsOnes(size) <==> size <= 4
  {
    hide Run, Counting, Ones, Returned, NecessarySpace, Value, Lonely, Skipped, FloorLog2, Pow2, Foo;
    if size <= 4 {
      FourOrFewerCounted(size);
    } else {
      SkippedOneIsLost(size);
      var l := Lonely(Skipped(0, size), size + NecessarySpace(size));
      assert !Counted(l.mem, Run(l, Counting(false, 0, size, size)).mem, size, Returned(size), NecessarySpace(size),
                      Ones(l.mem, 0, size));
    }
  }
}
