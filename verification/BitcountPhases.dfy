/**
  Each call of the bit counter goes through all chunks before the next call starts, so between the
  phases of one lane the cells are used for other lanes.  Whatever they are left with, the count is
  the same.
 */
module BitcountPhases {
  import opened Bits
  import opened Dram
  import opened Adder
  import opened Widths
  import opened Bitcount
  import opened BitcountValue

  /** The cells a phase finds; calls of one counter differ in their input position or size. */
  type Entry = (nat, nat) -> Cells

  /** The memory after all phases: both blocks, then the merge, each from the cells it finds. */
  function Phased(fused: bool, entry: Entry, m: seq<Bit>, inp: nat, size: nat, out: nat): (m': seq<Bit>)
    requires size < Pow2(31)
    ensures |m'| == |m|
    decreases size
  {
    if size <= 3 then Run(Lane(entry(inp, size), m), Counting(fused, inp, size, out)).mem
    else
      var left, right := Left(size), Right(size);
      var b1, b2 := Returned(left), Returned(right);
      var m1 := Phased(fused, entry, m, inp, left, out);
      var m2 := Phased(fused, entry, m1, inp + left, right, out + b1);
      Run(Lane(entry(inp, size), m2), Merge(fused, inp + left, out, b1, b2)).mem
  }

  lemma PhasedSmall(fused: bool, entry: Entry, m: seq<Bit>, inp: nat, size: nat, out: nat)
    requires size <= 3
    ensures Phased(fused, entry, m, inp, size, out)
            == Run(Lane(entry(inp, size), m), Counting(fused, inp, size, out)).mem
  {
    hide Run, Counting, Merge, Returned, Left, Right;
  }

  lemma PhasedParts(fused: bool, entry: Entry, m: seq<Bit>, inp: nat, size: nat, out: nat)
    requires 4 <= size < Pow2(31)
    ensures var left, right := Left(size), Right(size);
            var b1, b2 := Returned(left), Returned(right);
            var m1 := Phased(fused, entry, m, inp, left, out);
            var m2 := Phased(fused, entry, m1, inp + left, right, out + b1);
            Phased(fused, entry, m, inp, size, out)
            == Run(Lane(entry(inp, size), m2), Merge(fused, inp + left, out, b1, b2)).mem
  {
    hide Run, Counting, Merge, Returned, Left, Right, Pow2;
  }

  /** The rows at out hold the count of the visited rows, and only the counter's own rows have changed. */
  ghost predicate Counts(m: seq<Bit>, m': seq<Bit>, inp: nat, size: nat, out: nat)
    requires size < Pow2(31)
  {
    Counted(m, m', out, Returned(size), NecessarySpace(size), CountAt(m, Visited(inp, size)))
  }

  lemma SmallPhase(fused: bool, cells: Cells, m: seq<Bit>, inp: nat, size: nat, out: nat)
    requires size <= 3 && CountFits(|m|, inp, size, out)
    ensures Counts(m, Run(Lane(cells, m), Counting(fused, inp, size, out)).mem, inp, size, out)
  {
    SmallAlike(fused, inp, size, out);
    hide Run, CountAt, Counting, Visited, Counted, CountFits, NecessarySpace, Returned;
    SmallCounts(Lane(cells, m), inp, size, out);
  }

  lemma SmallAlike(fused: bool, inp: nat, size: nat, out: nat)
    requires size <= 3
    ensures Counting(fused, inp, size, out) == Counting(false, inp, size, out)
  {
  }

  lemma MergedCounts(fused: bool, m: seq<Bit>, m1: seq<Bit>, l: Lane, c: nat, out: nat, b1: nat, b2: nat,
                     space1: nat, space2: nat, space: nat, x: nat, y: nat)
    requires Counted(m, m1, out, b1, space1, x) && Counted(m1, l.mem, out + b1, b2, space2, y)
    requires space1 <= space && b1 + space2 <= space && b1 + 1 <= space && out + space <= |m|
    requires |l.mem| == |m| && MergeFits(|m|, c, out, b1, b2)
    ensures Counted(m, Run(l, Merge(fused, c, out, b1, b2)).mem, out, b1 + 1, space, x + y + Num(l.mem[c]))
  {
    hide Run, Counted, PlainMerge, FusedMerge;
    FusedMergeAgrees(l, c, out, b1, b2);
    MergeCounts(m, m1, l, c, out, b1, b2, space1, space2, space, x, y);
  }

  /** Two counted blocks and a merge from any cells make a count of the whole. */
  lemma BlocksCount(fused: bool, cells: Cells, m: seq<Bit>, m1: seq<Bit>, m2: seq<Bit>, inp: nat, size: nat, out: nat)
    requires 4 <= size < Pow2(31) && CountFits(|m|, inp, size, out)
    requires Counts(m, m1, inp, Left(size), out)
    requires Counts(m1, m2, inp + Left(size), Right(size), out + Returned(Left(size)))
    ensures var merge := Merge(fused, inp + Left(size), out, Returned(Left(size)), Returned(Right(size)));
            Counts(m, Run(Lane(cells, m2), merge).mem, inp, size, out)
  {
    hide Run, Merge, CountAt, Visited, Foo, MergeFits, Returned, NecessarySpace, FloorLog2, Pow2, Apart;
    BlocksFit(|m|, inp, size, out);
    CountVisited(m, inp, size);
    var left, right := Left(size), Right(size);
    var b1, b2 := Returned(left), Returned(right);
    hide Left, Right;
    var space1, space2 := NecessarySpace(left), NecessarySpace(right);
    var x, y := CountAt(m, Visited(inp, left)), CountAt(m, Visited(inp + left, right));
    VisitedRows(inp + left, right);
    CountKept(m, m1, out, b1, space1, x, inp, size, Visited(inp + left, right));
    CountKept(m1, m2, out + b1, b2, space2, y, inp, size, []);
    MergedCounts(fused, m, m1, Lane(cells, m2), inp + left, out, b1, b2, space1, space2, NecessarySpace(size), x, y);
  }

  /** The count does not depend on the cells the phases find, for either form of the counter. */
  lemma {:induction false} PhasesCount(fused: bool, entry: Entry, m: seq<Bit>, inp: nat, size: nat, out: nat)
    requires size < Pow2(31) && CountFits(|m|, inp, size, out)
    ensures Counts(m, Phased(fused, entry, m, inp, size, out), inp, size, out)
    decreases size
  {
    hide Run, Phased, Merge, Counts, Returned, CountFits, Left, Right, Pow2, MergeFits, NecessarySpace, FloorLog2;
    if size <= 3 {
      SmallPhase(fused, entry(inp, size), m, inp, size, out);
      PhasedSmall(fused, entry, m, inp, size, out);
    } else {
      BlocksFit(|m|, inp, size, out);
      PhasedParts(fused, entry, m, inp, size, out);
      PhasesCount(fused, entry, m, inp, Left(size), out);
      var m1 := Phased(fused, entry, m, inp, Left(size), out);
      PhasesCount(fused, entry, m1, inp + Left(size), Right(size), out + Returned(Left(size)));
      var m2 := Phased(fused, entry, m1, inp + Left(size), Right(size), out + Returned(Left(size)));
      BlocksCount(fused, entry(inp, size), m, m1, m2, inp, size, out);
    }
  }
}
