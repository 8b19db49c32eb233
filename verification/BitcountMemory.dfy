/** The bit counter over the whole memory: every phase goes through all chunks before the next one starts. */
module BitcountMemory {
  import opened Bits
  import opened Dram
  import opened Simd
  import opened Widths
  import opened Bitcount
  import opened BitcountPhases

  /** Every lane of a row has been counted. */
  ghost predicate RowCounts(cols: seq<Column>, cols': seq<Column>, inp: nat, size: nat, out: nat)
    requires size < Pow2(31)
  {
    |cols'| == |cols| && forall i :: 0 <= i < |cols| ==> Counts(cols[i], cols'[i], inp, size, out)
  }

  ghost predicate AllCount(columns: seq<seq<Column>>, columns': seq<seq<Column>>, inp: nat, size: nat, out: nat)
    requires size < Pow2(31)
  {
    |columns'| == |columns| && forall r :: 0 <= r < |columns| ==> RowCounts(columns[r], columns'[r], inp, size, out)
  }

  lemma SmallRow(fused: bool, ss: seq<Scratch>, cols: seq<Column>, inp: nat, size: nat, out: nat, data: nat)
    requires size <= 3 && CountFits(data, inp, size, out) && |ss| == |cols|
    requires forall i :: 0 <= i < |ss| ==> |ss[i].rows| == 0 && |cols[i]| == data
    ensures RowCounts(cols, ColumnRow(ss, cols, Counting(fused, inp, size, out)), inp, size, out)
  {
    hide ColumnAfter, Counting, Counts, CountFits;
    forall i | 0 <= i < |cols|
      ensures Counts(cols[i], ColumnRow(ss, cols, Counting(fused, inp, size, out))[i], inp, size, out)
    {
      BareLane(ss[i], cols[i], Counting(fused, inp, size, out));
      SmallPhase(fused, ss[i].cells, cols[i], inp, size, out);
    }
  }

  /** The merge of a counter of size rows. */
  function MergeOf(fused: bool, inp: nat, size: nat, out: nat): Program
    requires 4 <= size < Pow2(31)
  {
    Merge(fused, inp + Left(size), out, Returned(Left(size)), Returned(Right(size)))
  }

  lemma MergedRow(fused: bool, ss: seq<Scratch>, cols: seq<Column>, cols1: seq<Column>, cols2: seq<Column>,
                  inp: nat, size: nat, out: nat, data: nat)
    requires 4 <= size < Pow2(31) && CountFits(data, inp, size, out) && |ss| == |cols2|
    requires forall i :: 0 <= i < |ss| ==> |ss[i].rows| == 0
    requires forall i :: 0 <= i < |cols| ==> |cols[i]| == data
    requires RowCounts(cols, cols1, inp, Left(size), out)
    requires RowCounts(cols1, cols2, inp + Left(size), Right(size), out + Returned(Left(size)))
    ensures RowCounts(cols, ColumnRow(ss, cols2, MergeOf(fused, inp, size, out)), inp, size, out)
  {
    hide ColumnAfter, Merge, Counts, CountFits, Left, Right, Returned, Pow2, MergeOf;
    forall i | 0 <= i < |cols|
      ensures Counts(cols[i], ColumnRow(ss, cols2, MergeOf(fused, inp, size, out))[i], inp, size, out)
    {
      MergedLane(fused, ss[i], cols[i], cols1[i], cols2[i], inp, size, out);
    }
  }

  lemma MergedLane(fused: bool, s: Scratch, col: Column, col1: Column, col2: Column, inp: nat, size: nat, out: nat)
    requires 4 <= size < Pow2(31) && CountFits(|col|, inp, size, out) && |s.rows| == 0
    requires Counts(col, col1, inp, Left(size), out)
    requires Counts(col1, col2, inp + Left(size), Right(size), out + Returned(Left(size)))
    ensures Counts(col, ColumnAfter(s, col2, MergeOf(fused, inp, size, out)), inp, size, out)
  {
    hide ColumnAfter, Merge, Counts, CountFits, Left, Right, Returned, Pow2;
    BareLane(s, col2, MergeOf(fused, inp, size, out));
    BlocksCount(fused, s.cells, col, col1, col2, inp, size, out);
  }

  method CountSmall(mem: Memory, fused: bool, inp: nat, size: nat, out: nat, data: nat)
    requires mem.Valid() && Shaped(mem.slots[..], mem.columns[..], 0, data)
    requires size <= 3 && CountFits(data, inp, size, out)
    modifies mem.slots, mem.columns
    ensures mem.Valid() && Shaped(mem.slots[..], mem.columns[..], 0, data)
    ensures AllCount(old(mem.columns[..]), mem.columns[..], inp, size, out)
  {
    hide ColumnRow, SlotBefore, Counting, RowCounts, CountFits;
    ghost var slots0, columns0 := mem.slots[..], mem.columns[..];
    var p := Counting(fused, inp, size, out);
    mem.ForAllVectors(p);
    ShapedAfter(slots0, columns0, mem.slots[..], mem.columns[..], p, 0, data);
    forall r | 0 <= r < |columns0|
      ensures RowCounts(columns0[r], mem.columns[r], inp, size, out)
    {
      SlotShaped(slots0, columns0, p, r, 0, data);
      SmallRow(fused, SlotBefore(slots0, columns0, p, r), columns0[r], inp, size, out, data);
    }
  }

  method MergeEverywhere(mem: Memory, fused: bool, inp: nat, size: nat, out: nat, data: nat,
                         ghost start: seq<seq<Column>>, ghost middle: seq<seq<Column>>)
    requires mem.Valid() && Shaped(mem.slots[..], mem.columns[..], 0, data) && Shaped([], start, 0, data)
    requires 4 <= size < Pow2(31) && CountFits(data, inp, size, out)
    requires AllCount(start, middle, inp, Left(size), out)
    requires AllCount(middle, mem.columns[..], inp + Left(size), Right(size), out + Returned(Left(size)))
    modifies mem.slots, mem.columns
    ensures mem.Valid() && Shaped(mem.slots[..], mem.columns[..], 0, data)
    ensures AllCount(start, mem.columns[..], inp, size, out)
  {
    hide ColumnRow, SlotBefore, MergeOf, RowCounts, CountFits, Left, Right, Returned, Pow2;
    ghost var slots0, columns0 := mem.slots[..], mem.columns[..];
    var p := MergeOf(fused, inp, size, out);
    mem.ForAllVectors(p);
    ShapedAfter(slots0, columns0, mem.slots[..], mem.columns[..], p, 0, data);
    forall r | 0 <= r < |start|
      ensures RowCounts(start[r], mem.columns[r], inp, size, out)
    {
      SlotShaped(slots0, columns0, p, r, 0, data);
      MergedRow(fused, SlotBefore(slots0, columns0, p, r), start[r], middle[r], columns0[r], inp, size, out, data);
    }
  }

  /**
    bitcount on any number of rows, in both forms: every lane of every row ends with the count of the
    rows it visits, although other rows use its slot between the phases.
   */
  method CountEverywhere(mem: Memory, fused: bool, inp: nat, size: nat, out: nat, data: nat) returns (width: nat)
    requires mem.Valid() && Shaped(mem.slots[..], mem.columns[..], 0, data)
    requires size < Pow2(31) && CountFits(data, inp, size, out)
    modifies mem.slots, mem.columns
    ensures mem.Valid() && Shaped(mem.slots[..], mem.columns[..], 0, data)
    ensures width == Width(size)
    ensures AllCount(old(mem.columns[..]), mem.columns[..], inp, size, out)
    decreases size
  {
    hide AllCount, CountFits, Foo, FloorLog2, Pow2;
    ghost var start := mem.columns[..];
    if size <= 3 {
      CountSmall(mem, fused, inp, size, out, data);
      SmallLogs();
      width := if size <= 1 then size else 2;
    } else {
      BlocksFit(data, inp, size, out);
      var left := Left(size);
      var right := size - left - 1;
      var b1 := CountEverywhere(mem, fused, inp, left, out, data);
      ghost var middle := mem.columns[..];
      var b2 := CountEverywhere(mem, fused, inp + left, right, out + b1, data);
      MergeEverywhere(mem, fused, inp, size, out, data, start, middle);
      width := 1 + b1;
    }
  }
}
