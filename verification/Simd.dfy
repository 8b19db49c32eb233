/**
  From one lane to the whole memory.  The drivers go through the rows in chunks of
  ROWS_PER_VECTOR and issue each command to every row of a chunk before the next command.
  Every row of lanes has its own data, but the computation cells and the scratch rows belong to
  a slot of the chunk and are handed on, as they are, to the next chunk.
 */
module Simd {
  import opened Bits
  import opened Dram

  const BANK_COUNT: nat := 16
  const RANK_COUNT: nat := 2
  const ROWS_PER_VECTOR: nat := BANK_COUNT * RANK_COUNT

  /** The cells and scratch rows one lane of a slot works with. */
  datatype Scratch = Scratch(cells: Cells, rows: seq<Bit>)

  /** The data rows of one lane. */
  type Column = seq<Bit>

  /** The lane a command sees: scratch rows first, then the data rows. */
  function Attach(s: Scratch, col: Column): Lane {
    Lane(s.cells, s.rows + col)
  }

  function ScratchAfter(s: Scratch, col: Column, p: Program): (s': Scratch)
    ensures |s'.rows| == |s.rows|
  {
    var l := Run(Attach(s, col), p);
    Scratch(l.cells, l.mem[..|s.rows|])
  }

  function ColumnAfter(s: Scratch, col: Column, p: Program): (col': Column)
    ensures |col'| == |col|
  {
    Run(Attach(s, col), p).mem[|s.rows|..]
  }

  lemma AttachAfter(s: Scratch, col: Column, p: Program)
    ensures Attach(ScratchAfter(s, col, p), ColumnAfter(s, col, p)) == Run(Attach(s, col), p)
  {
    hide Run;
    var l := Run(Attach(s, col), p);
    assert l.mem[..|s.rows|] + l.mem[|s.rows|..] == l.mem;
  }

  lemma AfterThen(s: Scratch, col: Column, p: Program, q: Program)
    ensures var s1, col1 := ScratchAfter(s, col, p), ColumnAfter(s, col, p);
            && ScratchAfter(s, col, Then(p, q)) == ScratchAfter(s1, col1, q)
            && ColumnAfter(s, col, Then(p, q)) == ColumnAfter(s1, col1, q)
  {
    hide Run;
    AttachAfter(s, col, p);
    RunThen(Attach(s, col), p, q);
  }

  // ----- A row of lanes: all lanes of a row take a command at once

  function ScratchRow(ss: seq<Scratch>, cols: seq<Column>, p: Program): (r: seq<Scratch>)
    requires |ss| == |cols|
    ensures |r| == |ss|
  {
    seq(|ss|, i requires 0 <= i < |ss| => ScratchAfter(ss[i], cols[i], p))
  }

  function ColumnRow(ss: seq<Scratch>, cols: seq<Column>, p: Program): (r: seq<Column>)
    requires |ss| == |cols|
    ensures |r| == |cols|
  {
    seq(|cols|, i requires 0 <= i < |cols| => ColumnAfter(ss[i], cols[i], p))
  }

  lemma RowThen(ss: seq<Scratch>, cols: seq<Column>, p: Program, q: Program)
    requires |ss| == |cols|
    ensures var ss1, cols1 := ScratchRow(ss, cols, p), ColumnRow(ss, cols, p);
            && ScratchRow(ss, cols, Then(p, q)) == ScratchRow(ss1, cols1, q)
            && ColumnRow(ss, cols, Then(p, q)) == ColumnRow(ss1, cols1, q)
  {
    hide ScratchAfter, ColumnAfter;
    var ss1, cols1 := ScratchRow(ss, cols, p), ColumnRow(ss, cols, p);
    forall i | 0 <= i < |ss|
      ensures ScratchRow(ss, cols, Then(p, q))[i] == ScratchRow(ss1, cols1, q)[i]
      ensures ColumnRow(ss, cols, Then(p, q))[i] == ColumnRow(ss1, cols1, q)[i]
    {
      AfterThen(ss[i], cols[i], p, q);
    }
    assert ScratchRow(ss, cols, Then(p, q)) == ScratchRow(ss1, cols1, q);
    assert ColumnRow(ss, cols, Then(p, q)) == ColumnRow(ss1, cols1, q);
  }

  lemma RowNop(ss: seq<Scratch>, cols: seq<Column>)
    requires |ss| == |cols|
    ensures ScratchRow(ss, cols, Nop) == ss && ColumnRow(ss, cols, Nop) == cols
  {
    forall i | 0 <= i < |ss|
      ensures ScratchRow(ss, cols, Nop)[i] == ss[i] && ColumnRow(ss, cols, Nop)[i] == cols[i]
    {
      assert Attach(ss[i], cols[i]).mem[..|ss[i].rows|] == ss[i].rows;
      assert Attach(ss[i], cols[i]).mem[|ss[i].rows|..] == cols[i];
    }
  }

  // ----- The whole memory

  /** What slot r % ROWS_PER_VECTOR holds when row r gets its turn. */
  function SlotBefore(slots: seq<seq<Scratch>>, columns: seq<seq<Column>>, p: Program, r: nat): (ss: seq<Scratch>)
    requires Aligned(slots, columns) && r < |columns| + ROWS_PER_VECTOR
    ensures forall q :: 0 <= q < |columns| ==> |ss| == |columns[q]|
    decreases r
  {
    if r < ROWS_PER_VECTOR then slots[r]
    else ScratchRow(SlotBefore(slots, columns, p, r - ROWS_PER_VECTOR), columns[r - ROWS_PER_VECTOR], p)
  }

  lemma SlotNext(slots: seq<seq<Scratch>>, columns: seq<seq<Column>>, p: Program, r: nat)
    requires Aligned(slots, columns) && r < |columns|
    ensures SlotBefore(slots, columns, p, r + ROWS_PER_VECTOR)
            == ScratchRow(SlotBefore(slots, columns, p, r), columns[r], p)
  {
    hide ScratchRow;
  }

  /** Every row and every slot has the same number of lanes. */
  ghost predicate Aligned(slots: seq<seq<Scratch>>, columns: seq<seq<Column>>) {
    && |slots| == ROWS_PER_VECTOR
    && (forall q, r :: 0 <= q < |slots| && 0 <= r < |columns| ==> |slots[q]| == |columns[r]|)
  }

  function Min(a: int, b: int): int {
    if a < b then a else b
  }

  /** Program p has been run on every row of the chunk at base, each with its slot, and on nothing else. */
  ghost predicate ChunkDone(slots: seq<seq<Scratch>>, columns: seq<seq<Column>>,
                            slots': seq<seq<Scratch>>, columns': seq<seq<Column>>, base: nat, p: Program)
    requires Aligned(slots, columns) && base <= |columns|
  {
    var k := Min(|columns| - base, ROWS_PER_VECTOR);
    && |slots'| == |slots| && |columns'| == |columns|
    && (forall q :: 0 <= q < k ==> slots'[q] == ScratchRow(slots[q], columns[base + q], p))
    && (forall q :: k <= q < |slots| ==> slots'[q] == slots[q])
    && (forall r :: base <= r < base + k ==> columns'[r] == ColumnRow(slots[r - base], columns[r], p))
    && (forall r :: 0 <= r < |columns| && !(base <= r < base + k) ==> columns'[r] == columns[r])
  }

  lemma ChunkAligned(slots: seq<seq<Scratch>>, columns: seq<seq<Column>>,
                     slots': seq<seq<Scratch>>, columns': seq<seq<Column>>, base: nat, p: Program)
    requires Aligned(slots, columns) && base <= |columns| && ChunkDone(slots, columns, slots', columns', base, p)
    ensures Aligned(slots', columns')
  {
    forall q, r | 0 <= q < |slots| && 0 <= r < |columns|
      ensures |slots'[q]| == |columns'[r]|
    {
      assert |slots[q]| == |columns[r]|;
    }
  }

  lemma ChunkThen(slots: seq<seq<Scratch>>, columns: seq<seq<Column>>,
                  slots1: seq<seq<Scratch>>, columns1: seq<seq<Column>>,
                  slots2: seq<seq<Scratch>>, columns2: seq<seq<Column>>, base: nat, p: Program, q: Program)
    requires Aligned(slots, columns) && base <= |columns| && Aligned(slots1, columns1)
    requires ChunkDone(slots, columns, slots1, columns1, base, p)
    requires ChunkDone(slots1, columns1, slots2, columns2, base, q)
    ensures ChunkDone(slots, columns, slots2, columns2, base, Then(p, q))
  {
    hide ScratchRow, ColumnRow;
    forall r | 0 <= r < Min(|columns| - base, ROWS_PER_VECTOR)
      ensures slots2[r] == ScratchRow(slots[r], columns[base + r], Then(p, q))
      ensures columns2[base + r] == ColumnRow(slots[r], columns[base + r], Then(p, q))
    {
      RowThen(slots[r], columns[base + r], p, q);
      assert columns1[base + r] == ColumnRow(slots[r], columns[base + r], p);
    }
  }

  class Memory {
    var slots: array<seq<Scratch>>
    var columns: array<seq<Column>>

    ghost predicate Valid()
      reads this, slots, columns
    {
      slots as object != columns as object && Aligned(slots[..], columns[..])
    }

    /** AAP_VECTORS and AP_VECTOR: one command to every row of the chunk. */
    method VectorOp(base: nat, c: Command)
      requires Valid() && base < columns.Length
      modifies slots, columns
      ensures Valid() && ChunkDone(old(slots[..]), old(columns[..]), slots[..], columns[..], base, Do(c))
    {
      hide ScratchRow, ColumnRow;
      ghost var slots0, columns0 := slots[..], columns[..];
      var row := 0;
      while row < columns.Length - base && row < ROWS_PER_VECTOR
        invariant 0 <= row <= columns.Length - base && row <= ROWS_PER_VECTOR
        invariant forall q :: 0 <= q < row ==> slots[q] == ScratchRow(slots0[q], columns0[base + q], Do(c))
        invariant forall q :: row <= q < slots.Length ==> slots[q] == slots0[q]
        invariant forall r :: base <= r < base + row ==> columns[r] == ColumnRow(slots0[r - base], columns0[r], Do(c))
        invariant forall r :: 0 <= r < columns.Length && !(base <= r < base + row) ==> columns[r] == columns0[r]
      {
        var ss, cols := slots[row], columns[base + row];
        slots[row] := ScratchRow(ss, cols, Do(c));
        columns[base + row] := ColumnRow(ss, cols, Do(c));
        row := row + 1;
      }
      ChunkAligned(slots0, columns0, slots[..], columns[..], base, Do(c));
    }

    /** The body of a driver on one chunk: command after command, each to all rows. */
    method Execute(base: nat, p: Program)
      requires Valid() && base < columns.Length
      modifies slots, columns
      ensures Valid() && ChunkDone(old(slots[..]), old(columns[..]), slots[..], columns[..], base, p)
      decreases p
    {
      match p
      case Nop =>
        forall q | 0 <= q < Min(columns.Length - base, ROWS_PER_VECTOR)
          ensures slots[q] == ScratchRow(slots[q], columns[base + q], Nop)
          ensures columns[base + q] == ColumnRow(slots[q], columns[base + q], Nop)
        {
          RowNop(slots[q], columns[base + q]);
        }
      case Do(c) =>
        VectorOp(base, c);
      case Then(first, second) =>
        ghost var slots0, columns0 := slots[..], columns[..];
        Execute(base, first);
        ghost var slots1, columns1 := slots[..], columns[..];
        Execute(base, second);
        ChunkThen(slots0, columns0, slots1, columns1, slots[..], columns[..], base, first, second);
    }

    /**
      FOR_ALL_VECTORS: chunk after chunk.  Whatever the number of rows, each is processed exactly
      once, as if the whole program had been run on it alone with the slot its predecessor left.
     */
    method ForAllVectors(p: Program)
      requires Valid()
      modifies slots, columns
      ensures Valid()
      ensures forall r :: 0 <= r < columns.Length ==>
                columns[r] == ColumnRow(SlotBefore(old(slots[..]), old(columns[..]), p, r), old(columns[r]), p)
      ensures forall r :: columns.Length <= r < columns.Length + ROWS_PER_VECTOR ==>
                slots[r % ROWS_PER_VECTOR] == SlotBefore(old(slots[..]), old(columns[..]), p, r)
    {
      hide ScratchRow, ColumnRow, ChunksDone, ChunkDone, SlotBefore;
      ghost var slots0, columns0 := slots[..], columns[..];
      var base := 0;
      ChunksStart(slots0, columns0, p);
      while base < columns.Length
        invariant Valid() && base % ROWS_PER_VECTOR == 0 && base < columns.Length + ROWS_PER_VECTOR
        invariant ChunksDone(slots0, columns0, slots[..], columns[..], base, p)
      {
        ghost var slots1, columns1 := slots[..], columns[..];
        Execute(base, p);
        ChunksNext(slots0, columns0, slots1, columns1, slots[..], columns[..], base, p);
        base := base + ROWS_PER_VECTOR;
      }
      ChunksAll(slots0, columns0, slots[..], columns[..], base, p);
    }
  }

  /** Rows below base are finished, the others untouched, and the slots are ready for rows base and up. */
  ghost predicate ChunksDone(slots: seq<seq<Scratch>>, columns: seq<seq<Column>>,
                             slots': seq<seq<Scratch>>, columns': seq<seq<Column>>, base: nat, p: Program)
    requires Aligned(slots, columns)
  {
    && |slots'| == |slots| && |columns'| == |columns|
    && (forall q :: 0 <= q < |slots| && base + q < |columns| + ROWS_PER_VECTOR ==>
          slots'[q] == SlotBefore(slots, columns, p, base + q))
    && (forall q :: 0 <= q < |slots| && |columns| + ROWS_PER_VECTOR <= base + q < |columns| + 2 * ROWS_PER_VECTOR ==>
          slots'[q] == SlotBefore(slots, columns, p, base + q - ROWS_PER_VECTOR))
    && (forall r :: 0 <= r < |columns| && r < base ==>
          columns'[r] == ColumnRow(SlotBefore(slots, columns, p, r), columns[r], p))
    && (forall r :: base <= r < |columns| ==> columns'[r] == columns[r])
  }

  lemma ChunksStart(slots: seq<seq<Scratch>>, columns: seq<seq<Column>>, p: Program)
    requires Aligned(slots, columns)
    ensures ChunksDone(slots, columns, slots, columns, 0, p)
  {
  }

  lemma ChunksAll(slots: seq<seq<Scratch>>, columns: seq<seq<Column>>,
                  slots': seq<seq<Scratch>>, columns': seq<seq<Column>>, base: nat, p: Program)
    requires Aligned(slots, columns) && |columns| <= base && ChunksDone(slots, columns, slots', columns', base, p)
    requires base % ROWS_PER_VECTOR == 0 && base < |columns| + ROWS_PER_VECTOR
    ensures |columns'| == |columns| && |slots'| == |slots|
    ensures forall r :: 0 <= r < |columns| ==>
              columns'[r] == ColumnRow(SlotBefore(slots, columns, p, r), columns[r], p)
    ensures forall r :: |columns| <= r < |columns| + ROWS_PER_VECTOR ==>
              slots'[r % ROWS_PER_VECTOR] == SlotBefore(slots, columns, p, r)
  {
    hide SlotBefore, ColumnRow;
    forall r | |columns| <= r < |columns| + ROWS_PER_VECTOR
      ensures slots'[r % ROWS_PER_VECTOR] == SlotBefore(slots, columns, p, r)
    {
      SlotIndex(r, base);
    }
  }

  lemma SlotIndex(r: nat, base: nat)
    requires base % ROWS_PER_VECTOR == 0 && base <= r + ROWS_PER_VECTOR && r < base + ROWS_PER_VECTOR
    ensures r % ROWS_PER_VECTOR == if r < base then r + ROWS_PER_VECTOR - base else r - base
  {
  }

  lemma ChunksNext(slots: seq<seq<Scratch>>, columns: seq<seq<Column>>,
                   slots1: seq<seq<Scratch>>, columns1: seq<seq<Column>>,
                   slots2: seq<seq<Scratch>>, columns2: seq<seq<Column>>, base: nat, p: Program)
    requires Aligned(slots, columns) && base < |columns| && Aligned(slots1, columns1)
    requires ChunksDone(slots, columns, slots1, columns1, base, p)
    requires ChunkDone(slots1, columns1, slots2, columns2, base, p)
    ensures ChunksDone(slots, columns, slots2, columns2, base + ROWS_PER_VECTOR, p)
  {
    hide ScratchRow, ColumnRow;
    forall r | 0 <= r < |columns| && r < base + ROWS_PER_VECTOR
      ensures columns2[r] == ColumnRow(SlotBefore(slots, columns, p, r), columns[r], p)
    {
      if r >= base {
        assert slots1[r - base] == SlotBefore(slots, columns, p, base + (r - base));
      }
    }
  }

  // ----- Numbers of scratch and data rows

  /** Every slot has k scratch rows per lane and every column has the same number of data rows. */
  ghost predicate Shaped(slots: seq<seq<Scratch>>, columns: seq<seq<Column>>, k: nat, data: nat) {
    && (forall q, i :: 0 <= q < |slots| && 0 <= i < |slots[q]| ==> |slots[q][i].rows| == k)
    && (forall r, i :: 0 <= r < |columns| && 0 <= i < |columns[r]| ==> |columns[r][i]| == data)
  }

  lemma {:induction false} SlotShaped(slots: seq<seq<Scratch>>, columns: seq<seq<Column>>, p: Program, r: nat,
                                      k: nat, data: nat)
    requires Aligned(slots, columns) && r < |columns| + ROWS_PER_VECTOR && Shaped(slots, columns, k, data)
    ensures forall i :: 0 <= i < |SlotBefore(slots, columns, p, r)| ==>
              |SlotBefore(slots, columns, p, r)[i].rows| == k
  {
    if r >= ROWS_PER_VECTOR {
      SlotShaped(slots, columns, p, r - ROWS_PER_VECTOR, k, data);
    }
  }

  /** A pass over all rows keeps the shape of the memory. */
  lemma ShapedAfter(slots: seq<seq<Scratch>>, columns: seq<seq<Column>>, slots': seq<seq<Scratch>>,
                    columns': seq<seq<Column>>, p: Program, k: nat, data: nat)
    requires Aligned(slots, columns) && Shaped(slots, columns, k, data)
    requires |slots'| == |slots| && |columns'| == |columns|
    requires forall r :: 0 <= r < |columns| ==>
               columns'[r] == ColumnRow(SlotBefore(slots, columns, p, r), columns[r], p)
    requires forall r :: |columns| <= r < |columns| + ROWS_PER_VECTOR ==>
               slots'[r % ROWS_PER_VECTOR] == SlotBefore(slots, columns, p, r)
    ensures Shaped(slots', columns', k, data)
  {
    hide SlotBefore, ScratchAfter, ColumnAfter;
    forall q, i | 0 <= q < |slots'| && 0 <= i < |slots'[q]|
      ensures |slots'[q][i].rows| == k
    {
      var r := TurnOf(q, |columns|);
      SlotShaped(slots, columns, p, r, k, data);
      assert slots'[r % ROWS_PER_VECTOR] == SlotBefore(slots, columns, p, r);
    }
  }

  /** The first row from n on whose slot is q. */
  lemma TurnOf(q: nat, n: nat) returns (r: nat)
    requires q < ROWS_PER_VECTOR
    ensures n <= r < n + ROWS_PER_VECTOR && r % ROWS_PER_VECTOR == q
  {
    var base := n - n % ROWS_PER_VECTOR;
    r := if q >= n % ROWS_PER_VECTOR then base + q else base + ROWS_PER_VECTOR + q;
  }

  /** Without scratch rows a lane is its cells and its column. */
  lemma BareLane(s: Scratch, col: Column, p: Program)
    requires |s.rows| == 0
    ensures var l := Run(Lane(s.cells, col), p);
            ColumnAfter(s, col, p) == l.mem && ScratchAfter(s, col, p).cells == l.cells
  {
    hide Run;
    assert Attach(s, col) == Lane(s.cells, col) by {
      assert s.rows + col == col;
    }
  }

  // ----- Programs that do not look at what a slot was left with

  /** The data rows after the program do not depend on the cells or scratch rows before it. */
  ghost predicate Insensitive(p: Program, scratch: nat, data: nat) {
    forall s1: Scratch, s2: Scratch, col: Column | |s1.rows| == |s2.rows| == scratch && |col| == data ::
      ColumnAfter(s1, col, p) == ColumnAfter(s2, col, p)
  }
}
