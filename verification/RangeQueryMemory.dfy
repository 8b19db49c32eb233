/** The range query over the whole memory: later chunks start from the answers of earlier ones. */
module RangeQueryMemory {
  import opened Bits
  import opened ConstBits
  import opened Dram
  import opened Simd
  import opened RangeQuery

  datatype Query = Query(c1: nat, c2: nat, v: nat, out: nat, n: nat) {
    predicate Fits(data: nat) {
      1 <= n && v + n <= data && out < data
    }

    function Commands(): Program {
      RangeQuery.RangeQuery(c1, c2, v, out, n)
    }

    /** What the source promises for a column. */
    function Right(col: Column): Bit
      requires Fits(|col|)
    {
      Truth(LowBits(c1, n) <= Value(col, v, n) <= LowBits(c2, n))
    }
  }

  /** T3 when lane i of row r gets its turn: as the caller left it, or the answer 32 rows earlier. */
  function EntryT3(slots: seq<seq<Scratch>>, columns: seq<seq<Column>>, r: nat, i: nat, out: nat): Bit
    requires Aligned(slots, columns) && r < |columns| && i < |columns[r]|
    requires forall q, j :: 0 <= q < |columns| && 0 <= j < |columns[q]| ==> out < |columns[q][j]|
  {
    if r < 32 then slots[r][i].cells.t3
    else
      assert |slots[0]| == |columns[r]| && |slots[0]| == |columns[r - 32]|;
      columns[r - 32][i][out]
  }

  /** The column after a query that found t3 in T3, and when its answer is right. */
  ghost predicate Answered(query: Query, col: Column, col': Column, t3: Bit)
    requires query.Fits(|col|)
  {
    var x, y1, y2 := Value(col, query.v, query.n), LowBits(query.c1, query.n), LowBits(query.c2, query.n);
    && col' == col[query.out := Answer(x, y1, y2, Strict(t3, query.c1, query.c2))]
    && (col'[query.out] == query.Right(col)
        <==> BitSet(query.c1, 0) != BitSet(query.c2, 0) || t3 == One || x != y1 || y1 > y2)
  }

  /** One lane without scratch rows. */
  lemma LaneAnswers(query: Query, s: Scratch, col: Column)
    requires query.Fits(|col|) && |s.rows| == 0
    ensures var col' := ColumnAfter(s, col, query.Commands());
            && Answered(query, col, col', s.cells.t3)
            && ScratchAfter(s, col, query.Commands()).cells.t3 == col'[query.out]
  {
    hide Run, RangeQuery.RangeQuery, BitSet, LowBits, Value;
    BareLane(s, col, query.Commands());
    RangeQueryAnswers(Lane(s.cells, col), query.c1, query.c2, query.v, query.out, query.n);
  }

  /** One pass of the query over all rows. */
  ghost predicate Queried(query: Query, slots: seq<seq<Scratch>>, columns: seq<seq<Column>>,
                          columns': seq<seq<Column>>, data: nat)
    requires Aligned(slots, columns)
  {
    && Aligned(slots, columns') && Shaped(slots, columns', 0, data) && |columns'| == |columns|
    && (forall r :: 0 <= r < |columns| ==> |columns'[r]| == |columns[r]|)
    && (forall r :: 0 <= r < |columns| ==>
          columns'[r] == ColumnRow(SlotBefore(slots, columns, query.Commands(), r), columns[r], query.Commands()))
  }

  /** A row of lanes hands its answers on in T3. */
  lemma RowHandsOn(query: Query, ss: seq<Scratch>, cols: seq<Column>, i: nat)
    requires |ss| == |cols| && i < |ss| && |ss[i].rows| == 0 && query.Fits(|cols[i]|)
    ensures ScratchRow(ss, cols, query.Commands())[i].cells.t3
            == ColumnRow(ss, cols, query.Commands())[i][query.out]
  {
    hide ScratchAfter, ColumnAfter, Answered, Query.Commands;
    LaneAnswers(query, ss[i], cols[i]);
  }

  /** The T3 a slot hands on is the answer of the row before it in that slot. */
  lemma SlotKeepsAnswer(query: Query, slots: seq<seq<Scratch>>, columns: seq<seq<Column>>, columns': seq<seq<Column>>,
                        ss: seq<Scratch>, r: nat, i: nat, data: nat)
    requires query.Fits(data) && Aligned(slots, columns) && Shaped(slots, columns, 0, data)
    requires Queried(query, slots, columns, columns', data)
    requires r < |columns| && i < |columns[r]| == |ss| && ss == SlotBefore(slots, columns, query.Commands(), r)
    ensures ss[i].cells.t3 == EntryT3(slots, columns', r, i, query.out)
  {
    hide ScratchRow, ColumnRow, Query.Commands;
    if r >= 32 {
      hide SlotBefore;
      var q := r - 32;
      SlotNext(slots, columns, query.Commands(), q);
      SlotShaped(slots, columns, query.Commands(), q, 0, data);
      assert |slots[0]| == |columns[r]| && |slots[0]| == |columns[q]|;
      RowHandsOn(query, SlotBefore(slots, columns, query.Commands(), q), columns[q], i);
    }
  }

  /**
    90_bitweave on any number of rows: what every lane of every row is answered, and that the answer
    is right exactly when bit 0 of the constants differs, the lane's slot last answered one (or found
    one in T3), the lane does not hold c1, or the range is empty.
   */
  method QueryEverywhere(mem: Memory, query: Query, data: nat)
    requires mem.Valid() && Shaped(mem.slots[..], mem.columns[..], 0, data) && query.Fits(data)
    modifies mem.slots, mem.columns
    ensures mem.Valid() && Shaped(mem.slots[..], mem.columns[..], 0, data)
    ensures Aligned(old(mem.slots[..]), mem.columns[..])
    ensures forall r :: 0 <= r < mem.columns.Length ==> |mem.columns[r]| == |old(mem.columns[r])|
    ensures forall r, i :: 0 <= r < mem.columns.Length && 0 <= i < |mem.columns[r]| ==>
              Answered(query, old(mem.columns[r])[i], mem.columns[r][i],
                       EntryT3(old(mem.slots[..]), mem.columns[..], r, i, query.out))
  {
    hide ColumnRow, SlotBefore, Answered, EntryT3, Query.Commands;
    ghost var slots0, columns0 := mem.slots[..], mem.columns[..];
    mem.ForAllVectors(query.Commands());
    ghost var columns1 := mem.columns[..];
    assert forall r :: 0 <= r < |columns1| ==> |columns1[r]| == |columns0[r]|;
    ShapedAfter(slots0, columns0, mem.slots[..], columns1, query.Commands(), 0, data);
    forall r, i | 0 <= r < |columns1| && 0 <= i < |columns1[r]|
      ensures Answered(query, columns0[r][i], columns1[r][i], EntryT3(slots0, columns1, r, i, query.out))
    {
      RowAnswers(query, slots0, columns0, columns1, r, i, data);
    }
  }

  lemma RowAnswers(query: Query, slots: seq<seq<Scratch>>, columns: seq<seq<Column>>, columns': seq<seq<Column>>,
                   r: nat, i: nat, data: nat)
    requires query.Fits(data) && Aligned(slots, columns) && Shaped(slots, columns, 0, data)
    requires Queried(query, slots, columns, columns', data)
    requires r < |columns| && i < |columns[r]|
    ensures Answered(query, columns[r][i], columns'[r][i], EntryT3(slots, columns', r, i, query.out))
  {
    hide ColumnAfter, SlotBefore, Answered, EntryT3, Query.Commands;
    var ss := SlotBefore(slots, columns, query.Commands(), r);
    SlotShaped(slots, columns, query.Commands(), r, 0, data);
    SlotKeepsAnswer(query, slots, columns, columns', ss, r, i, data);
    LaneAnswers(query, ss[i], columns[r][i]);
  }
}
