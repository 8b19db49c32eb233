/** Addition, subtraction, multiplication and division over the whole memory, chunk after chunk. */
module SimdArithmetic {
  import opened Bits
  import opened Dram
  import opened Adder
  import opened Simd
  import Multiplier
  import Divider

  // ----- One column, with whatever the slot was left with

  lemma SliceValue(m: seq<Bit>, k: nat, lo: nat, n: nat)
    requires k + lo + n <= |m|
    ensures Value(m[k..], lo, n) == Value(m, k + lo, n)
  {
    ValueCopy(m[k..], lo, m, k + lo, n);
  }

  lemma AppendedValue(a: seq<Bit>, b: seq<Bit>, lo: nat, n: nat)
    requires lo + n <= |b|
    ensures Value(b, lo, n) == Value(a + b, |a| + lo, n)
  {
    ValueCopy(b, lo, a + b, |a| + lo, n);
  }

  /** Rows |s.rows| and up of a lane, seen as a column. */
  lemma ColumnValue(s: Scratch, col: Column, p: Program, lo: nat, n: nat)
    requires lo + n <= |col|
    ensures Value(ColumnAfter(s, col, p), lo, n) == Value(Run(Attach(s, col), p).mem, |s.rows| + lo, n)
    ensures Value(col, lo, n) == Value(Attach(s, col).mem, |s.rows| + lo, n)
  {
    hide Run, Value;
    SliceValue(Run(Attach(s, col), p).mem, |s.rows|, lo, n);
    AppendedValue(s.rows, col, lo, n);
  }

  /** Only the n data rows at out have changed. */
  ghost predicate OnlyChanged(col: Column, col': Column, out: nat, n: nat) {
    |col'| == |col| && forall i :: 0 <= i < |col| && !(out <= i < out + n) ==> col'[i] == col[i]
  }

  /** A lane that changed only its rows at out changed only the column's rows at out. */
  lemma ColumnFrame(s: Scratch, col: Column, p: Program, out: nat, n: nat)
    requires var k, l := |s.rows|, Attach(s, col);
             forall i :: 0 <= i < |l.mem| && !(k + out <= i < k + out + n) ==> Run(l, p).mem[i] == l.mem[i]
    ensures OnlyChanged(col, ColumnAfter(s, col, p), out, n)
  {
    hide Run;
    forall i | 0 <= i < |col| && !(out <= i < out + n)
      ensures ColumnAfter(s, col, p)[i] == col[i]
    {
      assert Run(Attach(s, col), p).mem[|s.rows| + i] == Attach(s, col).mem[|s.rows| + i];
    }
  }

  /** Two results that agree as numbers and changed only the result rows are the same column. */
  lemma SameColumn(col: Column, c1: Column, c2: Column, out: nat, n: nat)
    requires out + n <= |col| && OnlyChanged(col, c1, out, n) && OnlyChanged(col, c2, out, n)
    requires Value(c1, out, n) == Value(c2, out, n)
    ensures c1 == c2
  {
    ValueInjective(c1, out, c2, out, n);
  }

  lemma AdditionOnColumn(s: Scratch, col: Column, v1: nat, v2: nat, out: nat, n: nat)
    requires RippleLayout(|col|, v1, v2, n, out, n)
    ensures var k := |s.rows|;
            var col' := ColumnAfter(s, col, Addition(k + v1, k + v2, k + out, n));
            var sum := Value(col, v1, n) + Value(col, v2, n);
            && Value(col', out, n) == (if sum < Pow2(n) then sum else sum - Pow2(n))
            && OnlyChanged(col, col', out, n)
  {
    hide Run, Value, Addition, OnlyChanged, ColumnAfter;
    var k := |s.rows|;
    var p := Addition(k + v1, k + v2, k + out, n);
    AdditionAdds(Attach(s, col), k + v1, k + v2, k + out, n);
    ColumnFrame(s, col, p, out, n);
    ColumnValue(s, col, p, out, n);
    ColumnValue(s, col, p, v1, n);
    ColumnValue(s, col, p, v2, n);
    ValueBound(ColumnAfter(s, col, p), out, n);
    ValueBound(col, v1, n);
    ValueBound(col, v2, n);
  }

  lemma SubtractionOnColumn(s: Scratch, col: Column, v1: nat, v2: nat, out: nat, n: nat)
    requires RippleLayout(|col|, v1, v2, n, out, n)
    ensures var k := |s.rows|;
            var col' := ColumnAfter(s, col, Subtraction(k + v1, k + v2, k + out, n));
            var a, b := Value(col, v1, n), Value(col, v2, n);
            && Value(col', out, n) == (if a >= b then a - b else a + Pow2(n) - b)
            && OnlyChanged(col, col', out, n)
  {
    hide Run, Value, Subtraction, OnlyChanged, ColumnAfter;
    var k := |s.rows|;
    var p := Subtraction(k + v1, k + v2, k + out, n);
    SubtractionSubtracts(Attach(s, col), k + v1, k + v2, k + out, n);
    ColumnFrame(s, col, p, out, n);
    ColumnValue(s, col, p, out, n);
    ColumnValue(s, col, p, v1, n);
    ColumnValue(s, col, p, v2, n);
  }

  lemma MultiplicationOnColumn(s: Scratch, col: Column, v1: nat, v2: nat, out: nat, n: nat)
    requires Multiplier.Fits(|col|, v1, v2, out, n)
    ensures var k := |s.rows|;
            var col' := ColumnAfter(s, col, Multiplier.Multiplication(k + v1, k + v2, k + out, n));
            && Value(col', out, 2 * n) == Value(col, v1, n) * Value(col, v2, n)
            && OnlyChanged(col, col', out, 2 * n)
  {
    hide Run, Value, Multiplier.Multiplication, OnlyChanged, ColumnAfter;
    var k := |s.rows|;
    var p := Multiplier.Multiplication(k + v1, k + v2, k + out, n);
    Multiplier.MultiplicationMultiplies(Attach(s, col), k + v1, k + v2, k + out, n);
    ColumnFrame(s, col, p, out, 2 * n);
    ColumnValue(s, col, p, out, 2 * n);
    ColumnValue(s, col, p, v1, n);
    ColumnValue(s, col, p, v2, n);
  }

  /** The divider's scratch rows are the slot's; lay gives operands and quotient as positions in the column. */
  predicate DivisionFits(lay: Divider.Layout, scratch: nat, data: nat) {
    && lay.rest + lay.n <= lay.tmp && lay.tmp + lay.n <= lay.m < scratch
    && lay.v1 + lay.n <= lay.v2 && lay.v2 + lay.n <= lay.out && lay.out + lay.n <= data
  }

  function Shifted(lay: Divider.Layout, k: nat): Divider.Layout {
    lay.(v1 := k + lay.v1, v2 := k + lay.v2, out := k + lay.out)
  }

  /** The quotient rows for dividend a and divisor b. */
  function QuotientOf(a: nat, b: nat, n: nat): nat {
    if b > 0 then a / b else Pow2(n) - 1
  }

  lemma DividedQuotient(a: nat, b: nat, q: nat, r: nat, n: nat)
    requires Divider.Divided(a, b, q, r, n)
    ensures q == QuotientOf(a, b, n)
  {
  }

  lemma DivisionOnColumn(s: Scratch, col: Column, lay: Divider.Layout)
    requires DivisionFits(lay, |s.rows|, |col|)
    ensures var col' := ColumnAfter(s, col, Divider.Division(Shifted(lay, |s.rows|)));
            LaneDivided(col, col', lay)
  {
    hide Run, Value, Divider.Division, Divider.Divided, QuotientOf;
    var p := Divider.Division(Shifted(lay, |s.rows|));
    var l := Attach(s, col);
    Divider.DivisionDivides(l, Shifted(lay, |s.rows|));
    ColumnValue(s, col, p, lay.out, lay.n);
    ColumnValue(s, col, p, lay.v1, lay.n);
    ColumnValue(s, col, p, lay.v2, lay.n);
    DividedQuotient(Value(col, lay.v1, lay.n), Value(col, lay.v2, lay.n),
                    Value(ColumnAfter(s, col, p), lay.out, lay.n), Value(Run(l, p).mem, lay.rest, lay.n), lay.n);
  }

  /** One lane's quotient rows are its quotient and nothing else in its column changed. */
  ghost predicate LaneDivided(col: Column, col': Column, lay: Divider.Layout) {
    && lay.v1 + lay.n <= lay.v2 && lay.v2 + lay.n <= lay.out && lay.out + lay.n <= |col| == |col'|
    && Value(col', lay.out, lay.n) == QuotientOf(Value(col, lay.v1, lay.n), Value(col, lay.v2, lay.n), lay.n)
    && OnlyChanged(col, col', lay.out, lay.n)
  }

  // ----- No program looks at what an earlier chunk left

  lemma AdditionInsensitive(k: nat, data: nat, v1: nat, v2: nat, out: nat, n: nat)
    requires RippleLayout(data, v1, v2, n, out, n)
    ensures Insensitive(Addition(k + v1, k + v2, k + out, n), k, data)
  {
    hide Addition, ColumnAfter, Value, OnlyChanged;
    var p := Addition(k + v1, k + v2, k + out, n);
    forall s1: Scratch, s2: Scratch, col: Column | |s1.rows| == |s2.rows| == k && |col| == data
      ensures ColumnAfter(s1, col, p) == ColumnAfter(s2, col, p)
    {
      AdditionOnColumn(s1, col, v1, v2, out, n);
      AdditionOnColumn(s2, col, v1, v2, out, n);
      SameColumn(col, ColumnAfter(s1, col, p), ColumnAfter(s2, col, p), out, n);
    }
  }

  lemma SubtractionInsensitive(k: nat, data: nat, v1: nat, v2: nat, out: nat, n: nat)
    requires RippleLayout(data, v1, v2, n, out, n)
    ensures Insensitive(Subtraction(k + v1, k + v2, k + out, n), k, data)
  {
    hide Subtraction, ColumnAfter, Value, OnlyChanged;
    var p := Subtraction(k + v1, k + v2, k + out, n);
    forall s1: Scratch, s2: Scratch, col: Column | |s1.rows| == |s2.rows| == k && |col| == data
      ensures ColumnAfter(s1, col, p) == ColumnAfter(s2, col, p)
    {
      SubtractionOnColumn(s1, col, v1, v2, out, n);
      SubtractionOnColumn(s2, col, v1, v2, out, n);
      SameColumn(col, ColumnAfter(s1, col, p), ColumnAfter(s2, col, p), out, n);
    }
  }

  lemma MultiplicationInsensitive(k: nat, data: nat, v1: nat, v2: nat, out: nat, n: nat)
    requires Multiplier.Fits(data, v1, v2, out, n)
    ensures Insensitive(Multiplier.Multiplication(k + v1, k + v2, k + out, n), k, data)
  {
    hide Multiplier.Multiplication, ColumnAfter, Value, OnlyChanged;
    var p := Multiplier.Multiplication(k + v1, k + v2, k + out, n);
    forall s1: Scratch, s2: Scratch, col: Column | |s1.rows| == |s2.rows| == k && |col| == data
      ensures ColumnAfter(s1, col, p) == ColumnAfter(s2, col, p)
    {
      MultiplicationOnColumn(s1, col, v1, v2, out, n);
      MultiplicationOnColumn(s2, col, v1, v2, out, n);
      SameColumn(col, ColumnAfter(s1, col, p), ColumnAfter(s2, col, p), out, 2 * n);
    }
  }

  lemma DivisionInsensitive(lay: Divider.Layout, k: nat, data: nat)
    requires DivisionFits(lay, k, data)
    ensures Insensitive(Divider.Division(Shifted(lay, k)), k, data)
  {
    hide Divider.Division, ColumnAfter, Value, OnlyChanged, QuotientOf;
    var p := Divider.Division(Shifted(lay, k));
    forall s1: Scratch, s2: Scratch, col: Column | |s1.rows| == |s2.rows| == k && |col| == data
      ensures ColumnAfter(s1, col, p) == ColumnAfter(s2, col, p)
    {
      DivisionOnColumn(s1, col, lay);
      DivisionOnColumn(s2, col, lay);
      SameColumn(col, ColumnAfter(s1, col, p), ColumnAfter(s2, col, p), lay.out, lay.n);
    }
  }

  // ----- The whole memory

  /** The rows of an insensitive program do not depend on what the slots held, at the start or from earlier chunks. */
  lemma SlotsDoNotMatter(slots: seq<seq<Scratch>>, slots': seq<seq<Scratch>>, columns: seq<seq<Column>>, p: Program,
                         r: nat, k: nat, data: nat)
    requires Insensitive(p, k, data) && r < |columns|
    requires Aligned(slots, columns) && Shaped(slots, columns, k, data)
    requires Aligned(slots', columns) && Shaped(slots', columns, k, data)
    ensures ColumnRow(SlotBefore(slots, columns, p, r), columns[r], p)
            == ColumnRow(SlotBefore(slots', columns, p, r), columns[r], p)
            == ColumnRow(slots[r % ROWS_PER_VECTOR], columns[r], p)
  {
    hide SlotBefore;
    var a, b, c := SlotBefore(slots, columns, p, r), SlotBefore(slots', columns, p, r), slots[r % ROWS_PER_VECTOR];
    SlotShaped(slots, columns, p, r, k, data);
    SlotShaped(slots', columns, p, r, k, data);
    RowIgnores(a, b, columns[r], p, k, data);
    RowIgnores(a, c, columns[r], p, k, data);
  }

  lemma RowIgnores(ss: seq<Scratch>, ss': seq<Scratch>, cols: seq<Column>, p: Program, k: nat, data: nat)
    requires Insensitive(p, k, data) && |ss| == |ss'| == |cols|
    requires forall i :: 0 <= i < |ss| ==> |ss[i].rows| == |ss'[i].rows| == k
    requires forall i :: 0 <= i < |cols| ==> |cols[i]| == data
    ensures ColumnRow(ss, cols, p) == ColumnRow(ss', cols, p)
  {
    hide ColumnAfter;
    forall i | 0 <= i < |cols|
      ensures ColumnRow(ss, cols, p)[i] == ColumnRow(ss', cols, p)[i]
    {
      assert |ss[i].rows| == k && |ss'[i].rows| == k;
      assert ColumnAfter(ss[i], cols[i], p) == ColumnAfter(ss'[i], cols[i], p);
    }
  }

  /** Every lane of a row has been divided. */
  ghost predicate RowDivided(cols: seq<Column>, cols': seq<Column>, lay: Divider.Layout) {
    |cols'| == |cols| && forall i :: 0 <= i < |cols| ==> LaneDivided(cols[i], cols'[i], lay)
  }

  lemma RowDivides(ss: seq<Scratch>, cols: seq<Column>, lay: Divider.Layout, k: nat, data: nat)
    requires |ss| == |cols| && DivisionFits(lay, k, data)
    requires forall i :: 0 <= i < |ss| ==> |ss[i].rows| == k
    requires forall i :: 0 <= i < |cols| ==> |cols[i]| == data
    ensures RowDivided(cols, ColumnRow(ss, cols, Divider.Division(Shifted(lay, k))), lay)
  {
    hide ColumnAfter, Divider.Division, LaneDivided;
    forall i | 0 <= i < |cols|
      ensures LaneDivided(cols[i], ColumnRow(ss, cols, Divider.Division(Shifted(lay, k)))[i], lay)
    {
      DivisionOnColumn(ss[i], cols[i], lay);
    }
  }

  /** 16_divu on any number of rows: every lane of every row ends with its own quotient. */
  method DivideEverywhere(mem: Memory, lay: Divider.Layout, k: nat, data: nat)
    requires mem.Valid() && Shaped(mem.slots[..], mem.columns[..], k, data) && DivisionFits(lay, k, data)
    modifies mem.slots, mem.columns
    ensures mem.Valid()
    ensures forall r :: 0 <= r < mem.columns.Length ==> RowDivided(old(mem.columns[r]), mem.columns[r], lay)
  {
    hide RowDivided, ColumnRow;
    ghost var slots0, columns0 := mem.slots[..], mem.columns[..];
    var p := Divider.Division(Shifted(lay, k));
    mem.ForAllVectors(p);
    forall r | 0 <= r < mem.columns.Length
      ensures RowDivided(columns0[r], mem.columns[r], lay)
    {
      SlotShaped(slots0, columns0, p, r, k, data);
      RowDivides(SlotBefore(slots0, columns0, p, r), columns0[r], lay, k, data);
    }
  }
}
