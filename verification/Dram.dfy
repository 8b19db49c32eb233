/**
  The row vocabulary and the two row commands of a processing-using-DRAM
  subarray, seen from one bit lane.

  A lane is one bit position of every row: four scratch cells T0..T3, two
  dual-contact cells DCC0 and DCC1, and the ordinary data rows.  Activating a
  triple of cells leaves all three with their majority; going through the
  negated port of a dual-contact cell complements the value.
 */
module Dram {
  import opened Bits

  /** The row addresses a command may name. */
  datatype Address =
    | T0 | T1 | T2 | T3
    | DCC0 | DCC0N | DCC1 | DCC1N
    | DCC0N_T0 | DCC1N_T1 | T2_T3 | T0_T3
    | T0_T1_T2 | T1_T2_T3 | DCC0_T1_T2 | DCC1_T0_T3
    | C0 | C1
    | Row(row: nat)

  /** The cells of the bit-wise computation group. */
  datatype Cells = Cells(t0: Bit, t1: Bit, t2: Bit, t3: Bit, dcc0: Bit, dcc1: Bit)

  datatype Lane = Lane(cells: Cells, mem: seq<Bit>)

  datatype Command = AAP(dst: Address, src: Address) | AP(addr: Address)

  /** A finite run of commands, built as the drivers' loops build it. */
  datatype Program = Nop | Do(command: Command) | Then(first: Program, second: Program)

  /** The rows of an address exist in a lane with n data rows. */
  predicate InBounds(a: Address, n: nat) {
    a.Row? ==> a.row < n
  }

  /** Two cells opened together share charge with no defined winner, so no command reads a pair. */
  predicate Readable(a: Address) {
    a !in {DCC0N_T0, DCC1N_T1, T2_T3, T0_T3}
  }

  /** A constant row is never written. */
  predicate Writable(a: Address) {
    a !in {C0, C1}
  }

  /** Three cells sharing one bit line. */
  predicate Triple(a: Address) {
    a.T0_T1_T2? || a.T1_T2_T3? || a.DCC0_T1_T2? || a.DCC1_T0_T3?
  }

  predicate Legal(c: Command, n: nat) {
    match c
    case AAP(dst, src) => Readable(src) && Writable(dst) && InBounds(dst, n) && InBounds(src, n)
    case AP(addr) => Readable(addr) && InBounds(addr, n)
  }

  /** The value a read of a cell address puts on the bit line. */
  function SenseCells(c: Cells, a: Address): Bit {
    match a
    case T0 => c.t0
    case T1 => c.t1
    case T2 => c.t2
    case T3 => c.t3
    case DCC0 => c.dcc0
    case DCC0N => Not(c.dcc0)
    case DCC1 => c.dcc1
    case DCC1N => Not(c.dcc1)
    case DCC0N_T0 => c.t0
    case DCC1N_T1 => c.t1
    case T2_T3 => c.t2
    case T0_T3 => c.t0
    case T0_T1_T2 => Maj(c.t0, c.t1, c.t2)
    case T1_T2_T3 => Maj(c.t1, c.t2, c.t3)
    case DCC0_T1_T2 => Maj(c.dcc0, c.t1, c.t2)
    case DCC1_T0_T3 => Maj(c.dcc1, c.t0, c.t3)
    case C0 => Zero
    case C1 => One
    case Row(_) => Zero
  }

  function Sense(l: Lane, a: Address): Bit {
    if !a.Row? then SenseCells(l.cells, a) else if a.row < |l.mem| then l.mem[a.row] else Zero
  }

  /** The bit line at value v overwrites every cell of the address. */
  function DriveCells(c: Cells, a: Address, v: Bit): Cells {
    match a
    case T0 => c.(t0 := v)
    case T1 => c.(t1 := v)
    case T2 => c.(t2 := v)
    case T3 => c.(t3 := v)
    case DCC0 => c.(dcc0 := v)
    case DCC0N => c.(dcc0 := Not(v))
    case DCC1 => c.(dcc1 := v)
    case DCC1N => c.(dcc1 := Not(v))
    case DCC0N_T0 => c.(dcc0 := Not(v), t0 := v)
    case DCC1N_T1 => c.(dcc1 := Not(v), t1 := v)
    case T2_T3 => c.(t2 := v, t3 := v)
    case T0_T3 => c.(t0 := v, t3 := v)
    case T0_T1_T2 => c.(t0 := v, t1 := v, t2 := v)
    case T1_T2_T3 => c.(t1 := v, t2 := v, t3 := v)
    case DCC0_T1_T2 => c.(dcc0 := v, t1 := v, t2 := v)
    case DCC1_T0_T3 => c.(dcc1 := v, t0 := v, t3 := v)
    case _ => c
  }

  function DriveRow(m: seq<Bit>, a: Address, v: Bit): (m': seq<Bit>)
    ensures |m'| == |m|
  {
    if a.Row? && a.row < |m| then m[a.row := v] else m
  }

  /** A cell opened alone gets back what it held; three opened together all keep their majority. */
  function Restore(c: Cells, a: Address): Cells {
    if Triple(a) then DriveCells(c, a, SenseCells(c, a)) else c
  }

  /** AP activates an address; AAP activates src, then dst while the bit line still holds the value. */
  function Step(l: Lane, c: Command): (l': Lane)
    ensures |l'.mem| == |l.mem|
  {
    match c
    case AAP(dst, src) =>
      var v := Sense(l, src);
      Lane(DriveCells(Restore(l.cells, src), dst, v), DriveRow(l.mem, dst, v))
    case AP(addr) =>
      Lane(Restore(l.cells, addr), l.mem)
  }

  function Run(l: Lane, p: Program): (l': Lane)
    ensures |l'.mem| == |l.mem|
    decreases p
  {
    match p
    case Nop => l
    case Do(c) => Step(l, c)
    case Then(first, second) => Run(Run(l, first), second)
  }

  lemma RunNop(l: Lane)
    ensures Run(l, Nop) == l
  {
  }

  lemma RunDo(l: Lane, c: Command)
    ensures Run(l, Do(c)) == Step(l, c)
  {
    hide Step;
  }

  lemma RunThen(l: Lane, p: Program, q: Program)
    ensures Run(l, Then(p, q)) == Run(Run(l, p), q)
  {
  }

  /** Writing a data row leaves the cells alone unless a triple is read. */
  lemma WriteRow(l: Lane, r: nat, src: Address)
    requires r < |l.mem| && !Triple(src)
    ensures Step(l, AAP(Row(r), src)) == Lane(l.cells, l.mem[r := Sense(l, src)])
  {
    hide SenseCells;
  }

  /** Every command of the program names rows that exist, reads no pair and writes no constant. */
  predicate Issuable(p: Program, n: nat) {
    match p
    case Nop => true
    case Do(c) => Legal(c, n)
    case Then(first, second) => Issuable(first, n) && Issuable(second, n)
  }

  /** Some command of the program reads or writes data row r. */
  predicate Touches(p: Program, r: nat) {
    match p
    case Nop => false
    case Do(AAP(dst, src)) => dst == Row(r) || src == Row(r)
    case Do(AP(addr)) => addr == Row(r)
    case Then(first, second) => Touches(first, r) || Touches(second, r)
  }

  // Straight-line blocks of commands.

  function Block2(a: Command, b: Command): Program {
    Then(Do(a), Do(b))
  }

  function Block3(a: Command, b: Command, c: Command): Program {
    Then(Do(a), Block2(b, c))
  }

  function Block4(a: Command, b: Command, c: Command, d: Command): Program {
    Then(Block2(a, b), Block2(c, d))
  }

  function Block8(a: Command, b: Command, c: Command, d: Command,
                  e: Command, f: Command, g: Command, h: Command): Program
  {
    Then(Block4(a, b, c, d), Block4(e, f, g, h))
  }

  function Steps2(l: Lane, a: Command, b: Command): Lane {
    Step(Step(l, a), b)
  }

  function Steps3(l: Lane, a: Command, b: Command, c: Command): Lane {
    Step(Step(Step(l, a), b), c)
  }

  function Steps4(l: Lane, a: Command, b: Command, c: Command, d: Command): Lane {
    Step(Step(Step(Step(l, a), b), c), d)
  }

  lemma RunBlock2(l: Lane, a: Command, b: Command)
    ensures Run(l, Block2(a, b)) == Steps2(l, a, b)
  {
    hide Step;
    assert Run(l, Do(a)) == Step(l, a);
  }

  lemma RunBlock3(l: Lane, a: Command, b: Command, c: Command)
    ensures Run(l, Block3(a, b, c)) == Steps3(l, a, b, c)
  {
    hide Step;
    RunBlock2(Step(l, a), b, c);
    assert Run(l, Do(a)) == Step(l, a);
  }

  lemma RunBlock4(l: Lane, a: Command, b: Command, c: Command, d: Command)
    ensures Run(l, Block4(a, b, c, d)) == Steps4(l, a, b, c, d)
  {
    hide Step;
    RunBlock2(l, a, b);
    RunBlock2(Steps2(l, a, b), c, d);
  }

  lemma RunBlock8(l: Lane, a: Command, b: Command, c: Command, d: Command,
                  e: Command, f: Command, g: Command, h: Command)
    ensures Run(l, Block8(a, b, c, d, e, f, g, h)) == Steps4(Steps4(l, a, b, c, d), e, f, g, h)
  {
    hide Step;
    RunBlock4(l, a, b, c, d);
    RunBlock4(Steps4(l, a, b, c, d), e, f, g, h);
  }

  lemma IssuableBlock2(a: Command, b: Command, n: nat)
    requires Legal(a, n) && Legal(b, n)
    ensures Issuable(Block2(a, b), n)
  {
    assert Issuable(Do(a), n) && Issuable(Do(b), n);
  }

  lemma IssuableBlock3(a: Command, b: Command, c: Command, n: nat)
    requires Legal(a, n) && Legal(b, n) && Legal(c, n)
    ensures Issuable(Block3(a, b, c), n)
  {
    assert Issuable(Do(a), n);
    IssuableBlock2(b, c, n);
  }

  lemma IssuableBlock4(a: Command, b: Command, c: Command, d: Command, n: nat)
    requires Legal(a, n) && Legal(b, n) && Legal(c, n) && Legal(d, n)
    ensures Issuable(Block4(a, b, c, d), n)
  {
    IssuableBlock2(a, b, n);
    IssuableBlock2(c, d, n);
  }

  lemma TouchesBlock4(a: Command, b: Command, c: Command, d: Command, r: nat)
    ensures Touches(Block4(a, b, c, d), r)
            <==> Touches(Do(a), r) || Touches(Do(b), r) || Touches(Do(c), r) || Touches(Do(d), r)
  {
    assert Touches(Block2(a, b), r) <==> Touches(Do(a), r) || Touches(Do(b), r);
    assert Touches(Block2(c, d), r) <==> Touches(Do(c), r) || Touches(Do(d), r);
  }

  /** One lane of the subarray as the drivers see it: they only ever issue commands. */
  class Subarray {
    var t0: Bit
    var t1: Bit
    var t2: Bit
    var t3: Bit
    var dcc0: Bit
    var dcc1: Bit
    var mem: seq<Bit>

    function State(): Lane
      reads this
    {
      Lane(Cells(t0, t1, t2, t3, dcc0, dcc1), mem)
    }

    method Overwrite(a: Address, v: Bit)
      requires Writable(a) && InBounds(a, |mem|)
      modifies this
      ensures State() == Lane(DriveCells(old(State()).cells, a, v), DriveRow(old(mem), a, v))
    {
      match a
      case T0 => t0 := v;
      case T1 => t1 := v;
      case T2 => t2 := v;
      case T3 => t3 := v;
      case DCC0 => dcc0 := v;
      case DCC0N => dcc0 := Not(v);
      case DCC1 => dcc1 := v;
      case DCC1N => dcc1 := Not(v);
      case DCC0N_T0 => dcc0, t0 := Not(v), v;
      case DCC1N_T1 => dcc1, t1 := Not(v), v;
      case T2_T3 => t2, t3 := v, v;
      case T0_T3 => t0, t3 := v, v;
      case T0_T1_T2 => t0, t1, t2 := v, v, v;
      case T1_T2_T3 => t1, t2, t3 := v, v, v;
      case DCC0_T1_T2 => dcc0, t1, t2 := v, v, v;
      case DCC1_T0_T3 => dcc1, t0, t3 := v, v, v;
      case Row(r) => mem := mem[r := v];
    }

    /** rowop_aap: activate src, then activate dst while the bit line still holds the value. */
    method Aap(dst: Address, src: Address)
      requires Legal(AAP(dst, src), |mem|)
      modifies this
      ensures State() == Step(old(State()), AAP(dst, src))
    {
      var v := Sense(State(), src);
      if Triple(src) {
        Overwrite(src, v);
      }
      Overwrite(dst, v);
    }

    /** rowop_ap: activate, leaving every cell of the address with the sensed value. */
    method Ap(addr: Address)
      requires Legal(AP(addr), |mem|)
      modifies this
      ensures State() == Step(old(State()), AP(addr))
    {
      if Triple(addr) {
        Overwrite(addr, Sense(State(), addr));
      }
    }

    /** A straight run of row commands. */
    method Issue(p: Program)
      requires Issuable(p, |mem|)
      modifies this
      ensures State() == Run(old(State()), p)
      decreases p
    {
      match p
      case Nop =>
      case Do(AAP(dst, src)) => Aap(dst, src);
      case Do(AP(addr)) => Ap(addr);
      case Then(first, second) =>
        Issue(first);
        Issue(second);
    }
  }
}
