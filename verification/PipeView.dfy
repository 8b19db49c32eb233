/**
  The pipeline viewer's printing: the queue of ReorderBuffer, emptied through the filters on
  sequence number, fetch tick and commitment.
 */
module PipeView {
  import opened ReorderBuffer

  /** A bound of zero or less is no bound. */
  datatype Filters = Filters(snStart: int, snStop: int, tickStart: int, tickStop: int, onlyCommitted: int)

  predicate Passes(f: Filters, x: Inst) {
    && !(f.snStart > 0 && x.sn < f.snStart)
    && !(f.snStop > 0 && x.sn > f.snStop)
    && !(f.tickStart > 0 && x.fetch < f.tickStart)
    && !(f.tickStop > 0 && x.fetch > f.tickStop)
    && !(f.onlyCommitted != 0 && x.retire == 0)
  }

  ghost function Select(f: Filters, s: seq<Inst>): seq<Inst> {
    if s == [] then []
    else Select(f, s[..|s| - 1]) + if Passes(f, s[|s| - 1]) then [s[|s| - 1]] else []
  }

  lemma SelectNext(f: Filters, s: seq<Inst>, x: Inst)
    ensures Select(f, s + [x]) == Select(f, s) + if Passes(f, x) then [x] else []
  {
    hide Passes;
    assert (s + [x])[..|s|] == s;
  }

  lemma {:induction false} SelectCounts(f: Filters, s: seq<Inst>, x: Inst)
    ensures multiset(Select(f, s))[x] == if Passes(f, x) then multiset(s)[x] else 0
  {
    if s != [] {
      hide Passes;
      SelectCounts(f, s[..|s| - 1], x);
      assert s == s[..|s| - 1] + [s[|s| - 1]];
    }
  }

  lemma {:induction false} SelectOrdered(f: Filters, s: seq<Inst>)
    requires Ordered(s)
    ensures Ordered(Select(f, s))
    ensures forall x :: x in Select(f, s) ==> x in s
  {
    if s != [] {
      hide Passes;
      SelectOrdered(f, s[..|s| - 1]);
      assert forall x :: x in s[..|s| - 1] ==> x in s && x.sn <= s[|s| - 1].sn;
    }
  }

  /** The printed lines of a whole trace. */
  ghost function Printed(f: Filters, trace: seq<Inst>, min: nat, max: nat): seq<Inst> {
    Select(f, Popped(trace, min, max))
  }

  /** Every traced instruction that passes the filters is printed as often as traced; no other is. */
  lemma PrintedOnceEach(f: Filters, trace: seq<Inst>, min: nat, max: nat, x: Inst)
    ensures multiset(Printed(f, trace, min, max))[x]
            == if && (f.snStart <= 0 || f.snStart <= x.sn) && (f.snStop <= 0 || x.sn <= f.snStop)
                  && (f.tickStart <= 0 || f.tickStart <= x.fetch) && (f.tickStop <= 0 || x.fetch <= f.tickStop)
                  && (f.onlyCommitted == 0 || x.retire > 0)
               then multiset(trace)[x] else 0
  {
    hide Popped, Select;
    PoppedIsThePermutedTrace(trace, min, max);
    SelectCounts(f, Popped(trace, min, max), x);
  }

  /**
    With the script's thresholds, if no instruction is more than 1000 places late, what is printed is
    the sorted trace without the instructions that the filters hold back.
   */
  lemma PrintedInOrder(f: Filters, trace: seq<Inst>)
    requires forall i :: 0 <= i < |trace| ==> i <= Rank(trace, i) + 1000
    ensures var printed := Printed(f, trace, 1000, 2000);
            printed == Select(f, SortBySn(trace)) && Ordered(printed)
  {
    hide Popped, Rank, Passes, Select, Ordered, SortBySn;
    AtMostMinLate(trace, 1000, 2000);
    SortOrdered(trace);
    SelectOrdered(f, SortBySn(trace));
  }

  class Viewer {
    const filters: Filters
    const minThreshold: nat
    const maxThreshold: nat
    var queue: seq<Inst>
    var printed: seq<Inst>
    ghost var popped: seq<Inst>

    ghost predicate Valid()
      reads this
    {
      printed == Select(filters, popped)
    }

    ghost function Machine(): State
      reads this
    {
      State(popped, queue)
    }

    constructor (filters: Filters, minThreshold: nat := 1000, maxThreshold: nat := 2000)
      ensures Valid() && Machine() == State([], []) && printed == []
      ensures this.filters == filters
      ensures this.minThreshold == minThreshold && this.maxThreshold == maxThreshold
    {
      this.filters := filters;
      this.minThreshold, this.maxThreshold := minThreshold, maxThreshold;
      queue, printed, popped := [], [], [];
    }

    /** Sort the queue and print from its front until no more than lower are left. */
    method PrintInsts(lower: nat)
      requires Valid()
      modifies this
      ensures Valid() && Machine() == Flush(old(Machine()), lower)
    {
      hide Select, SortBySn;
      queue := SortBySn(queue);
      ghost var all, before := queue, popped;
      ghost var k := 0;
      while |queue| > lower
        invariant 0 <= k <= |all| && queue == all[k..] && popped == before + all[..k]
        invariant k == 0 || |queue| >= lower
        invariant Valid()
      {
        var item := queue[0];
        queue := queue[1..];
        SelectNext(filters, popped, item);
        popped := popped + [item];
        k := k + 1;
        if filters.snStart > 0 && item.sn < filters.snStart {
          continue;
        }
        if filters.snStop > 0 && item.sn > filters.snStop {
          continue;
        }
        if filters.tickStart > 0 && item.fetch < filters.tickStart {
          continue;
        }
        if filters.tickStop > 0 && item.fetch > filters.tickStop {
          continue;
        }
        if filters.onlyCommitted != 0 && item.retire == 0 {
          continue;
        }
        printed := printed + [item];
      }
    }

    method QueueInst(x: Inst)
      requires Valid()
      modifies this
      ensures Valid() && Machine() == Arrive(old(Machine()), x, minThreshold, maxThreshold)
    {
      queue := queue + [x];
      if |queue| > maxThreshold {
        PrintInsts(minThreshold);
      }
    }

    /** Queue every instruction of the trace, then print all that is left. */
    method ProcessTrace(trace: seq<Inst>)
      requires Valid() && Machine() == State([], [])
      modifies this
      ensures Valid() && queue == [] && popped == Popped(trace, minThreshold, maxThreshold)
      ensures printed == Printed(filters, trace, minThreshold, maxThreshold)
      ensures forall x :: multiset(printed)[x]
                == if && (filters.snStart <= 0 || filters.snStart <= x.sn)
                      && (filters.snStop <= 0 || x.sn <= filters.snStop)
                      && (filters.tickStart <= 0 || filters.tickStart <= x.fetch)
                      && (filters.tickStop <= 0 || x.fetch <= filters.tickStop)
                      && (filters.onlyCommitted == 0 || x.retire > 0)
                   then multiset(trace)[x] else 0
    {
      var i := 0;
      while i < |trace|
        invariant 0 <= i <= |trace|
        invariant Valid() && Machine() == After(trace[..i], minThreshold, maxThreshold)
      {
        AfterNext(trace, i, minThreshold, maxThreshold);
        QueueInst(trace[i]);
        i := i + 1;
      }
      assert trace[..i] == trace;
      PrintInsts(0);
      forall x
        ensures multiset(printed)[x] == if Passes(filters, x) then multiset(trace)[x] else 0
      {
        PrintedOnceEach(filters, trace, minThreshold, maxThreshold, x);
      }
    }
  }
}
