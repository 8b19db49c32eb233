/**
  The print queue of the pipeline viewer: instructions arrive out of order, and once more than
  maxThreshold are waiting they are sorted and printed down to minThreshold.
 */
module ReorderBuffer {
  import opened Bits

  datatype Inst = Inst(sn: nat, fetch: nat, retire: nat)

  // ----- Sorting by sequence number

  /** Insert x after the entries it does not precede: a stable insertion. */
  function Insert(x: Inst, s: seq<Inst>): (r: seq<Inst>)
    ensures |r| == |s| + 1
  {
    if s == [] || s[|s| - 1].sn <= x.sn then s + [x]
    else Insert(x, s[..|s| - 1]) + [s[|s| - 1]]
  }

  /** What list.sort leaves for the comparison by sequence number. */
  function SortBySn(s: seq<Inst>): (r: seq<Inst>)
    ensures |r| == |s|
  {
    if s == [] then [] else Insert(s[|s| - 1], SortBySn(s[..|s| - 1]))
  }

  lemma LastApart(s: seq<Inst>)
    requires s != []
    ensures multiset(s) == multiset(s[..|s| - 1]) + multiset{s[|s| - 1]}
  {
    assert s == s[..|s| - 1] + [s[|s| - 1]];
  }

  lemma {:induction false} InsertKeeps(x: Inst, s: seq<Inst>)
    ensures multiset(Insert(x, s)) == multiset(s) + multiset{x}
  {
    if s != [] && s[|s| - 1].sn > x.sn {
      InsertKeeps(x, s[..|s| - 1]);
      LastApart(s);
    }
  }

  lemma {:induction false} SortKeeps(s: seq<Inst>)
    ensures multiset(SortBySn(s)) == multiset(s)
  {
    if s != [] {
      SortKeeps(s[..|s| - 1]);
      InsertKeeps(s[|s| - 1], SortBySn(s[..|s| - 1]));
      LastApart(s);
    }
  }

  ghost predicate Ordered(s: seq<Inst>) {
    forall i, j :: 0 <= i < j < |s| ==> s[i].sn <= s[j].sn
  }

  /** Nothing in a comes after anything in b. */
  ghost predicate Precedes(a: seq<Inst>, b: seq<Inst>) {
    forall i, j :: 0 <= i < |a| && 0 <= j < |b| ==> a[i].sn <= b[j].sn
  }

  lemma {:induction false} InsertOrdered(x: Inst, s: seq<Inst>)
    requires Ordered(s)
    ensures Ordered(Insert(x, s))
  {
    if s != [] && s[|s| - 1].sn > x.sn {
      var r := Insert(x, s[..|s| - 1]);
      InsertOrdered(x, s[..|s| - 1]);
      InsertKeeps(x, s[..|s| - 1]);
      forall i | 0 <= i < |r|
        ensures r[i].sn <= s[|s| - 1].sn
      {
        assert r[i] in multiset(r);
        assert r[i] in multiset(s[..|s| - 1]) || r[i] == x;
      }
    }
  }

  lemma {:induction false} SortOrdered(s: seq<Inst>)
    ensures Ordered(SortBySn(s))
  {
    if s != [] {
      SortOrdered(s[..|s| - 1]);
      InsertOrdered(s[|s| - 1], SortBySn(s[..|s| - 1]));
    }
  }

  // ----- The queue as a state machine

  /** What has left the queue so far, in that order, and what is still waiting. */
  datatype State = State(popped: seq<Inst>, queue: seq<Inst>)

  /** Sort the queue, then take entries from its front while more than lower are waiting. */
  function Flush(st: State, lower: nat): State {
    var q := SortBySn(st.queue);
    var k := if |q| > lower then |q| - lower else 0;
    State(st.popped + q[..k], q[k..])
  }

  function Arrive(st: State, x: Inst, min: nat, max: nat): State {
    var grown := State(st.popped, st.queue + [x]);
    if |grown.queue| > max then Flush(grown, min) else grown
  }

  function After(trace: seq<Inst>, min: nat, max: nat): State {
    if trace == [] then State([], [])
    else Arrive(After(trace[..|trace| - 1], min, max), trace[|trace| - 1], min, max)
  }

  lemma AfterLast(trace: seq<Inst>, min: nat, max: nat)
    requires trace != []
    ensures After(trace, min, max)
            == Arrive(After(trace[..|trace| - 1], min, max), trace[|trace| - 1], min, max)
  {
    hide Arrive;
  }

  /** Everything that leaves the queue over a whole trace, with the final flush. */
  function Popped(trace: seq<Inst>, min: nat, max: nat): seq<Inst> {
    Flush(After(trace, min, max), 0).popped
  }

  lemma FlushKeeps(st: State, lower: nat)
    ensures multiset(Flush(st, lower).popped) + multiset(Flush(st, lower).queue)
            == multiset(st.popped) + multiset(st.queue)
    ensures st.popped <= Flush(st, lower).popped
  {
    var q := SortBySn(st.queue);
    var k := if |q| > lower then |q| - lower else 0;
    SortKeeps(st.queue);
    assert q == q[..k] + q[k..];
  }

  lemma ArriveKeeps(st: State, x: Inst, min: nat, max: nat)
    ensures multiset(Arrive(st, x, min, max).popped) + multiset(Arrive(st, x, min, max).queue)
            == multiset(st.popped) + multiset(st.queue) + multiset{x}
    ensures st.popped <= Arrive(st, x, min, max).popped
  {
    hide Flush;
    FlushKeeps(State(st.popped, st.queue + [x]), min);
  }

  /** Between flushes no entry is lost or made up. */
  lemma {:induction false} AfterKeeps(trace: seq<Inst>, min: nat, max: nat)
    ensures multiset(After(trace, min, max).popped) + multiset(After(trace, min, max).queue) == multiset(trace)
  {
    if trace != [] {
      hide Arrive, After;
      AfterLast(trace, min, max);
      AfterKeeps(trace[..|trace| - 1], min, max);
      ArriveKeeps(After(trace[..|trace| - 1], min, max), trace[|trace| - 1], min, max);
      LastApart(trace);
    }
  }

  /** Over a whole trace exactly the traced instructions leave the queue, each as often as traced. */
  lemma PoppedIsThePermutedTrace(trace: seq<Inst>, min: nat, max: nat)
    ensures multiset(Popped(trace, min, max)) == multiset(trace)
  {
    AfterKeeps(trace, min, max);
    FlushKeeps(After(trace, min, max), 0);
    assert Flush(After(trace, min, max), 0).queue == [];
  }

  // ----- How many have left the queue

  /** The number of entries gone after n arrivals: they leave max + 1 - min at a time. */
  function Gone(n: nat, min: nat, max: nat): nat
    requires min <= max
  {
    if n < min then 0 else (n - min) / (max + 1 - min) * (max + 1 - min)
  }

  lemma NoneGone(min: nat, max: nat)
    requires min <= max
    ensures Gone(0, min, max) == 0
  {
    DivisionIs(0, max + 1 - min, 0, 0);
  }

  lemma GoneNext(n: nat, min: nat, max: nat)
    requires min <= max
    ensures Gone(n, min, max) <= n && n - Gone(n, min, max) <= max
    ensures Gone(n + 1, min, max)
            == if n + 1 - Gone(n, min, max) > max then n + 1 - min else Gone(n, min, max)
  {
    var c := max + 1 - min;
    if n >= min {
      var q, r := (n - min) / c, (n - min) % c;
      assert n - min == q * c + r;
      if r + 1 == c {
        DivisionIs(n + 1 - min, c, q + 1, 0);
      } else {
        DivisionIs(n + 1 - min, c, q, r + 1);
      }
    } else {
      DivisionIs(0, c, 0, 0);
    }
  }

  lemma DivisionIs(a: nat, c: nat, q: nat, r: nat)
    requires r < c && a == q * c + r
    ensures a / c == q
  {
    DivModUnique(a, c, q, r);
  }

  lemma {:induction false} GoneMonotone(n: nat, m: nat, min: nat, max: nat)
    requires min <= max && n <= m
    ensures Gone(n, min, max) <= Gone(m, min, max)
    decreases m - n
  {
    if n < m {
      GoneNext(m - 1, min, max);
      GoneMonotone(n, m - 1, min, max);
    }
  }

  lemma ArriveLengths(st: State, x: Inst, min: nat, max: nat)
    requires min <= max
    ensures var st' := Arrive(st, x, min, max);
            && |st'.popped| + |st'.queue| == |st.popped| + |st.queue| + 1
            && |st'.queue| == if |st.queue| + 1 > max then min else |st.queue| + 1
  {
  }

  lemma {:induction false} PoppedLength(trace: seq<Inst>, min: nat, max: nat)
    requires min <= max
    ensures |After(trace, min, max).popped| == Gone(|trace|, min, max)
    ensures |After(trace, min, max).queue| == |trace| - Gone(|trace|, min, max)
  {
    hide Gone, Arrive;
    if trace == [] {
      NoneGone(min, max);
    } else {
      hide After;
      AfterLast(trace, min, max);
      ArriveLengths(After(trace[..|trace| - 1], min, max), trace[|trace| - 1], min, max);
      PoppedLength(trace[..|trace| - 1], min, max);
      GoneNext(|trace| - 1, min, max);
    }
  }

  // ----- Ranks

  /** How many entries of s have a sequence number of at most v. */
  function AtMost(s: seq<Inst>, v: nat): nat {
    if s == [] then 0
    else AtMost(s[..|s| - 1], v) + if s[|s| - 1].sn <= v then 1 else 0
  }

  /** How many entries of s have a sequence number below v. */
  function Below(s: seq<Inst>, v: nat): nat {
    if v == 0 then 0 else AtMost(s, v - 1)
  }

  /** The place of entry i in the stably sorted trace. */
  function Rank(trace: seq<Inst>, i: nat): nat
    requires i < |trace|
  {
    AtMost(trace[..i], trace[i].sn) + Below(trace[i + 1..], trace[i].sn)
  }

  lemma {:induction false} AtMostAppend(a: seq<Inst>, b: seq<Inst>, v: nat)
    ensures AtMost(a + b, v) == AtMost(a, v) + AtMost(b, v)
  {
    if b == [] {
      assert a + b == a;
    } else {
      assert (a + b)[..|a + b| - 1] == a + b[..|b| - 1];
      AtMostAppend(a, b[..|b| - 1], v);
    }
  }

  lemma {:induction false} AtMostInsert(x: Inst, s: seq<Inst>, v: nat)
    ensures AtMost(Insert(x, s), v) == AtMost(s, v) + if x.sn <= v then 1 else 0
  {
    if s == [] || s[|s| - 1].sn <= x.sn {
      assert (s + [x])[..|s|] == s;
    } else {
      var r := Insert(x, s[..|s| - 1]);
      AtMostInsert(x, s[..|s| - 1], v);
      assert (r + [s[|s| - 1]])[..|r|] == r;
    }
  }

  lemma {:induction false} AtMostSort(s: seq<Inst>, v: nat)
    ensures AtMost(SortBySn(s), v) == AtMost(s, v)
  {
    if s != [] {
      AtMostSort(s[..|s| - 1], v);
      AtMostInsert(s[|s| - 1], SortBySn(s[..|s| - 1]), v);
    }
  }

  lemma {:induction false} AtMostBounds(s: seq<Inst>, v: nat)
    ensures AtMost(s, v) <= |s|
    ensures (forall i :: 0 <= i < |s| ==> s[i].sn <= v) ==> AtMost(s, v) == |s|
    ensures (forall i :: 0 <= i < |s| ==> s[i].sn > v) ==> AtMost(s, v) == 0
    ensures (exists i :: 0 <= i < |s| && s[i].sn > v) ==> AtMost(s, v) < |s|
  {
    if s != [] {
      AtMostBounds(s[..|s| - 1], v);
      assert forall i :: 0 <= i < |s| - 1 ==> s[..|s| - 1][i] == s[i];
    }
  }

  lemma ArriveCounts(st: State, x: Inst, min: nat, max: nat, v: nat)
    ensures AtMost(Arrive(st, x, min, max).popped, v) + AtMost(Arrive(st, x, min, max).queue, v)
            == AtMost(st.popped, v) + AtMost(st.queue, v) + AtMost([x], v)
  {
    hide AtMost, SortBySn;
    var q := st.queue + [x];
    var s := SortBySn(q);
    var k := if |s| > min then |s| - min else 0;
    AtMostAppend(st.queue, [x], v);
    AtMostSort(q, v);
    AtMostAppend(st.popped, s[..k], v);
    AtMostAppend(s[..k], s[k..], v);
    assert s == s[..k] + s[k..];
  }

  /** The queue machine moves entries about and keeps their counts. */
  lemma {:induction false} AfterCounts(trace: seq<Inst>, min: nat, max: nat, v: nat)
    ensures AtMost(After(trace, min, max).popped, v) + AtMost(After(trace, min, max).queue, v) == AtMost(trace, v)
  {
    if trace != [] {
      hide Arrive, AtMost, After;
      AfterLast(trace, min, max);
      AfterCounts(trace[..|trace| - 1], min, max, v);
      ArriveCounts(After(trace[..|trace| - 1], min, max), trace[|trace| - 1], min, max, v);
      AtMostAppend(trace[..|trace| - 1], [trace[|trace| - 1]], v);
      assert trace == trace[..|trace| - 1] + [trace[|trace| - 1]];
    }
  }

  // ----- When the output is in order

  /** The first smallest entry from place n on. */
  lemma {:induction false} FirstSmallest(trace: seq<Inst>, n: nat) returns (i: nat)
    requires n < |trace|
    ensures n <= i < |trace|
    ensures forall j :: n <= j < i ==> trace[i].sn < trace[j].sn
    ensures forall j :: i < j < |trace| ==> trace[i].sn <= trace[j].sn
    decreases |trace| - n
  {
    if n + 1 == |trace| {
      i := n;
    } else {
      i := FirstSmallest(trace, n + 1);
      if trace[n].sn <= trace[i].sn {
        i := n;
      }
    }
  }

  /** The rank of the first smallest of the entries to come counts entries that have arrived only. */
  lemma RankOfSmallest(trace: seq<Inst>, n: nat, i: nat)
    requires n <= i < |trace|
    requires forall j :: n <= j < i ==> trace[i].sn < trace[j].sn
    requires forall j :: i < j < |trace| ==> trace[i].sn <= trace[j].sn
    ensures Rank(trace, i) == AtMost(trace[..n], trace[i].sn)
  {
    hide AtMost;
    var v := trace[i].sn;
    assert trace[..i] == trace[..n] + trace[n..i];
    AtMostAppend(trace[..n], trace[n..i], v);
    AtMostBounds(trace[n..i], v);
    if v > 0 {
      AtMostBounds(trace[i + 1..], v - 1);
    }
  }

  /** What has left the queue precedes what waits, is in order, and precedes everything to come. */
  ghost predicate Settled(trace: seq<Inst>, n: nat, min: nat, max: nat)
    requires n <= |trace|
  {
    var st := After(trace[..n], min, max);
    Ordered(st.popped) && Precedes(st.popped, st.queue) && Precedes(st.popped, trace[n..])
  }

  /** Entry i, when it arrives, finds no more gone than entries that sort before it. */
  ghost predicate InTime(trace: seq<Inst>, i: nat, min: nat, max: nat)
    requires i < |trace| && min <= max
  {
    Gone(i, min, max) <= Rank(trace, i)
  }

  ghost predicate AllInTime(trace: seq<Inst>, min: nat, max: nat)
    requires min <= max
  {
    forall i :: 0 <= i < |trace| ==> InTime(trace, i, min, max)
  }

  lemma FutureFollows(trace: seq<Inst>, n: nat, min: nat, max: nat)
    requires n <= |trace| && min <= max
    requires AllInTime(trace, min, max)
    requires Ordered(After(trace[..n], min, max).popped)
    requires Precedes(After(trace[..n], min, max).popped, After(trace[..n], min, max).queue)
    ensures Precedes(After(trace[..n], min, max).popped, trace[n..])
  {
    hide After, AtMost, Gone, Rank;
    var st := After(trace[..n], min, max);
    if n < |trace| {
      var i := FirstSmallest(trace, n);
      var v := trace[i].sn;
      RankOfSmallest(trace, n, i);
      assert InTime(trace, i, min, max);
      GoneMonotone(n, i, min, max);
      PoppedLength(trace[..n], min, max);
      AfterCounts(trace[..n], min, max, v);
      AtMostBounds(st.popped, v);
      AtMostBounds(st.queue, v);
      assert forall k :: 0 <= k < |st.popped| ==> st.popped[k].sn <= v;
      assert forall j :: n <= j < |trace| ==> v <= trace[j].sn;
    }
  }

  lemma FlushOrders(st: State, lower: nat)
    requires Ordered(st.popped) && Precedes(st.popped, st.queue)
    ensures Ordered(Flush(st, lower).popped) && Precedes(Flush(st, lower).popped, Flush(st, lower).queue)
  {
    hide SortBySn;
    var q := SortBySn(st.queue);
    SortOrdered(st.queue);
    SortKeeps(st.queue);
    forall j | 0 <= j < |q|
      ensures q[j] in st.queue
    {
      assert q[j] in multiset(q);
      assert q[j] in multiset(st.queue);
    }
  }

  lemma AfterNext(trace: seq<Inst>, n: nat, min: nat, max: nat)
    requires n < |trace|
    ensures After(trace[..n + 1], min, max) == Arrive(After(trace[..n], min, max), trace[n], min, max)
  {
    hide Arrive;
    assert trace[..n + 1][..n] == trace[..n];
  }

  lemma {:induction false} InTimeSettles(trace: seq<Inst>, n: nat, min: nat, max: nat)
    requires n <= |trace| && min <= max
    requires AllInTime(trace, min, max)
    ensures Settled(trace, n, min, max)
  {
    if n > 0 {
      InTimeSettles(trace, n - 1, min, max);
      AfterNext(trace, n - 1, min, max);
      hide After, Flush, AllInTime;
      var st := After(trace[..n - 1], min, max);
      var grown := State(st.popped, st.queue + [trace[n - 1]]);
      assert trace[n - 1..][0] == trace[n - 1];
      FlushOrders(grown, min);
      FutureFollows(trace, n, min, max);
    } else {
      assert trace[..0] == [];
    }
  }

  lemma {:induction false} PoppedGrows(trace: seq<Inst>, n: nat, min: nat, max: nat)
    requires n <= |trace|
    ensures After(trace[..n], min, max).popped <= Popped(trace, min, max)
    decreases |trace| - n
  {
    hide After, Arrive, Flush;
    if n == |trace| {
      assert trace[..n] == trace;
      FlushKeeps(After(trace, min, max), 0);
    } else {
      AfterNext(trace, n, min, max);
      ArriveKeeps(After(trace[..n], min, max), trace[n], min, max);
      PoppedGrows(trace, n + 1, min, max);
    }
  }

  lemma InRest(early: seq<Inst>, rest: seq<Inst>, queue: seq<Inst>, future: seq<Inst>)
    requires multiset(early) + multiset(rest) == multiset(early) + multiset(queue) + multiset(future)
    requires future != []
    ensures future[0] in rest
  {
    var x := future[0];
    assert x in multiset(future);
    assert (multiset(early) + multiset(rest))[x] > multiset(early)[x];
    assert x in multiset(rest);
  }

  /** An entry leaves the queue after everything that had left when it arrived. */
  lemma LeavesLater(trace: seq<Inst>, i: nat, min: nat, max: nat) returns (p: nat)
    requires i < |trace|
    ensures |After(trace[..i], min, max).popped| <= p < |Popped(trace, min, max)|
    ensures Popped(trace, min, max)[p] == trace[i]
  {
    hide After, Popped;
    PoppedGrows(trace, i, min, max);
    var all := Popped(trace, min, max);
    var early := After(trace[..i], min, max).popped;
    var rest := all[|early|..];
    assert trace[i] in rest by {
      PoppedIsThePermutedTrace(trace, min, max);
      AfterKeeps(trace[..i], min, max);
      assert all == early + rest;
      assert trace == trace[..i] + trace[i..];
      InRest(early, rest, After(trace[..i], min, max).queue, trace[i..]);
    }
    var k :| 0 <= k < |rest| && rest[k] == trace[i];
    p := |early| + k;
  }

  lemma OrderedMeansInTime(trace: seq<Inst>, i: nat, min: nat, max: nat)
    requires i < |trace| && min <= max
    requires Ordered(Popped(trace, min, max))
    ensures InTime(trace, i, min, max)
  {
    hide After, Popped, AtMost, Gone;
    var v := trace[i].sn;
    var early := After(trace[..i], min, max).popped;
    var p := LeavesLater(trace, i, min, max);
    PoppedGrows(trace, i, min, max);
    PoppedLength(trace[..i], min, max);
    AfterCounts(trace[..i], min, max, v);
    assert forall k :: 0 <= k < |early| ==> early[k].sn <= Popped(trace, min, max)[p].sn;
    AtMostBounds(early, v);
  }

  /**
    The output of a whole trace is in order exactly when every instruction, on its arrival, finds
    no more instructions gone than sort before it. Nothing is asked of the sequence numbers.
   */
  lemma OrderedExactlyWhen(trace: seq<Inst>, min: nat, max: nat)
    requires min <= max
    ensures Ordered(Popped(trace, min, max))
            <==> forall i :: 0 <= i < |trace| ==> Gone(i, min, max) <= Rank(trace, i)
  {
    hide After, Flush, AtMost, Gone, Rank;
    if forall i :: 0 <= i < |trace| ==> Gone(i, min, max) <= Rank(trace, i) {
      assert forall i :: 0 <= i < |trace| ==> InTime(trace, i, min, max);
      InTimeSettles(trace, |trace|, min, max);
      assert trace[..|trace|] == trace;
      FlushOrders(After(trace, min, max), 0);
    }
    if Ordered(Popped(trace, min, max)) {
      forall i | 0 <= i < |trace|
        ensures Gone(i, min, max) <= Rank(trace, i)
      {
        OrderedMeansInTime(trace, i, min, max);
      }
    }
  }

  // ----- Equal sequence numbers

  /** The entries numbered v, in their order. */
  function Only(s: seq<Inst>, v: nat): seq<Inst> {
    if s == [] then []
    else Only(s[..|s| - 1], v) + if s[|s| - 1].sn == v then [s[|s| - 1]] else []
  }

  lemma OnlyLast(s: seq<Inst>, x: Inst, v: nat)
    ensures Only(s + [x], v) == Only(s, v) + if x.sn == v then [x] else []
  {
    assert (s + [x])[..|s|] == s;
  }

  lemma {:induction false} OnlyAppend(a: seq<Inst>, b: seq<Inst>, v: nat)
    ensures Only(a + b, v) == Only(a, v) + Only(b, v)
  {
    if b == [] {
      assert a + b == a;
    } else {
      var c, x := b[..|b| - 1], b[|b| - 1];
      OnlyAppend(a, c, v);
      OnlyLast(a + c, x, v);
      OnlyLast(c, x, v);
      assert a + b == a + c + [x] && b == c + [x];
    }
  }

  /** Insertion passes only entries with another number. */
  lemma {:induction false} OnlyInsert(x: Inst, s: seq<Inst>, v: nat)
    ensures Only(Insert(x, s), v) == Only(s + [x], v)
  {
    hide Only;
    if s != [] && s[|s| - 1].sn > x.sn {
      var c, y := s[..|s| - 1], s[|s| - 1];
      OnlyInsert(x, c, v);
      OnlyLast(Insert(x, c), y, v);
      OnlyLast(c, x, v);
      OnlyLast(c, y, v);
      OnlyLast(s, x, v);
      assert s == c + [y];
    }
  }

  lemma {:induction false} OnlySort(s: seq<Inst>, v: nat)
    ensures Only(SortBySn(s), v) == Only(s, v)
  {
    if s != [] {
      hide Only, Insert;
      var c, x := s[..|s| - 1], s[|s| - 1];
      OnlySort(c, v);
      OnlyInsert(x, SortBySn(c), v);
      OnlyLast(SortBySn(c), x, v);
      OnlyLast(c, x, v);
      assert s == c + [x];
    }
  }

  lemma FlushStable(st: State, lower: nat, v: nat)
    ensures Only(Flush(st, lower).popped + Flush(st, lower).queue, v) == Only(st.popped + st.queue, v)
  {
    hide Only, SortBySn;
    var q := SortBySn(st.queue);
    var k := if |q| > lower then |q| - lower else 0;
    assert st.popped + q[..k] + q[k..] == st.popped + q;
    OnlyAppend(st.popped, q, v);
    OnlyAppend(st.popped, st.queue, v);
    OnlySort(st.queue, v);
  }

  lemma {:induction false} AfterStable(trace: seq<Inst>, min: nat, max: nat, v: nat)
    ensures Only(After(trace, min, max).popped + After(trace, min, max).queue, v) == Only(trace, v)
  {
    if trace != [] {
      hide Only, After, Flush;
      var c, x := trace[..|trace| - 1], trace[|trace| - 1];
      AfterLast(trace, min, max);
      AfterStable(c, min, max, v);
      var st := After(c, min, max);
      FlushStable(State(st.popped, st.queue + [x]), min, v);
      assert st.popped + (st.queue + [x]) == st.popped + st.queue + [x];
      OnlyLast(st.popped + st.queue, x, v);
      OnlyLast(c, x, v);
      assert trace == c + [x];
    }
  }

  /** Entries with the same sequence number always leave in the order of their arrival. */
  lemma EqualsLeaveInOrder(trace: seq<Inst>, min: nat, max: nat, v: nat)
    ensures Only(Popped(trace, min, max), v) == Only(trace, v)
  {
    hide Only, After;
    var st := After(trace, min, max);
    AfterStable(trace, min, max, v);
    FlushStable(st, 0, v);
    assert Flush(st, 0).queue == [];
    assert Flush(st, 0).popped + [] == Flush(st, 0).popped;
  }

  lemma {:induction false} OnlyHolds(s: seq<Inst>, v: nat)
    ensures Only(s, v) != [] <==> exists i :: 0 <= i < |s| && s[i].sn == v
  {
    if s != [] {
      OnlyHolds(s[..|s| - 1], v);
      assert forall i :: 0 <= i < |s| - 1 ==> s[..|s| - 1][i] == s[i];
      if i :| 0 <= i < |s| && s[i].sn == v {
        assert i < |s| - 1 ==> s[..|s| - 1][i].sn == v;
      }
    }
  }

  lemma LastIsLast(a: seq<Inst>, b: seq<Inst>)
    requires a != [] && Ordered(b) && Only(a, a[|a| - 1].sn) == Only(b, a[|a| - 1].sn)
    ensures b != [] && a[|a| - 1].sn <= b[|b| - 1].sn
  {
    hide Only;
    OnlyHolds(a, a[|a| - 1].sn);
    OnlyHolds(b, a[|a| - 1].sn);
  }

  /** Two ordered sequences with the same entries for every number are the same. */
  lemma {:induction false} OrderedUnique(a: seq<Inst>, b: seq<Inst>)
    requires Ordered(a) && Ordered(b) && forall v :: Only(a, v) == Only(b, v)
    ensures a == b
    decreases |a|
  {
    if a != [] {
      LastIsLast(a, b);
    }
    if b != [] {
      LastIsLast(b, a);
      var c, d, x, y := a[..|a| - 1], b[..|b| - 1], a[|a| - 1], b[|b| - 1];
      assert a == c + [x] && b == d + [y];
      hide Only;
      OnlyLast(c, x, x.sn);
      OnlyLast(d, y, x.sn);
      assert Only(a, x.sn)[|Only(a, x.sn)| - 1] == x;
      assert Only(b, x.sn)[|Only(b, x.sn)| - 1] == y;
      forall v
        ensures Only(c, v) == Only(d, v)
      {
        OnlyLast(c, x, v);
        OnlyLast(d, x, v);
        assert Only(c, v) == Only(a, v)[..|Only(c, v)|];
        assert Only(d, v) == Only(b, v)[..|Only(d, v)|];
      }
      OrderedUnique(c, d);
    }
  }

  /** The output is the stably sorted trace under the very condition that makes it ordered. */
  lemma SortedExactlyWhen(trace: seq<Inst>, min: nat, max: nat)
    requires min <= max
    ensures Popped(trace, min, max) == SortBySn(trace)
            <==> forall i :: 0 <= i < |trace| ==> Gone(i, min, max) <= Rank(trace, i)
  {
    hide Popped, SortBySn, Only, Gone, Rank, Ordered;
    OrderedExactlyWhen(trace, min, max);
    SortOrdered(trace);
    if Ordered(Popped(trace, min, max)) {
      forall v
        ensures Only(Popped(trace, min, max), v) == Only(SortBySn(trace), v)
      {
        EqualsLeaveInOrder(trace, min, max, v);
        OnlySort(trace, v);
      }
      OrderedUnique(Popped(trace, min, max), SortBySn(trace));
    }
  }

  /** The documented assumption is enough: no instruction more than min places late. */
  lemma AtMostMinLate(trace: seq<Inst>, min: nat, max: nat)
    requires min <= max
    requires forall i :: 0 <= i < |trace| ==> i <= Rank(trace, i) + min
    ensures Popped(trace, min, max) == SortBySn(trace)
  {
    hide Rank, Popped, SortBySn;
    forall i | 0 <= i < |trace|
      ensures Gone(i, min, max) <= Rank(trace, i)
    {
      hide Popped;
      GoneAtMost(i, min, max);
    }
    SortedExactlyWhen(trace, min, max);
  }

  lemma GoneAtMost(n: nat, min: nat, max: nat)
    requires min <= max
    ensures Gone(n, min, max) <= if n < min then 0 else n - min
  {
    if n >= min {
      var c := max + 1 - min;
      assert n - min == (n - min) / c * c + (n - min) % c;
    }
  }

  // ----- Ranks are places in the sorted trace

  /** Insertion puts x after the entries not above it. */
  lemma {:induction false} InsertPlace(x: Inst, s: seq<Inst>)
    requires Ordered(s)
    ensures |Insert(x, s)| == |s| + 1
    ensures AtMost(s, x.sn) <= |s| && Insert(x, s)[AtMost(s, x.sn)] == x
  {
    AtMostBounds(s, x.sn);
    if s != [] && s[|s| - 1].sn > x.sn {
      InsertPlace(x, s[..|s| - 1]);
    }
  }

  /** Insertion moves the entries above x by one place. */
  lemma {:induction false} InsertMoves(x: Inst, s: seq<Inst>, p: nat)
    requires Ordered(s) && p < |s|
    ensures |Insert(x, s)| == |s| + 1
    ensures Insert(x, s)[if x.sn < s[p].sn then p + 1 else p] == s[p]
  {
    if s[|s| - 1].sn > x.sn {
      if p < |s| - 1 {
        InsertMoves(x, s[..|s| - 1], p);
      }
    } else {
      assert s[p].sn <= s[|s| - 1].sn;
    }
  }

  /** Rank is the place an entry takes in the sorted trace. */
  lemma {:induction false} RankIsPlace(trace: seq<Inst>, i: nat)
    requires i < |trace|
    ensures Rank(trace, i) < |trace| && SortBySn(trace)[Rank(trace, i)] == trace[i]
  {
    var n := |trace| - 1;
    var x := trace[n];
    assert SortBySn(trace) == Insert(x, SortBySn(trace[..n]));
    SortOrdered(trace[..n]);
    hide AtMost, Insert, SortBySn, Rank, Ordered;
    var s := SortBySn(trace[..n]);
    if i == n {
      InsertPlace(x, s);
      AtMostSort(trace[..n], x.sn);
      RankLast(trace);
    } else {
      RankIsPlace(trace[..n], i);
      RankNext(trace, i);
      InsertMoves(x, s, Rank(trace[..n], i));
    }
  }

  lemma RankLast(trace: seq<Inst>)
    requires trace != []
    ensures Rank(trace, |trace| - 1) == AtMost(trace[..|trace| - 1], trace[|trace| - 1].sn)
  {
  }

  lemma RankNext(trace: seq<Inst>, i: nat)
    requires i < |trace| - 1
    ensures Rank(trace, i)
            == Rank(trace[..|trace| - 1], i) + if trace[|trace| - 1].sn < trace[i].sn then 1 else 0
  {
    var n := |trace| - 1;
    assert trace[..n][..i] == trace[..i];
    assert trace[i + 1..][..n - i - 1] == trace[..n][i + 1..];
  }

  // ----- The documented assumption against the exact one

  /** Counting 0, 1, 2, ... except that the entry numbered r is held back to place last. */
  function HeldBack(r: nat, last: nat): seq<Inst>
    requires r <= last
  {
    seq(last + 1, (i: nat) => Inst(if i < r then i else if i < last then i + 1 else r, 0, 0))
  }

  lemma HeldBackBefore(r: nat, last: nat)
    requires r <= last
    ensures AtMost(HeldBack(r, last)[..r], r) == r
  {
    hide AtMost;
    AtMostBounds(HeldBack(r, last)[..r], r);
  }

  lemma HeldBackBetween(r: nat, last: nat)
    requires r <= last
    ensures AtMost(HeldBack(r, last)[r..last], r) == 0
  {
    hide AtMost;
    AtMostBounds(HeldBack(r, last)[r..last], r);
  }

  lemma HeldBackRank(r: nat, last: nat)
    requires r <= last
    ensures Rank(HeldBack(r, last), last) == r
  {
    var t := HeldBack(r, last);
    assert |t| == last + 1 && t[last].sn == r;
    hide AtMost, Rank, HeldBack;
    RankLast(t);
    HeldBackBefore(r, last);
    HeldBackBetween(r, last);
    AtMostAppend(t[..r], t[r..last], r);
    assert t[..last] == t[..r] + t[r..last];
  }

  /** One place more than min can be too late, whatever the thresholds. */
  lemma OneTooLate(min: nat, max: nat)
    requires min <= max
    ensures var t := HeldBack(max - min, max + 1);
            max + 1 == Rank(t, max + 1) + min + 1 && !Ordered(Popped(t, min, max))
  {
    hide Rank, Popped;
    HeldBackRank(max - min, max + 1);
    OrderedExactlyWhen(HeldBack(max - min, max + 1), min, max);
    DivisionIs(max + 1 - min, max + 1 - min, 1, 0);
  }

  /** An instruction more than min places late need not spoil the output when the thresholds differ. */
  lemma LateYetOrdered(min: nat, max: nat)
    requires min < max
    ensures var t := HeldBack(0, min + 1);
            min + 1 == Rank(t, min + 1) + min + 1 && Ordered(Popped(t, min, max))
  {
    hide Rank, Popped;
    var t := HeldBack(0, min + 1);
    HeldBackRank(0, min + 1);
    forall i | 0 <= i < |t|
      ensures Gone(i, min, max) <= Rank(t, i)
    {
      hide Rank, Popped;
      if i >= min {
        DivisionIs(i - min, max + 1 - min, 0, i - min);
      }
    }
    OrderedExactlyWhen(t, min, max);
  }
}
