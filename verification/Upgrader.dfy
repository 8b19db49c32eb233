/**
  The checkpoint upgrader: which upgrades a checkpoint is missing, the order in which they are
  applied, and when the dependencies cannot be resolved.
 */
module Upgrader {

  datatype Tag = Tag(name: string)

  /** Every known upgrade with the upgrades it depends on. */
  type Upgrades = map<Tag, seq<Tag>>

  function Missing(known: Upgrades, tags: set<Tag>): set<Tag> {
    known.Keys - tags
  }

  ghost function Elems(s: seq<Tag>): set<Tag> {
    set t | t in s
  }

  ghost predicate AllIn(depends: seq<Tag>, tags: set<Tag>) {
    forall d :: d in depends ==> d in tags
  }

  /** The tag of place k is missing, comes once, and follows everything it depends on. */
  ghost predicate InPlace(known: Upgrades, tags: set<Tag>, order: seq<Tag>, k: nat)
    requires k < |order|
  {
    order[k] in Missing(known, tags) && order[k] !in order[..k] && AllIn(known[order[k]], tags + Elems(order[..k]))
  }

  /** A way to apply some of the missing upgrades, each once and after its dependencies. */
  ghost predicate Schedule(known: Upgrades, tags: set<Tag>, order: seq<Tag>) {
    forall k :: 0 <= k < |order| ==> InPlace(known, tags, order, k)
  }

  ghost predicate Complete(known: Upgrades, tags: set<Tag>, order: seq<Tag>) {
    Schedule(known, tags, order) && Elems(order) == Missing(known, tags)
  }

  // ----- The apply loop

  method Ready(depends: seq<Tag>, tags: set<Tag>) returns (r: bool)
    ensures r <==> AllIn(depends, tags)
  {
    for i := 0 to |depends|
      invariant forall j :: 0 <= j < i ==> depends[j] in tags
    {
      if depends[i] !in tags {
        return false;
      }
    }
    return true;
  }

  method ReadyOf(known: Upgrades, waiting: set<Tag>, tags: set<Tag>) returns (ready: set<Tag>)
    requires waiting <= known.Keys
    ensures ready <= waiting
    ensures forall t :: t in waiting ==> (t in ready <==> AllIn(known[t], tags))
  {
    ready := {};
    var rest := waiting;
    while rest != {}
      invariant rest <= waiting && ready <= waiting - rest
      invariant forall t :: t in waiting - rest ==> (t in ready <==> AllIn(known[t], tags))
      decreases rest
    {
      var t :| t in rest;
      var isReady := Ready(known[t], tags);
      if isReady {
        ready := ready + {t};
      }
      rest := rest - {t};
    }
  }

  lemma ElemsAppend(order: seq<Tag>, t: Tag)
    ensures Elems(order + [t]) == Elems(order) + {t}
  {
  }

  lemma EmptySchedule(known: Upgrades, tags: set<Tag>)
    ensures Schedule(known, tags, []) && Elems([]) == {}
  {
  }

  lemma ScheduleAppend(known: Upgrades, tags: set<Tag>, order: seq<Tag>, t: Tag)
    requires Schedule(known, tags, order)
    requires t in Missing(known, tags) && t !in Elems(order) && AllIn(known[t], tags + Elems(order))
    ensures Schedule(known, tags, order + [t])
  {
    var longer := order + [t];
    forall k | 0 <= k < |longer|
      ensures InPlace(known, tags, longer, k)
    {
      assert longer[..k] == order[..k];
      if k < |order| {
        assert InPlace(known, tags, order, k);
      } else {
        assert order[..k] == order;
      }
    }
  }

  lemma AllInMore(depends: seq<Tag>, tags: set<Tag>, more: set<Tag>)
    requires AllIn(depends, tags) && tags <= more
    ensures AllIn(depends, more)
  {
  }

  lemma MoveOne(done: set<Tag>, rest: set<Tag>, t: Tag)
    requires t in rest && rest !! done
    ensures done + {t} + (rest - {t}) == done + rest && rest - {t} !! done + {t}
  {
  }

  /** Apply one round of ready upgrades, in any order. */
  method ApplyRound(known: Upgrades, ghost start: set<Tag>, ready: set<Tag>, tags: set<Tag>, applied: seq<Tag>)
    returns (tags': set<Tag>, applied': seq<Tag>)
    requires Schedule(known, start, applied) && tags == start + Elems(applied)
    requires ready <= Missing(known, start) - Elems(applied)
    requires forall t :: t in ready ==> AllIn(known[t], tags)
    ensures Schedule(known, start, applied') && applied <= applied'
    ensures Elems(applied') == Elems(applied) + ready && tags' == start + Elems(applied')
  {
    hide Schedule, Elems, AllIn;
    tags', applied' := tags, applied;
    var rest := ready;
    while rest != {}
      invariant rest <= ready && applied <= applied'
      invariant Schedule(known, start, applied')
      invariant rest !! Elems(applied') && Elems(applied') + rest == Elems(applied) + ready
      invariant tags <= start + Elems(applied')
      invariant tags' == start + Elems(applied')
      decreases rest
    {
      var t :| t in rest;
      AllInMore(known[t], tags, start + Elems(applied'));
      ScheduleAppend(known, start, applied', t);
      ElemsAppend(applied', t);
      MoveOne(Elems(applied'), rest, t);
      applied' := applied' + [t];
      tags' := tags' + {t};
      rest := rest - {t};
    }
  }

  /** Every schedule stays within tags that hold, for each missing tag outside, not all its dependencies. */
  lemma {:induction false} StuckBounds(known: Upgrades, tags: set<Tag>, order: seq<Tag>, closed: set<Tag>, k: nat)
    requires Schedule(known, tags, order) && k <= |order|
    requires forall t :: t in Missing(known, tags) - closed ==> !AllIn(known[t], tags + closed)
    ensures Elems(order[..k]) <= closed
  {
    if k > 0 {
      StuckBounds(known, tags, order, closed, k - 1);
      assert InPlace(known, tags, order, k - 1);
      assert order[..k] == order[..k - 1] + [order[k - 1]];
      ElemsAppend(order[..k - 1], order[k - 1]);
    }
  }

  /** A closed set holds every upgrade of every schedule. */
  lemma ClosedBounds(known: Upgrades, tags: set<Tag>, closed: set<Tag>)
    requires forall t :: t in Missing(known, tags) - closed ==> !AllIn(known[t], tags + closed)
    ensures forall order :: Schedule(known, tags, order) ==> Elems(order) <= closed
  {
    forall order | Schedule(known, tags, order)
      ensures Elems(order) <= closed
    {
      StuckBounds(known, tags, order, closed, |order|);
      assert order[..|order|] == order;
    }
  }

  // ----- When no complete schedule exists

  /** A dependency of a missing upgrade that is neither present nor known. */
  ghost predicate Unmet(known: Upgrades, tags: set<Tag>) {
    exists t, d :: t in Missing(known, tags) && d in known[t] && d !in tags && d !in known
  }

  /** Missing upgrades, each depending on the next. */
  ghost predicate Chain(known: Upgrades, tags: set<Tag>, c: seq<Tag>) {
    && (forall i :: 0 <= i < |c| ==> c[i] in Missing(known, tags))
    && (forall i :: 0 <= i < |c| - 1 ==> c[i + 1] in known[c[i]])
  }

  ghost predicate Cycle(known: Upgrades, tags: set<Tag>, c: seq<Tag>) {
    Chain(known, tags, c) && |c| >= 2 && c[0] == c[|c| - 1]
  }

  lemma PlaceOf(order: seq<Tag>, t: Tag) returns (k: nat)
    requires t in order
    ensures k < |order| && order[k] == t && t !in order[..k]
    decreases |order|
  {
    if t in order[..|order| - 1] {
      k := PlaceOf(order[..|order| - 1], t);
      assert order[..|order| - 1][..k] == order[..k];
    } else {
      k := |order| - 1;
    }
  }

  /** In a complete schedule a dependency comes at an earlier place. */
  lemma DependsEarlier(known: Upgrades, tags: set<Tag>, order: seq<Tag>, k: nat, d: Tag) returns (j: nat)
    requires Schedule(known, tags, order) && k < |order| && order[k] in known && d in known[order[k]] && d !in tags
    ensures j < k && order[j] == d
  {
    assert InPlace(known, tags, order, k);
    assert d in Elems(order[..k]);
    j :| 0 <= j < k && order[..k][j] == d;
  }

  lemma OncePlace(known: Upgrades, tags: set<Tag>, order: seq<Tag>, i: nat, j: nat)
    requires Schedule(known, tags, order) && i < j < |order|
    ensures order[i] != order[j]
  {
    assert InPlace(known, tags, order, j);
    assert order[..j][i] == order[i];
  }

  lemma {:induction false} ChainDescends(known: Upgrades, tags: set<Tag>, order: seq<Tag>, c: seq<Tag>, m: nat, k: nat)
    returns (j: nat)
    requires Complete(known, tags, order) && Chain(known, tags, c) && m < |c|
    requires k < |order| && order[k] == c[0]
    ensures j < |order| && order[j] == c[m] && j <= k && (m > 0 ==> j < k)
  {
    if m == 0 {
      j := k;
    } else {
      var i := ChainDescends(known, tags, order, c, m - 1, k);
      assert c[m - 1 + 1] in known[c[m - 1]];
      j := DependsEarlier(known, tags, order, i, c[m]);
    }
  }

  /** A dependency cycle rules out every complete schedule. */
  lemma CycleBlocks(known: Upgrades, tags: set<Tag>, order: seq<Tag>, c: seq<Tag>)
    requires Cycle(known, tags, c)
    ensures !Complete(known, tags, order)
  {
    if Complete(known, tags, order) {
      assert c[0] in Elems(order);
      var k := PlaceOf(order, c[0]);
      var j := ChainDescends(known, tags, order, c, |c| - 1, k);
      OncePlace(known, tags, order, j, k);
      assert false;
    }
  }

  lemma KnownAt(known: Upgrades, tags: set<Tag>, order: seq<Tag>, j: nat)
    requires Schedule(known, tags, order) && j < |order|
    ensures order[j] in known
  {
    assert InPlace(known, tags, order, j);
  }

  /** A dependency that is neither present nor known rules out every complete schedule. */
  lemma UnmetBlocks(known: Upgrades, tags: set<Tag>, order: seq<Tag>)
    requires Unmet(known, tags)
    ensures !Complete(known, tags, order)
  {
    if Complete(known, tags, order) {
      var t, d :| t in Missing(known, tags) && d in known[t] && d !in tags && d !in known;
      assert t in Elems(order);
      var k := PlaceOf(order, t);
      var j := DependsEarlier(known, tags, order, k, d);
      KnownAt(known, tags, order, j);
      assert false;
    }
  }

  lemma DependencyKnown(known: Upgrades, tags: set<Tag>, t: Tag, d: Tag)
    requires !Unmet(known, tags) && t in Missing(known, tags) && d in known[t] && d !in tags
    ensures d in known
  {
  }

  lemma ChainAppend(known: Upgrades, tags: set<Tag>, c: seq<Tag>, d: Tag)
    requires Chain(known, tags, c) && d in Missing(known, tags)
    requires |c| > 0 && c[|c| - 1] in known && d in known[c[|c| - 1]]
    ensures Chain(known, tags, c + [d])
  {
  }

  /** From a stuck set one can walk along dependencies for as long as one likes. */
  lemma {:induction false} Walk(known: Upgrades, tags: set<Tag>, stuck: set<Tag>, n: nat) returns (c: seq<Tag>)
    requires stuck != {} && stuck <= Missing(known, tags) && !Unmet(known, tags)
    requires forall t :: t in stuck ==> !AllIn(known[t], tags + (Missing(known, tags) - stuck))
    ensures |c| == n + 1 && Chain(known, tags, c) && forall i :: 0 <= i < |c| ==> c[i] in stuck
  {
    hide Unmet;
    if n == 0 {
      var t :| t in stuck;
      c := [t];
    } else {
      hide Chain;
      var b := Walk(known, tags, stuck, n - 1);
      var t := b[n - 1];
      assert !AllIn(known[t], tags + (Missing(known, tags) - stuck));
      var d :| d in known[t] && d !in tags + (Missing(known, tags) - stuck);
      DependencyKnown(known, tags, t, d);
      ChainAppend(known, tags, b, d);
      c := b + [d];
    }
  }

  lemma {:induction false} Repeats(c: seq<Tag>, s: set<Tag>) returns (i: nat, j: nat)
    requires |c| > |s| && forall k :: 0 <= k < |c| ==> c[k] in s
    ensures i < j < |c| && c[i] == c[j]
    decreases |c|
  {
    var last := |c| - 1;
    if k :| 0 <= k < last && c[k] == c[last] {
      i, j := k, last;
    } else {
      i, j := Repeats(c[..last], s - {c[last]});
    }
  }

  /** A walk longer than the stuck set comes back on itself. */
  lemma StuckHasCycle(known: Upgrades, tags: set<Tag>, stuck: set<Tag>) returns (c: seq<Tag>)
    requires stuck != {} && stuck <= Missing(known, tags) && !Unmet(known, tags)
    requires forall t :: t in stuck ==> !AllIn(known[t], tags + (Missing(known, tags) - stuck))
    ensures Cycle(known, tags, c)
  {
    var w := Walk(known, tags, stuck, |stuck|);
    var i, j := Repeats(w, stuck);
    c := w[i..j + 1];
    forall k | 0 <= k < |c| - 1
      ensures c[k + 1] in known[c[k]]
    {
      assert w[i + k + 1] in known[w[i + k]];
    }
  }

  /** Every dependency of a missing upgrade is present or known, and none of them is circular. */
  ghost predicate Resolvable(known: Upgrades, tags: set<Tag>) {
    !Unmet(known, tags) && forall c :: !Cycle(known, tags, c)
  }

  lemma CompleteResolves(known: Upgrades, tags: set<Tag>, order: seq<Tag>)
    requires Complete(known, tags, order)
    ensures Resolvable(known, tags)
  {
    if Unmet(known, tags) {
      UnmetBlocks(known, tags, order);
    }
    forall c
      ensures !Cycle(known, tags, c)
    {
      if Cycle(known, tags, c) {
        CycleBlocks(known, tags, order, c);
      }
    }
  }

  /** When none of the upgrades left is ready, the dependencies cannot be resolved. */
  lemma Blocked(known: Upgrades, tags: set<Tag>, done: set<Tag>)
    requires done < Missing(known, tags)
    requires forall t :: t in Missing(known, tags) - done ==> !AllIn(known[t], tags + done)
    ensures !Resolvable(known, tags)
  {
    if !Unmet(known, tags) {
      var stuck := Missing(known, tags) - done;
      assert Missing(known, tags) - stuck == done;
      var t :| t in Missing(known, tags) && t !in done;
      assert t in stuck;
      var c := StuckHasCycle(known, tags, stuck);
      assert Cycle(known, tags, c);
    }
  }

  /** Any schedule of resolvable upgrades can be carried on until it is complete. */
  lemma {:induction false} Completable(known: Upgrades, tags: set<Tag>, order: seq<Tag>) returns (full: seq<Tag>)
    requires Resolvable(known, tags) && Schedule(known, tags, order)
    ensures Complete(known, tags, full) && order <= full
    decreases Missing(known, tags) - Elems(order)
  {
    var done := Elems(order);
    ScheduleWithin(known, tags, order);
    if done == Missing(known, tags) {
      full := order;
    } else {
      if forall t :: t in Missing(known, tags) - done ==> !AllIn(known[t], tags + done) {
        Blocked(known, tags, done);
        assert false;
      }
      var t :| t in Missing(known, tags) - done && AllIn(known[t], tags + done);
      ScheduleAppend(known, tags, order, t);
      ElemsAppend(order, t);
      full := Completable(known, tags, order + [t]);
    }
  }

  lemma ScheduleWithin(known: Upgrades, tags: set<Tag>, order: seq<Tag>)
    requires Schedule(known, tags, order)
    ensures Elems(order) <= Missing(known, tags)
  {
    forall k | 0 <= k < |order|
      ensures order[k] in Missing(known, tags)
    {
      assert InPlace(known, tags, order, k);
    }
  }

  /** The missing upgrades have a complete schedule exactly when their dependencies can be resolved. */
  lemma CompleteExactlyWhen(known: Upgrades, tags: set<Tag>)
    ensures (exists order :: Complete(known, tags, order)) <==> Resolvable(known, tags)
  {
    if order :| Complete(known, tags, order) {
      CompleteResolves(known, tags, order);
    }
    if Resolvable(known, tags) {
      var order := Completable(known, tags, []);
      assert Complete(known, tags, order);
    }
  }

  /**
    What was applied is a schedule, and it holds every upgrade that any schedule holds.
    The upgrade succeeds exactly when every dependency is present or known and none is circular.
   */
  method ApplyUpgrades(known: Upgrades, start: set<Tag>)
    returns (ok: bool, tags: set<Tag>, applied: seq<Tag>)
    ensures Schedule(known, start, applied) && tags == start + Elems(applied)
    ensures ok <==> Elems(applied) == Missing(known, start)
    ensures ok ==> tags == start + known.Keys
    ensures forall order :: Schedule(known, start, order) ==> Elems(order) <= Elems(applied)
    ensures ok <==> Resolvable(known, start)
  {
    hide Schedule, AllIn, Resolvable, Elems;
    tags, applied := start, [];
    EmptySchedule(known, start);
    var waiting := Missing(known, start);
    while waiting != {}
      invariant Schedule(known, start, applied) && tags == start + Elems(applied)
      invariant Elems(applied) <= Missing(known, start) && waiting == Missing(known, start) - Elems(applied)
      decreases waiting
    {
      var ready := ReadyOf(known, waiting, tags);
      if ready == {} {
        ClosedBounds(known, start, Elems(applied));
        Blocked(known, start, Elems(applied));
        return false, tags, applied;
      }
      tags, applied := ApplyRound(known, start, ready, tags, applied);
      waiting := waiting - ready;
    }
    ClosedBounds(known, start, Elems(applied));
    CompleteResolves(known, start, applied);
    return true, tags, applied;
  }
}
