/**
  Checkpoints from before upgrade tags carry one version number. Their upgrades are linked into a
  line, and the number stands for the tags of all versions up to it.
 */
module LegacyVersions {
  import opened Upgrader

  datatype Option<T> = None | Some(value: T)

  /** The upgrade of each old version. */
  type Versions = map<int, Tag>

  /** Each version is an upgrade of its own. */
  ghost predicate Separate(known: Upgrades, legacy: Versions) {
    && (forall i :: i in legacy ==> legacy[i] in known)
    && (forall i, j :: i in legacy && j in legacy && i != j ==> legacy[i] != legacy[j])
  }

  /** Versions 3 to i all exist. */
  ghost predicate Run(legacy: Versions, i: int) {
    forall j :: 3 <= j <= i ==> j in legacy
  }

  /** What linking the run of versions up to top leaves as dependencies. */
  ghost predicate Linked(known: Upgrades, legacy: Versions, linked: Upgrades, top: int) {
    && linked.Keys == known.Keys && Run(legacy, top) && (top >= 3 ==> 2 in legacy)
    && (forall i :: 3 <= i <= top ==> legacy[i] in linked && LinkedAt(legacy, linked[legacy[i]], i))
    && (forall t :: t in known && (forall i :: 3 <= i <= top ==> legacy[i] != t) ==> linked[t] == known[t])
  }

  ghost predicate LinkedAt(legacy: Versions, depends: seq<Tag>, i: int) {
    i - 1 in legacy && depends == [legacy[i - 1]]
  }

  /** Fails, as the lookup of version 2 does, exactly when there is a version 3 without a version 2. */
  method LinkLegacy(known: Upgrades, legacy: Versions) returns (linked: Option<Upgrades>, ghost top: int)
    requires Separate(known, legacy)
    ensures linked.None? <==> 3 in legacy && 2 !in legacy
    ensures linked.Some? ==> top + 1 !in legacy && top >= 2 && Linked(known, legacy, linked.value, top)
  {
    hide Linked, Separate;
    var deps := known;
    var i := 3;
    LinkNone(known, legacy);
    while i in legacy
      invariant i >= 3 && (i > 3 ==> 2 in legacy && i - 1 in legacy)
      invariant Linked(known, legacy, deps, i - 1)
      decreases legacy.Keys - set j | j in legacy && j < i
    {
      if i - 1 !in legacy {
        return None, i - 1;
      }
      LinkNext(known, legacy, deps, i);
      assert i in legacy.Keys - (set j | j in legacy && j < i);
      deps := deps[legacy[i] := [legacy[i - 1]]];
      i := i + 1;
    }
    return Some(deps), i - 1;
  }

  lemma LinkNone(known: Upgrades, legacy: Versions)
    ensures Linked(known, legacy, known, 2)
  {
  }

  lemma LinkNext(known: Upgrades, legacy: Versions, linked: Upgrades, i: int)
    requires Separate(known, legacy) && i >= 3 && i in legacy && i - 1 in legacy
    requires Linked(known, legacy, linked, i - 1)
    ensures Linked(known, legacy, linked[legacy[i] := [legacy[i - 1]]], i)
  {
    var linked' := linked[legacy[i] := [legacy[i - 1]]];
    assert linked'.Keys == known.Keys;
    forall j | 3 <= j <= i
      ensures j in legacy && legacy[j] in linked' && LinkedAt(legacy, linked'[legacy[j]], j)
    {
      if j < i {
        assert legacy[j] in linked && LinkedAt(legacy, linked[legacy[j]], j);
      }
    }
    forall t | t in known && forall j :: 3 <= j <= i ==> legacy[j] != t
      ensures linked'[t] == known[t]
    {
      assert t != legacy[i];
    }
  }

  /** The tags a version number stands for; fails when one of the versions is unknown. */
  method LegacyTags(legacy: Versions, version: int) returns (tags: Option<set<Tag>>)
    ensures tags.Some? <==> forall i :: 2 <= i <= version ==> i in legacy
    ensures tags.Some? ==> IsTags(legacy, version, tags.value)
  {
    var found := {};
    var i := 2;
    while i <= version
      invariant i == 2 || 2 < i <= version + 1
      invariant forall j :: 2 <= j < i && j <= version ==> j in legacy
      invariant IsTags(legacy, i - 1, found)
    {
      if i !in legacy {
        return None;
      }
      found := found + {legacy[i]};
      i := i + 1;
    }
    return Some(found);
  }

  ghost predicate IsTags(legacy: Versions, version: int, tags: set<Tag>) {
    forall t :: t in tags <==> exists i :: 2 <= i <= version && i in legacy && legacy[i] == t
  }

  /** A version number's tags hold all that their own upgrades depend on, from version 3 up. */
  lemma VersionIsClosed(known: Upgrades, legacy: Versions, linked: Upgrades, top: int, version: int, tags: set<Tag>)
    requires Linked(known, legacy, linked, top) && version <= top && IsTags(legacy, version, tags)
    ensures forall i :: 3 <= i <= version ==> legacy[i] in linked && AllIn(linked[legacy[i]], tags)
  {
    forall i | 3 <= i <= version
      ensures legacy[i] in linked && AllIn(linked[legacy[i]], tags)
    {
      assert LinkedAt(legacy, linked[legacy[i]], i);
      assert legacy[i - 1] in tags;
    }
  }

  /** Every complete schedule for a checkpoint of an old version applies the later versions in order. */
  lemma {:induction false} VersionsInOrder(known: Upgrades, legacy: Versions, linked: Upgrades, top: int,
                                           version: int, tags: set<Tag>, order: seq<Tag>, i: int, j: int, k: nat)
    returns (p: nat)
    requires Separate(known, legacy) && Linked(known, legacy, linked, top)
    requires IsTags(legacy, version, tags) && Schedule(linked, tags, order)
    requires 2 <= i < j <= top && version < i && k < |order| && order[k] == legacy[j]
    ensures i in legacy && p < k && order[p] == legacy[i]
    decreases j - i
  {
    assert LinkedAt(legacy, linked[legacy[j]], j);
    assert legacy[j - 1] !in tags;
    p := DependsEarlier(linked, tags, order, k, legacy[j - 1]);
    if i < j - 1 {
      p := VersionsInOrder(known, legacy, linked, top, version, tags, order, i, j - 1, p);
    }
  }
}
