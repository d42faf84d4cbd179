/** The condition diff of `compare_updated_conditions` (alertsync/nr_api.py):
    the current conditions of one kind, as the service lists them, against the
    desired conditions of the document, giving an ordered sequence of changes
    `(current, new)`: `(c, d)` is an update, `(None, d)` a create and
    `(c, None)` a delete. */
module Reconcile {
  import opened Wrappers
  import opened Errors
  import opened ConditionKinds
  import opened Documents

  /** A condition as the service lists it: it always has an `id` and a `name`. */
  datatype Fetched = Fetched(id: Id, name: string, attrs: Attrs)

  /** `ConditionChange(current, new)`; the source's field `new` is `desired` here. */
  datatype ConditionChange = ConditionChange(current: Option<Fetched>, desired: Option<Condition>)

  function IdOf(c: Fetched): Id { c.id }

  function NameOf(c: Fetched): string { c.name }

  /** The dict comprehension `{key(c): c for c in cs}`: elements are inserted in
      list order, so a later element replaces an earlier one with the same key. */
  function Index<K(==)>(cs: seq<Fetched>, key: Fetched -> K): map<K, Fetched>
  {
    if cs == [] then map[]
    else Index(cs[..|cs| - 1], key)[key(cs[|cs| - 1]) := cs[|cs| - 1]]
  }

  /** `current_lookup` of the source. */
  function ById(cs: seq<Fetched>): map<Id, Fetched> { Index(cs, IdOf) }

  /** `lookup_by_name` of the source. */
  function ByName(cs: seq<Fetched>): map<string, Fetched> { Index(cs, NameOf) }

  /** Every element's key is indexed. */
  lemma {:induction false} IndexHas<K>(cs: seq<Fetched>, key: Fetched -> K, c: Fetched)
    requires c in cs
    ensures key(c) in Index(cs, key)
  {
    var init := cs[..|cs| - 1];
    if c != cs[|cs| - 1] {
      assert cs == init + [cs[|cs| - 1]];
      IndexHas(init, key, c);
    }
  }

  /** Every indexed key maps to an element of the list carrying that key. */
  lemma {:induction false} IndexEntry<K>(cs: seq<Fetched>, key: Fetched -> K, k: K)
    requires k in Index(cs, key)
    ensures Index(cs, key)[k] in cs && key(Index(cs, key)[k]) == k
  {
    var init := cs[..|cs| - 1];
    if k != key(cs[|cs| - 1]) {
      IndexEntry(init, key, k);
      assert Index(cs, key)[k] == Index(init, key)[k];
      assert Index(init, key)[k] in init;
      assert cs == init + [cs[|cs| - 1]];
    }
  }

  /** A key no element carries is not indexed. */
  lemma {:induction false} IndexMisses<K>(cs: seq<Fetched>, key: Fetched -> K, k: K)
    requires forall c :: c in cs ==> key(c) != k
    ensures k !in Index(cs, key)
  {
    if cs != [] {
      var init := cs[..|cs| - 1];
      assert forall c :: c in init ==> c in cs;
      IndexMisses(init, key, k);
    }
  }

  /** The index keeps, for each key, the LAST element carrying it. */
  lemma {:induction false} IndexIsLast<K>(cs: seq<Fetched>, key: Fetched -> K, j: int)
    requires 0 <= j < |cs|
    requires forall l :: j < l < |cs| ==> key(cs[l]) != key(cs[j])
    ensures key(cs[j]) in Index(cs, key) && Index(cs, key)[key(cs[j])] == cs[j]
  {
    if j < |cs| - 1 {
      var init := cs[..|cs| - 1];
      assert forall l :: j < l < |init| ==> init[l] == cs[l];
      IndexIsLast(init, key, j);
    }
  }

  /** `fix_condition_id`: the id a desired condition carries once resolved. A
      desired id that is a current id is kept; otherwise it is dropped, and
      the condition adopts the id of the current condition its name indexes. */
  function ResolveId(current: seq<Fetched>, d: Condition): (r: Option<Id>)
    ensures r.Some? ==> r.value in ById(current)
  {
    if d.id.Some? && d.id.value in ById(current) then d.id
    else if d.name in ByName(current) then
      var c := ByName(current)[d.name];
      IndexEntry(current, NameOf, d.name);
      IndexHas(current, IdOf, c);
      Some(c.id)
    else None
  }

  /** The desired condition as `fix_condition_id` leaves it. */
  function Fix(current: seq<Fetched>, d: Condition): Condition
  {
    d.(id := ResolveId(current, d))
  }

  /** The change one desired condition yields. */
  function ChangeFor(current: seq<Fetched>, d: Condition): ConditionChange
  {
    var f := Fix(current, d);
    match f.id
    case None => ConditionChange(None, Some(f))
    case Some(i) => ConditionChange(Some(ById(current)[i]), Some(f))
  }

  /** The changes derived from the desired conditions, in document order. */
  function Proposals(current: seq<Fetched>, desired: seq<Condition>): (r: seq<ConditionChange>)
    ensures |r| == |desired|
    ensures forall j :: 0 <= j < |desired| ==> r[j] == ChangeFor(current, desired[j])
  {
    if desired == [] then []
    else [ChangeFor(current, desired[0])] + Proposals(current, desired[1..])
  }

  /** The ids claimed by the desired conditions (`seen_condition_ids`). */
  function ClaimedIds(current: seq<Fetched>, desired: seq<Condition>): set<Id>
  {
    if desired == [] then {}
    else
      ClaimedIds(current, desired[..|desired| - 1])
      + match ResolveId(current, desired[|desired| - 1]) { case None => {} case Some(i) => {i} }
  }

  /** The delete changes for the current conditions whose id is not claimed,
      in current-list order. */
  function Deletions(cs: seq<Fetched>, claimed: set<Id>): seq<ConditionChange>
  {
    if cs == [] then []
    else
      Deletions(cs[..|cs| - 1], claimed)
      + (if cs[|cs| - 1].id in claimed then [] else [ConditionChange(Some(cs[|cs| - 1]), None)])
  }

  /** What `compare_updated_conditions` yields for a current and a desired list. */
  function Diff(current: seq<Fetched>, desired: seq<Condition>): seq<ConditionChange>
  {
    if current == [] && desired == [] then []
    else Proposals(current, desired) + Deletions(current, ClaimedIds(current, desired))
  }

  /** `fix_condition_id`, the closure over the two lookups: keeps a known id,
      otherwise drops the id and adopts the one the name indexes, if any. */
  method FixConditionId(current: seq<Fetched>, currentLookup: map<Id, Fetched>,
                        lookupByName: map<string, Fetched>, condition: Condition)
    returns (fixed: Condition)
    requires currentLookup == ById(current) && lookupByName == ByName(current)
    ensures fixed == Fix(current, condition)
  {
    fixed := condition;
    if fixed.id.Some? {
      if fixed.id.value in currentLookup {
        return fixed;
      } else {
        fixed := fixed.(id := None);
      }
    }
    if fixed.name in lookupByName {
      fixed := fixed.(id := Some(lookupByName[fixed.name].id));
    }
  }

  /** `compare_updated_conditions(policy_id, condition_type, updated_conditions)`.
      `searchResult` is what the listing call returns for the kind; a missing
      envelope key is the source's KeyError. */
  method CompareUpdatedConditions(conditionType: string, searchResult: map<string, seq<Fetched>>,
                                  updatedConditions: seq<Condition>)
    returns (r: Result<seq<ConditionChange>, Error>)
    ensures EnvelopeKey(conditionType) !in searchResult ==>
              r == Failure(MissingKey(EnvelopeKey(conditionType)))
    ensures EnvelopeKey(conditionType) in searchResult ==>
              r == Success(Diff(searchResult[EnvelopeKey(conditionType)], updatedConditions))
  {
    var key := if conditionType == "infrastructure_conditions" then "data" else conditionType;
    if key !in searchResult {
      return Failure(MissingKey(key));
    }
    var current := searchResult[key];
    if current == [] && updatedConditions == [] {
      return Success([]);
    }
    var currentLookup := ById(current);
    var lookupByName := ByName(current);
    var changes: seq<ConditionChange> := [];
    var seen: seq<Id> := [];
    for k := 0 to |updatedConditions|
      invariant changes == Proposals(current, updatedConditions[..k])
      invariant forall i :: i in seen <==> i in ClaimedIds(current, updatedConditions[..k])
    {
      var condition := FixConditionId(current, currentLookup, lookupByName, updatedConditions[k]);
      ghost var seen0, changes0 := seen, changes;
      if condition.id.None? {
        changes := changes + [ConditionChange(None, Some(condition))];
      } else {
        seen := seen + [condition.id.value];
        changes := changes + [ConditionChange(Some(currentLookup[condition.id.value]), Some(condition))];
      }
      LoopStep(current, updatedConditions, k, seen0, seen, changes0, changes);
    }
    Whole(updatedConditions);
    ghost var claimed := ClaimedIds(current, updatedConditions);
    ghost var front := changes;
    for m := 0 to |current|
      invariant changes == front + Deletions(current[..m], claimed)
    {
      DeletionsSnoc(current, m, claimed, front, changes);
      if current[m].id !in seen {
        changes := changes + [ConditionChange(Some(current[m]), None)];
      }
    }
    Whole(current);
    return Success(changes);
  }

  lemma Whole<T>(s: seq<T>)
    ensures s[..|s|] == s
  {
  }

  /** Extending the current prefix by one condition appends at most its delete. */
  lemma DeletionsSnoc(cs: seq<Fetched>, m: int, claimed: set<Id>, front: seq<ConditionChange>, changes: seq<ConditionChange>)
    requires 0 <= m < |cs|
    requires changes == front + Deletions(cs[..m], claimed)
    ensures front + Deletions(cs[..m + 1], claimed) ==
              changes + (if cs[m].id in claimed then [] else [ConditionChange(Some(cs[m]), None)])
  {
    assert cs[..m + 1][..m] == cs[..m];
  }

  /** One step of the loop over the desired conditions: the change of the
      next desired condition is appended, and `seen` gains its claimed id. */
  lemma LoopStep(current: seq<Fetched>, ds: seq<Condition>, k: int, seen0: seq<Id>, seen: seq<Id>,
                 changes0: seq<ConditionChange>, changes: seq<ConditionChange>)
    requires 0 <= k < |ds|
    requires changes0 == Proposals(current, ds[..k])
    requires forall i :: i in seen0 <==> i in ClaimedIds(current, ds[..k])
    requires seen == if ResolveId(current, ds[k]).None? then seen0 else seen0 + [ResolveId(current, ds[k]).value]
    requires changes == changes0 + [ChangeFor(current, ds[k])]
    ensures changes == Proposals(current, ds[..k + 1])
    ensures forall i :: i in seen <==> i in ClaimedIds(current, ds[..k + 1])
  {
    ProposalsSnoc(current, ds, k);
    ClaimedIdsSnoc(current, ds, k);
  }

  lemma ProposalsSnoc(current: seq<Fetched>, ds: seq<Condition>, k: int)
    requires 0 <= k < |ds|
    ensures Proposals(current, ds[..k + 1]) == Proposals(current, ds[..k]) + [ChangeFor(current, ds[k])]
  {
    var a, b := Proposals(current, ds[..k + 1]), Proposals(current, ds[..k]) + [ChangeFor(current, ds[k])];
    assert |a| == |b|;
    forall j | 0 <= j < |a|
      ensures a[j] == b[j]
    {
      assert ds[..k + 1][j] == ds[j];
      if j < k {
        assert ds[..k][j] == ds[j];
      }
    }
  }

  lemma ClaimedIdsSnoc(current: seq<Fetched>, ds: seq<Condition>, k: int)
    requires 0 <= k < |ds|
    ensures ClaimedIds(current, ds[..k + 1])
            == ClaimedIds(current, ds[..k]) + match ResolveId(current, ds[k]) { case None => {} case Some(i) => {i} }
  {
    assert ds[..k + 1][..k] == ds[..k];
  }

  // ---------------------------------------------------------------------
  // Properties of the diff
  // ---------------------------------------------------------------------

  /** Two empty lists give no change. */
  lemma EmptyGivesNothing()
    ensures Diff([], []) == []
  {
  }

  /** Membership in the claimed ids: the ids some desired condition resolves to. */
  lemma {:induction false} ClaimedIdsSpec(current: seq<Fetched>, desired: seq<Condition>, i: Id)
    ensures i in ClaimedIds(current, desired) <==>
              exists j :: 0 <= j < |desired| && ResolveId(current, desired[j]) == Some(i)
  {
    if desired != [] {
      var init := desired[..|desired| - 1];
      ClaimedIdsSpec(current, init, i);
      if exists j :: 0 <= j < |desired| && ResolveId(current, desired[j]) == Some(i) {
        var j :| 0 <= j < |desired| && ResolveId(current, desired[j]) == Some(i);
        if j < |init| {
          assert init[j] == desired[j];
        }
      }
      if exists j :: 0 <= j < |init| && ResolveId(current, init[j]) == Some(i) {
        var j :| 0 <= j < |init| && ResolveId(current, init[j]) == Some(i);
        assert desired[j] == init[j];
      }
    }
  }

  /** Every change has a side; an update carries the current id on its
      desired side, and a create carries no id. */
  lemma {:induction false} ChangeShape(current: seq<Fetched>, d: Condition)
    ensures var ch := ChangeFor(current, d);
            && ch.desired.Some?
            && ch.desired.value.name == d.name && ch.desired.value.attrs == d.attrs
            && (ch.current.Some? ==> ch.current.value in current && ch.desired.value.id == Some(ch.current.value.id))
            && (ch.current.None? ==> ch.desired.value.id.None?)
  {
    var f := Fix(current, d);
    if f.id.Some? {
      IndexEntry(current, IdOf, f.id.value);
    }
  }

  /** A desired id that is the id of some current condition is kept, and the
      change pairs the desired condition, unchanged, with the last current
      condition carrying that id; the name plays no part. */
  lemma {:induction false} KeptIdUpdates(current: seq<Fetched>, d: Condition, at: int)
    requires d.id.Some?
    requires 0 <= at < |current| && current[at].id == d.id.value
    requires forall l :: at < l < |current| ==> current[l].id != d.id.value
    ensures ChangeFor(current, d) == ConditionChange(Some(current[at]), Some(d))
    ensures forall n :: ChangeFor(current, d.(name := n)).current == Some(current[at])
  {
    IndexIsLast(current, IdOf, at);
  }

  /** A stale desired id, one that no current condition carries, behaves
      exactly as no id at all. */
  lemma StaleIdIsNoId(current: seq<Fetched>, d: Condition)
    requires d.id.Some?
    requires forall c :: c in current ==> c.id != d.id.value
    ensures ChangeFor(current, d) == ChangeFor(current, d.(id := None))
  {
    IndexMisses(current, IdOf, d.id.value);
  }

  /** A desired condition with no id, and no current condition of its name,
      is a create of the condition without id. */
  lemma UnknownNameCreates(current: seq<Fetched>, d: Condition)
    requires d.id.None?
    requires forall c :: c in current ==> c.name != d.name
    ensures ChangeFor(current, d) == ConditionChange(None, Some(d))
  {
    IndexMisses(current, NameOf, d.name);
  }

  /** A desired condition without a valid id adopts the id of the LAST current
      condition of its name, whichever desired conditions adopted it before. */
  lemma {:induction false} NameAdoption(current: seq<Fetched>, d: Condition, at: int)
    requires d.id.None? || forall c :: c in current ==> c.id != d.id.value
    requires 0 <= at < |current| && current[at].name == d.name
    requires forall l :: at < l < |current| ==> current[l].name != d.name
    ensures ChangeFor(current, d).desired == Some(d.(id := Some(current[at].id)))
    ensures ChangeFor(current, d).current.Some? && ChangeFor(current, d).current.value.id == current[at].id
  {
    IndexIsLast(current, NameOf, at);
    if d.id.Some? {
      IndexMisses(current, IdOf, d.id.value);
    }
    ChangeShape(current, d);
  }

  /** Each delete change deletes a current condition whose id is unclaimed. */
  lemma {:induction false} DeletionsSound(cs: seq<Fetched>, claimed: set<Id>)
    ensures forall e :: e in Deletions(cs, claimed) ==>
              e.desired.None? && e.current.Some? && e.current.value in cs && e.current.value.id !in claimed
  {
    if cs != [] {
      var init := cs[..|cs| - 1];
      DeletionsSound(init, claimed);
      assert forall c :: c in init ==> c in cs;
    }
  }

  /** A current condition is deleted exactly as often as it occurs in the
      current list when its id is unclaimed, and never otherwise. */
  lemma {:induction false} DeletionsCount(cs: seq<Fetched>, claimed: set<Id>, c: Fetched)
    ensures multiset(Deletions(cs, claimed))[ConditionChange(Some(c), None)] ==
              if c.id in claimed then 0 else multiset(cs)[c]
  {
    if cs != [] {
      var init, last := cs[..|cs| - 1], cs[|cs| - 1];
      DeletionsCount(init, claimed, c);
      assert cs == init + [last];
    }
  }

  /** With every id claimed there is nothing to delete. */
  lemma {:induction false} DeletionsNone(cs: seq<Fetched>, claimed: set<Id>)
    requires forall c :: c in cs ==> c.id in claimed
    ensures Deletions(cs, claimed) == []
  {
    if cs != [] {
      var init := cs[..|cs| - 1];
      assert forall c :: c in init ==> c in cs;
      DeletionsNone(init, claimed);
    }
  }

  /** Deleting distributes over concatenation, so deletes keep the order of
      the current list. */
  lemma {:induction false} DeletionsAppend(a: seq<Fetched>, b: seq<Fetched>, claimed: set<Id>)
    ensures Deletions(a + b, claimed) == Deletions(a, claimed) + Deletions(b, claimed)
  {
    if b != [] {
      var init := b[..|b| - 1];
      assert (a + b)[..|a + b| - 1] == a + init;
      DeletionsAppend(a, init, claimed);
    } else {
      assert a + b == a;
    }
  }

  /** The shape of the whole diff: one change per desired condition, in
      document order, followed by the deletes in current-list order. */
  lemma {:induction false} DiffShape(current: seq<Fetched>, desired: seq<Condition>)
    ensures var r, tail := Diff(current, desired), Deletions(current, ClaimedIds(current, desired));
            && |r| == |desired| + |tail|
            && (forall j :: 0 <= j < |desired| ==> r[j] == ChangeFor(current, desired[j]))
            && (forall j :: |desired| <= j < |r| ==> r[j] == tail[j - |desired|])
  {
  }

  /** Only the changes past the desired ones are deletes; every desired
      condition yields a change that carries it. */
  lemma {:induction false} DiffSides(current: seq<Fetched>, desired: seq<Condition>)
    ensures var r := Diff(current, desired);
            && (forall j :: 0 <= j < |desired| ==> r[j].desired.Some?)
            && (forall j :: |desired| <= j < |r| ==> r[j].desired.None? && r[j].current.Some?)
  {
    var r, tail := Diff(current, desired), Deletions(current, ClaimedIds(current, desired));
    DiffShape(current, desired);
    forall j | 0 <= j < |desired|
      ensures r[j].desired.Some?
    {
      ChangeShape(current, desired[j]);
    }
    DeletionsSound(current, ClaimedIds(current, desired));
    forall j | |desired| <= j < |r|
      ensures r[j].desired.None? && r[j].current.Some?
    {
      assert tail[j - |desired|] in tail;
    }
  }

  /** A current condition is deleted exactly when no desired condition
      claimed its id. */
  lemma {:induction false} DeletedIffUnclaimed(current: seq<Fetched>, desired: seq<Condition>, c: Fetched)
    requires c in current
    ensures ConditionChange(Some(c), None) in Diff(current, desired) <==> c.id !in ClaimedIds(current, desired)
  {
    var r, claimed := Diff(current, desired), ClaimedIds(current, desired);
    var del := ConditionChange(Some(c), None);
    var tail := Deletions(current, claimed);
    DiffShape(current, desired);
    DiffSides(current, desired);
    DeletionsCount(current, claimed, c);
    assert multiset(current)[c] > 0;
    assert r == Proposals(current, desired) + tail;
    if del in r {
      var j :| 0 <= j < |r| && r[j] == del;
      assert j >= |desired|;
      assert del in tail;
    }
    if c.id !in claimed {
      assert del in tail;
      var j :| 0 <= j < |tail| && tail[j] == del;
      assert r[|desired| + j] == del;
    }
  }

  /** The desired list that repeats the current list, ids included. */
  function AsDesired(current: seq<Fetched>): (r: seq<Condition>)
    ensures |r| == |current|
    ensures forall j :: 0 <= j < |r| ==> r[j] == Condition(Some(current[j].id), current[j].name, current[j].attrs)
  {
    if current == [] then []
    else AsDesired(current[..|current| - 1]) + [Condition(Some(current[|current| - 1].id), current[|current| - 1].name, current[|current| - 1].attrs)]
  }

  /** No-op convergence: reconciling the current list against itself yields
      only updates, never a create or a delete. */
  lemma NoOpConvergence(current: seq<Fetched>)
    ensures forall ch :: ch in Diff(current, AsDesired(current)) ==> ch.current.Some? && ch.desired.Some?
  {
    var desired := AsDesired(current);
    var claimed := ClaimedIds(current, desired);
    forall j | 0 <= j < |current|
      ensures ResolveId(current, desired[j]) == Some(current[j].id)
    {
      IndexHas(current, IdOf, current[j]);
    }
    forall c | c in current
      ensures c.id in claimed
    {
      var j :| 0 <= j < |current| && current[j] == c;
      ClaimedIdsSpec(current, desired, c.id);
    }
    DeletionsNone(current, claimed);
    var r := Diff(current, desired);
    assert r == Proposals(current, desired) || r == [];
    forall ch | ch in r
      ensures ch.current.Some? && ch.desired.Some?
    {
      var j :| 0 <= j < |r| && r[j] == ch;
      assert ch == ChangeFor(current, desired[j]);
    }
  }

  /** `Deletions` over a two-element list. */
  lemma DeletionsOfTwo(c1: Fetched, c2: Fetched, claimed: set<Id>)
    ensures Deletions([c1, c2], claimed) ==
              (if c1.id in claimed then [] else [ConditionChange(Some(c1), None)])
              + (if c2.id in claimed then [] else [ConditionChange(Some(c2), None)])
  {
    assert [c1, c2][..1] == [c1];
    assert [c1][..0] == [];
    assert Deletions([c1], claimed) == (if c1.id in claimed then [] else [ConditionChange(Some(c1), None)]);
  }

  /** Name matches are not consumed: with current `[{id:1,name:A},{id:2,name:A}]`
      and desired `[{name:A}, {name:A}, {name:A}]` every desired condition
      adopts id 2 (the last `A`), giving three updates of the same current
      condition, and the condition with id 1 is deleted. */
  lemma RepeatedNameScenario()
    ensures var c1, c2 := Fetched(1, "A", map[]), Fetched(2, "A", map[]);
            var d := Condition(None, "A", map[]);
            var u := ConditionChange(Some(c2), Some(d.(id := Some(2))));
            Diff([c1, c2], [d, d, d]) == [u, u, u, ConditionChange(Some(c1), None)]
  {
    var c1, c2 := Fetched(1, "A", map[]), Fetched(2, "A", map[]);
    var d := Condition(None, "A", map[]);
    var u := ConditionChange(Some(c2), Some(d.(id := Some(2))));
    var cur, des := [c1, c2], [d, d, d];
    NameAdoption(cur, d, 1);
    IndexIsLast(cur, IdOf, 1);
    assert ChangeFor(cur, d) == u;
    assert Proposals(cur, des) == [u, u, u];
    var claimed := ClaimedIds(cur, des);
    ClaimedIdsSpec(cur, des, 1);
    ClaimedIdsSpec(cur, des, 2);
    assert 2 in claimed && 1 !in claimed;
    DeletionsOfTwo(c1, c2, claimed);
  }

  /** A current `{id:9,name:cpu-high}` against desired `cpu-high` (threshold 90)
      and `mem-high` (threshold 80): one update adopting id 9, one create,
      and no delete. */
  lemma CpuMemScenario()
    ensures var cpu := Fetched(9, "cpu-high", map[]);
            var dcpu := Condition(None, "cpu-high", map["threshold" := "90"]);
            var dmem := Condition(None, "mem-high", map["threshold" := "80"]);
            Diff([cpu], [dcpu, dmem]) ==
              [ConditionChange(Some(cpu), Some(dcpu.(id := Some(9)))), ConditionChange(None, Some(dmem))]
  {
  }
}
