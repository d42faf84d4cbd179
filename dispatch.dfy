/** `update_conditions` (alertsync/nr_api.py): for every condition kind, the
    changes `compare_updated_conditions` yields are turned into API calls. A
    change with only a current side deletes that condition, a change with
    only a desired side creates it on the policy, and an update pairs
    nothing with a call. The calls are modelled as effect values in the
    order they are issued. */
module Dispatch {
  import opened Wrappers
  import opened Errors
  import opened ConditionKinds
  import opened Reconcile
  import opened Documents

  /** An API call `update_conditions` issues. */
  datatype Effect =
    | DeleteCondition(conditionId: Id, kind: Kind)
    | CreateCondition(policyId: Id, kind: Kind, condition: Condition)

  /** The calls one change issues: the two independent tests of the loop body. */
  function EffectsOf(policyId: Id, kind: Kind, change: ConditionChange): (r: seq<Effect>)
    ensures |r| <= 1
    ensures r == [] <==> (change.current.Some? <==> change.desired.Some?)
  {
    (if change.current.Some? && change.desired.None? then [DeleteCondition(change.current.value.id, kind)] else [])
    + (if change.desired.Some? && change.current.None? then [CreateCondition(policyId, kind, change.desired.value)] else [])
  }

  /** The calls a sequence of changes issues, in order. */
  function Dispatched(policyId: Id, kind: Kind, changes: seq<ConditionChange>): seq<Effect>
  {
    if changes == [] then []
    else EffectsOf(policyId, kind, changes[0]) + Dispatched(policyId, kind, changes[1..])
  }

  lemma {:induction false} DispatchedAppend(policyId: Id, kind: Kind, a: seq<ConditionChange>, b: seq<ConditionChange>)
    ensures Dispatched(policyId, kind, a + b) == Dispatched(policyId, kind, a) + Dispatched(policyId, kind, b)
  {
    if a == [] {
      assert a + b == b;
    } else {
      assert (a + b)[1..] == a[1..] + b;
      DispatchedAppend(policyId, kind, a[1..], b);
    }
  }

  /** Reference definition of the creations: one per desired condition that
      resolves to no current condition, in document order, carrying the
      desired condition without an id. */
  function Creations(policyId: Id, kind: Kind, current: seq<Fetched>, desired: seq<Condition>): seq<Effect>
  {
    if desired == [] then []
    else
      (if ResolveId(current, desired[0]).None? then [CreateCondition(policyId, kind, desired[0].(id := None))] else [])
      + Creations(policyId, kind, current, desired[1..])
  }

  /** Reference definition of the deletions: one per current condition whose
      id no desired condition claims, in listing order. */
  function Removals(kind: Kind, cs: seq<Fetched>, claimed: set<Id>): seq<Effect>
  {
    if cs == [] then []
    else
      Removals(kind, cs[..|cs| - 1], claimed)
      + (if cs[|cs| - 1].id in claimed then [] else [DeleteCondition(cs[|cs| - 1].id, kind)])
  }

  lemma {:induction false} ProposalsDispatch(policyId: Id, kind: Kind, current: seq<Fetched>, desired: seq<Condition>)
    ensures Dispatched(policyId, kind, Proposals(current, desired)) == Creations(policyId, kind, current, desired)
  {
    if desired != [] {
      var ps := Proposals(current, desired);
      assert ps == [ChangeFor(current, desired[0])] + Proposals(current, desired[1..]);
      DispatchedAppend(policyId, kind, [ChangeFor(current, desired[0])], Proposals(current, desired[1..]));
      assert Dispatched(policyId, kind, [ChangeFor(current, desired[0])]) == EffectsOf(policyId, kind, ChangeFor(current, desired[0]));
      ProposalsDispatch(policyId, kind, current, desired[1..]);
    }
  }

  lemma {:induction false} DeletionsDispatch(policyId: Id, kind: Kind, cs: seq<Fetched>, claimed: set<Id>)
    ensures Dispatched(policyId, kind, Deletions(cs, claimed)) == Removals(kind, cs, claimed)
  {
    if cs != [] {
      var last := cs[|cs| - 1];
      var tail := if last.id in claimed then [] else [ConditionChange(Some(last), None)];
      DeletionsDispatch(policyId, kind, cs[..|cs| - 1], claimed);
      DispatchedAppend(policyId, kind, Deletions(cs[..|cs| - 1], claimed), tail);
      if tail != [] {
        assert Dispatched(policyId, kind, tail) == EffectsOf(policyId, kind, tail[0]);
      }
    }
  }

  /** What one kind's reconciliation issues: first a creation for every
      desired condition that matches nothing, then a deletion for every
      current condition left unclaimed; updates issue nothing. */
  lemma {:induction false} DispatchOfDiff(policyId: Id, kind: Kind, current: seq<Fetched>, desired: seq<Condition>)
    ensures Dispatched(policyId, kind, Diff(current, desired))
            == Creations(policyId, kind, current, desired) + Removals(kind, current, ClaimedIds(current, desired))
  {
    if !(current == [] && desired == []) {
      DispatchedAppend(policyId, kind, Proposals(current, desired), Deletions(current, ClaimedIds(current, desired)));
      ProposalsDispatch(policyId, kind, current, desired);
      DeletionsDispatch(policyId, kind, current, ClaimedIds(current, desired));
    }
  }

  /** `new_conditions.get(plural, [])` as the reconciliation consumes it. A
      missing key is an empty list; an empty string iterates as one; any other
      string fails on its first character, which is not a condition. */
  function DesiredFor(newConditions: Document, plural: string): (r: Result<seq<Condition>, Error>)
    ensures plural !in newConditions ==> r == Success([])
    ensures plural in newConditions && newConditions[plural] == Scalar("") ==> r == Success([])
    ensures r.Failure? <==> plural in newConditions && newConditions[plural].Scalar? && newConditions[plural].text != ""
    ensures plural in newConditions && newConditions[plural].Conditions? ==> r == Success(newConditions[plural].items)
  {
    if plural !in newConditions then Success([])
    else match newConditions[plural]
      case Conditions(items) => Success(items)
      case Scalar(text) => if text == "" then Success([]) else Failure(NotAConditionList(plural))
  }

  /** The calls for one kind, or the error that stops `update_conditions` at
      it: the listing's missing envelope key is met before the desired
      value's first element. */
  function PlanFor(policyId: Id, newConditions: Document, listing: map<string, seq<Fetched>>, kind: Kind)
    : (r: Result<seq<Effect>, Error>)
  {
    var key := EnvelopeKey(Plural(kind));
    if key !in listing then Failure(MissingKey(key))
    else match DesiredFor(newConditions, Plural(kind))
      case Failure(e) => Failure(e)
      case Success(desired) => Success(Dispatched(policyId, kind, Diff(listing[key], desired)))
  }

  /** The calls issued over a sequence of kinds and the error, if any, that
      ended the run; the calls issued before an error stand. */
  function Planned(policyId: Id, newConditions: Document, listings: Kind -> map<string, seq<Fetched>>, kinds: seq<Kind>)
    : (seq<Effect>, Option<Error>)
  {
    if kinds == [] then ([], None)
    else
      var (before, err) := Planned(policyId, newConditions, listings, kinds[..|kinds| - 1]);
      if err.Some? then (before, err)
      else match PlanFor(policyId, newConditions, listings(kinds[|kinds| - 1]), kinds[|kinds| - 1])
        case Failure(e) => (before, Some(e))
        case Success(effects) => (before + effects, None)
  }

  /** `update_conditions(policy_id, new_conditions)`. `listings(kind)` is what
      the listing call returns for the kind on this policy. */
  method UpdateConditions(policyId: Id, newConditions: Document, listings: Kind -> map<string, seq<Fetched>>)
    returns (effects: seq<Effect>, err: Option<Error>)
    ensures (effects, err) == Planned(policyId, newConditions, listings, AllKinds)
  {
    effects, err := [], None;
    for i := 0 to |AllKinds|
      invariant (effects, err) == Planned(policyId, newConditions, listings, AllKinds[..i])
      invariant err.None?
    {
      var kind := AllKinds[i];
      var issued := UpdateKind(policyId, newConditions, listings(kind), kind);
      PlannedSnoc(policyId, newConditions, listings, AllKinds, i);
      if issued.Failure? {
        err := Some(issued.error);
        PlannedStops(policyId, newConditions, listings, AllKinds[..i + 1], AllKinds[i + 1..]);
        assert AllKinds[..i + 1] + AllKinds[i + 1..] == AllKinds;
        return;
      }
      effects := effects + issued.value;
    }
    Whole(AllKinds);
  }

  /** The body of the loop over condition kinds: reconcile one kind and issue
      the calls its changes ask for. */
  method UpdateKind(policyId: Id, newConditions: Document, listing: map<string, seq<Fetched>>, kind: Kind)
    returns (r: Result<seq<Effect>, Error>)
    ensures r == PlanFor(policyId, newConditions, listing, kind)
  {
    var plural := Plural(kind);
    var desired := DesiredFor(newConditions, plural);
    var changes := CompareUpdatedConditions(plural, listing, if desired.Success? then desired.value else []);
    if changes.Failure? {
      return Failure(changes.error);
    }
    if desired.Failure? {
      return Failure(desired.error);
    }
    var effects := IssueCalls(policyId, kind, changes.value);
    return Success(effects);
  }

  /** The inner loop of `update_conditions`: one delete for a change with only
      a current side, one create for a change with only a desired side. */
  method IssueCalls(policyId: Id, kind: Kind, changes: seq<ConditionChange>) returns (effects: seq<Effect>)
    ensures effects == Dispatched(policyId, kind, changes)
  {
    effects := [];
    for c := 0 to |changes|
      invariant effects == Dispatched(policyId, kind, changes[..c])
    {
      var change := changes[c];
      DispatchedSnoc(policyId, kind, changes, c);
      if change.current.Some? && change.desired.None? {
        effects := effects + [DeleteCondition(change.current.value.id, kind)];
      }
      if change.desired.Some? && change.current.None? {
        effects := effects + [CreateCondition(policyId, kind, change.desired.value)];
      }
    }
    Whole(changes);
  }

  lemma DispatchedSnoc(policyId: Id, kind: Kind, changes: seq<ConditionChange>, c: int)
    requires 0 <= c < |changes|
    ensures Dispatched(policyId, kind, changes[..c + 1])
            == Dispatched(policyId, kind, changes[..c]) + EffectsOf(policyId, kind, changes[c])
  {
    assert changes[..c + 1] == changes[..c] + [changes[c]];
    DispatchedAppend(policyId, kind, changes[..c], [changes[c]]);
  }

  lemma PlannedSnoc(policyId: Id, newConditions: Document, listings: Kind -> map<string, seq<Fetched>>,
                    kinds: seq<Kind>, i: int)
    requires 0 <= i < |kinds|
    ensures Planned(policyId, newConditions, listings, kinds[..i + 1])
            == var (before, err) := Planned(policyId, newConditions, listings, kinds[..i]);
               if err.Some? then (before, err)
               else match PlanFor(policyId, newConditions, listings(kinds[i]), kinds[i])
                 case Failure(e) => (before, Some(e))
                 case Success(effects) => (before + effects, None)
  {
    assert kinds[..i + 1][..i] == kinds[..i];
  }

  /** Once a prefix of the kinds ends in an error, later kinds change nothing. */
  lemma {:induction false} PlannedStops(policyId: Id, newConditions: Document, listings: Kind -> map<string, seq<Fetched>>,
                                        kinds: seq<Kind>, more: seq<Kind>)
    requires Planned(policyId, newConditions, listings, kinds).1.Some?
    ensures Planned(policyId, newConditions, listings, kinds + more) == Planned(policyId, newConditions, listings, kinds)
    decreases |more|
  {
    if more != [] {
      var init := more[..|more| - 1];
      assert (kinds + more)[..|kinds + more| - 1] == kinds + init;
      PlannedStops(policyId, newConditions, listings, kinds, init);
    } else {
      assert kinds + more == kinds;
    }
  }

  lemma {:induction false} DispatchedOnPolicy(policyId: Id, kind: Kind, changes: seq<ConditionChange>)
    ensures forall e :: e in Dispatched(policyId, kind, changes) && e.CreateCondition? ==> e.policyId == policyId
  {
    if changes != [] {
      DispatchedOnPolicy(policyId, kind, changes[1..]);
    }
  }

  /** Every creation is issued on the policy being updated. */
  lemma {:induction false} CreationsOnPolicy(policyId: Id, newConditions: Document,
                                             listings: Kind -> map<string, seq<Fetched>>, kinds: seq<Kind>)
    ensures forall e :: e in Planned(policyId, newConditions, listings, kinds).0 && e.CreateCondition? ==> e.policyId == policyId
  {
    if kinds != [] {
      var last := kinds[|kinds| - 1];
      CreationsOnPolicy(policyId, newConditions, listings, kinds[..|kinds| - 1]);
      var key := EnvelopeKey(Plural(last));
      if key in listings(last) && DesiredFor(newConditions, Plural(last)).Success? {
        DispatchedOnPolicy(policyId, last, Diff(listings(last)[key], DesiredFor(newConditions, Plural(last)).value));
      }
    }
  }
}
