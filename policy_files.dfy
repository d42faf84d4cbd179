/** The dictionary part of alertsync/policy_files.py: splitting a parsed
    policy document into its policy fields and its condition lists, checking
    that condition ids are unique per list, and joining the two back into a
    document. Template rendering and YAML are not part of this model: the
    document arrives already parsed. */
module PolicyFiles {
  import opened Wrappers
  import opened Errors
  import opened Documents

  /** The top-level keys `parse` files under the policy. */
  const PolicyKeys: set<string> := {"name", "incident_preference"}

  /** No two objects that carry the field share its value. */
  ghost predicate FieldUnique<T, V>(objs: seq<T>, field: T -> Option<V>)
  {
    forall i, j :: 0 <= i < j < |objs| && field(objs[i]).Some? && field(objs[j]).Some? ==>
      field(objs[i]).value != field(objs[j]).value
  }

  /** `assert_field_unique(iterable, key)`, with `field(obj)` standing for
      `obj[key] if key in obj`. It returns `None` where the source returns
      True, and `Some(j)` where it fails its assertion at object `j`: the
      first object whose value repeats one seen before. */
  method AssertFieldUnique<T, V(==)>(iterable: seq<T>, field: T -> Option<V>) returns (failedAt: Option<nat>)
    ensures failedAt.None? <==> FieldUnique(iterable, field)
    ensures failedAt.Some? ==>
              && failedAt.value < |iterable|
              && FieldUnique(iterable[..failedAt.value], field)
              && field(iterable[failedAt.value]).Some?
              && exists i :: 0 <= i < failedAt.value && field(iterable[i]) == field(iterable[failedAt.value])
  {
    var seenValues: set<V> := {};
    for k := 0 to |iterable|
      invariant FieldUnique(iterable[..k], field)
      invariant forall v :: v in seenValues ==> exists i :: 0 <= i < k && field(iterable[i]) == Some(v)
      invariant forall i :: 0 <= i < k && field(iterable[i]).Some? ==> field(iterable[i]).value in seenValues
    {
      var f := field(iterable[k]);
      if f.Some? && f.value in seenValues {
        return Some(k);
      }
      ExtendUnique(iterable, field, k);
      if f.Some? {
        seenValues := seenValues + {f.value};
      }
    }
    assert iterable[..|iterable|] == iterable;
    return None;
  }

  /** One more object keeps the prefix unique when its value is new. */
  lemma ExtendUnique<T, V>(objs: seq<T>, field: T -> Option<V>, k: nat)
    requires k < |objs| && FieldUnique(objs[..k], field)
    requires field(objs[k]).Some? ==> forall i :: 0 <= i < k ==> field(objs[i]) != field(objs[k])
    ensures FieldUnique(objs[..k + 1], field)
  {
  }

  /** The id field of a document condition. */
  function IdField(c: Condition): Option<Id> { c.id }

  /** A condition list that the id check of `parse` rejects. A scalar never
      is: iterating a string gives one-character strings, none of which
      contains the key `id`. */
  ghost predicate HasDuplicateIds(v: Value)
  {
    v.Conditions? && !FieldUnique(v.items, IdField)
  }

  /** The policy fields of a document. */
  function PolicyPart(document: Document): (p: Document)
    ensures p.Keys <= PolicyKeys
  {
    map k | k in document && k in PolicyKeys :: document[k]
  }

  /** The condition lists of a document: every other top-level key. */
  function ConditionPart(document: Document): (c: Document)
    ensures c.Keys !! PolicyKeys
  {
    map k | k in document && k !in PolicyKeys :: document[k]
  }

  /** `parse` after rendering and loading: every top-level key goes to the
      policy or to the conditions, and unless `ignoreConditionIds` each
      condition list must have unique ids (the source exits naming the
      offending condition type). */
  method Parse(document: Document, ignoreConditionIds: bool) returns (r: Result<(Document, Document), Error>)
    ensures r.Success? ==> r.value == (PolicyPart(document), ConditionPart(document))
    ensures r.Failure? <==>
              !ignoreConditionIds && exists t :: t in ConditionPart(document) && HasDuplicateIds(ConditionPart(document)[t])
    ensures r.Failure? ==>
              && r.error.DuplicateConditionId?
              && r.error.conditionType in ConditionPart(document)
              && HasDuplicateIds(ConditionPart(document)[r.error.conditionType])
  {
    var policy: Document := map[];
    var conditions: Document := map[];
    var pending := document.Keys;
    while pending != {}
      invariant pending <= document.Keys
      invariant policy == map k | k in document && k !in pending && k in PolicyKeys :: document[k]
      invariant conditions == map k | k in document && k !in pending && k !in PolicyKeys :: document[k]
      decreases pending
    {
      var key :| key in pending;
      if key in ["name", "incident_preference"] {
        policy := policy[key := document[key]];
      } else {
        conditions := conditions[key := document[key]];
      }
      pending := pending - {key};
    }
    assert policy == PolicyPart(document);
    assert conditions == ConditionPart(document);
    if !ignoreConditionIds {
      var unchecked := conditions.Keys;
      while unchecked != {}
        invariant unchecked <= conditions.Keys
        invariant forall t :: t in conditions && t !in unchecked ==> !HasDuplicateIds(conditions[t])
        decreases unchecked
      {
        var conditionTypeName :| conditionTypeName in unchecked;
        match conditions[conditionTypeName] {
          case Scalar(_) =>
          case Conditions(conditionList) =>
            var failedAt := AssertFieldUnique(conditionList, IdField);
            if failedAt.Some? {
              return Failure(DuplicateConditionId(conditionTypeName));
            }
        }
        unchecked := unchecked - {conditionTypeName};
      }
    }
    return Success((policy, conditions));
  }

  /** `build_document(policy, conditions)`: the policy's name and incident
      preference, then every condition key, a condition key overriding a
      policy field of the same name. A missing policy field is a KeyError. */
  function BuildDocument(policy: Document, conditions: Document): (r: Result<Document, Error>)
    ensures "name" !in policy ==> r == Failure(MissingKey("name"))
    ensures "name" in policy && "incident_preference" !in policy ==> r == Failure(MissingKey("incident_preference"))
    ensures r.Success? <==> PolicyKeys <= policy.Keys
    ensures r.Success? ==>
              && r.value.Keys == PolicyKeys + conditions.Keys
              && (forall k :: k in conditions ==> r.value[k] == conditions[k])
              && (forall k :: k in PolicyKeys && k !in conditions ==> r.value[k] == policy[k])
  {
    if "name" !in policy then Failure(MissingKey("name"))
    else if "incident_preference" !in policy then Failure(MissingKey("incident_preference"))
    else Success(map["name" := policy["name"], "incident_preference" := policy["incident_preference"]] + conditions)
  }

  /** The split loses no key and files none twice. */
  lemma SplitPartition(document: Document)
    ensures PolicyPart(document).Keys !! ConditionPart(document).Keys
    ensures PolicyPart(document).Keys + ConditionPart(document).Keys == document.Keys
    ensures forall k :: k in PolicyPart(document) ==> PolicyPart(document)[k] == document[k]
    ensures forall k :: k in ConditionPart(document) ==> ConditionPart(document)[k] == document[k]
  {
  }

  /** Round trip: joining the split of a document that has both policy
      fields gives the document back. */
  lemma {:induction false} SplitJoinRoundTrip(document: Document)
    requires PolicyKeys <= document.Keys
    ensures BuildDocument(PolicyPart(document), ConditionPart(document)) == Success(document)
  {
    var p, c := PolicyPart(document), ConditionPart(document);
    assert "name" in p && "incident_preference" in p;
    assert BuildDocument(p, c).Success?;
    var r := BuildDocument(p, c).value;
    assert r.Keys == document.Keys;
    forall k | k in document
      ensures r[k] == document[k]
    {
      if k in PolicyKeys {
        assert k !in c && r[k] == p[k];
      }
    }
    assert r == document;
  }
}
