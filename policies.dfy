/** Policy resolution in alertsync/nr_api.py: paging through the policy
    listing, looking a policy up by id or by exact name, and choosing between
    updating an existing policy and creating a new one. Responses of the API
    are parameters: `pages[n - 1]` is the `policies` list of page `n`, and a
    page past the end of `pages` is empty. */
module Policies {
  import opened Wrappers
  import opened Errors
  import opened Documents

  /** A policy as the API returns it (only the fields the tool reads). */
  datatype Policy = Policy(id: Id, name: string, incidentPreference: string)

  /** The `policies` list of page `index` (pages are numbered from 1). */
  function PageAt(pages: seq<seq<Policy>>, index: nat): (page: seq<Policy>)
    ensures 1 <= index <= |pages| ==> page == pages[index - 1]
    ensures index == 0 || index > |pages| ==> page == []
  {
    if 1 <= index <= |pages| then pages[index - 1] else []
  }

  /** What `policy_iter` yields: the pages in order, up to the first empty one. */
  function Listing(pages: seq<seq<Policy>>): seq<Policy>
  {
    if pages == [] || pages[0] == [] then [] else pages[0] + Listing(pages[1..])
  }

  /** `policy_iter()`: fetch page 1, 2, ... and yield their policies until a
      page comes back empty. */
  method PolicyIter(pages: seq<seq<Policy>>) returns (yielded: seq<Policy>)
    ensures yielded == Listing(pages)
  {
    yielded := [];
    var index := 1;
    while true
      invariant 1 <= index <= |pages| + 1
      invariant yielded + Listing(pages[index - 1..]) == Listing(pages)
      decreases |pages| + 1 - index
    {
      var policies := PageAt(pages, index);
      if |policies| > 0 {
        ListingUnfolds(pages, index - 1);
        for j := 0 to |policies|
          invariant yielded + policies[j..] + Listing(pages[index..]) == Listing(pages)
        {
          assert policies[j..] == [policies[j]] + policies[j + 1..];
          yielded := yielded + [policies[j]];
        }
        index := index + 1;
      } else {
        break;
      }
    }
    assert pages[index - 1..] == [] || pages[index - 1..][0] == [];
  }

  lemma ListingUnfolds(pages: seq<seq<Policy>>, n: int)
    requires 0 <= n < |pages| && pages[n] != []
    ensures Listing(pages[n..]) == pages[n] + Listing(pages[n + 1..])
  {
  }

  /** The listing is the pages before the first empty page, concatenated:
      anything after an empty page is never yielded. */
  lemma {:induction false} ListingStopsAtEmpty(pages: seq<seq<Policy>>, more: seq<seq<Policy>>)
    ensures Listing(pages + [[]] + more) == Listing(pages + [[]])
  {
    if pages != [] && pages[0] != [] {
      assert (pages + [[]] + more)[1..] == pages[1..] + [[]] + more;
      assert (pages + [[]])[1..] == pages[1..] + [[]];
      ListingStopsAtEmpty(pages[1..], more);
    }
  }

  /** Every policy of a non-empty page before the first empty one is listed. */
  lemma {:induction false} ListingHas(pages: seq<seq<Policy>>, n: int, p: Policy)
    requires 0 <= n < |pages| && p in pages[n]
    requires forall m :: 0 <= m < n ==> pages[m] != []
    ensures p in Listing(pages)
  {
    if n > 0 {
      assert pages[0] != [];
      ListingHas(pages[1..], n - 1, p);
    }
  }

  /** The first policy of a listing with the given id, if any. */
  function LookupById(policies: seq<Policy>, policyId: Id): Result<Policy, Error>
  {
    if policies == [] then Failure(NoSuchPolicyID)
    else if policies[0].id == policyId then Success(policies[0])
    else LookupById(policies[1..], policyId)
  }

  /** The lookup finds the earliest policy with the id, and fails with
      NoSuchPolicyID exactly when no listed policy has it. */
  lemma {:induction false} LookupByIdSpec(policies: seq<Policy>, policyId: Id)
    ensures var r := LookupById(policies, policyId);
            && (r.Success? ==>
                  exists k :: 0 <= k < |policies| && policies[k] == r.value && r.value.id == policyId
                              && forall j :: 0 <= j < k ==> policies[j].id != policyId)
            && (r.Failure? <==> forall p :: p in policies ==> p.id != policyId)
            && (r.Failure? ==> r.error == NoSuchPolicyID)
  {
    if policies != [] && policies[0].id != policyId {
      var tail := policies[1..];
      LookupByIdSpec(tail, policyId);
      var r := LookupById(tail, policyId);
      if r.Success? {
        var k :| 0 <= k < |tail| && tail[k] == r.value && r.value.id == policyId
                 && forall j :: 0 <= j < k ==> tail[j].id != policyId;
        assert policies[k + 1] == r.value;
        forall j | 0 <= j < k + 1
          ensures policies[j].id != policyId
        {
          if j > 0 {
            assert policies[j] == tail[j - 1];
          }
        }
      }
      assert policies == [policies[0]] + tail;
    }
  }

  /** `get_policy(policy_id)`: scan the listing for the id. */
  method GetPolicy(pages: seq<seq<Policy>>, policyId: Id) returns (r: Result<Policy, Error>)
    ensures r == LookupById(Listing(pages), policyId)
  {
    var policies := PolicyIter(pages);
    for k := 0 to |policies|
      invariant LookupById(policies[k..], policyId) == LookupById(policies, policyId)
    {
      assert policies[k..][1..] == policies[k + 1..];
      if policies[k].id == policyId {
        return Success(policies[k]);
      }
    }
    return Failure(NoSuchPolicyID);
  }

  /** The policies of a search response whose name is exactly `name`. */
  function ExactMatches(name: string, policies: seq<Policy>): seq<Policy>
  {
    if policies == [] then []
    else (if policies[0].name == name then [policies[0]] else []) + ExactMatches(name, policies[1..])
  }

  /** The exact matches are the policies of the response that carry the name. */
  lemma {:induction false} ExactMatchesSpec(name: string, policies: seq<Policy>)
    ensures forall p :: p in ExactMatches(name, policies) <==> p in policies && p.name == name
  {
    if policies != [] {
      ExactMatchesSpec(name, policies[1..]);
      assert policies == [policies[0]] + policies[1..];
    }
  }

  /** `find_policy(name)` on the `policies` list the name search returned. */
  function FindPolicy(name: string, policies: seq<Policy>): (r: Result<Policy, Error>)
    ensures r.Success? ==> r.value in policies && r.value.name == name
    ensures r.Failure? ==> r.error == TooManyPolicyMatches || r.error == NoSuchPolicyName
    ensures r == Failure(NoSuchPolicyName) <==> forall p :: p in policies ==> p.name != name
  {
    var exactMatches := ExactMatches(name, policies);
    ExactMatchesSpec(name, policies);
    if |exactMatches| > 1 then
      assert exactMatches[0] in exactMatches;
      Failure(TooManyPolicyMatches)
    else if |exactMatches| == 1 then
      assert exactMatches[0] in exactMatches;
      Success(exactMatches[0])
    else
      assert exactMatches == [];
      Failure(NoSuchPolicyName)
  }

  /** Two entries of the response carry the name. */
  ghost predicate NamedTwice(name: string, policies: seq<Policy>)
  {
    exists i, j :: 0 <= i < j < |policies| && policies[i].name == name && policies[j].name == name
  }

  lemma {:induction false} TwoMatches(name: string, policies: seq<Policy>)
    ensures |ExactMatches(name, policies)| > 1 <==> NamedTwice(name, policies)
  {
    if NamedTwice(name, policies) {
      NamedTwiceMatches(name, policies);
    }
    if |ExactMatches(name, policies)| > 1 {
      MatchesNamedTwice(name, policies);
    }
  }

  lemma {:induction false} NamedTwiceMatches(name: string, policies: seq<Policy>)
    requires NamedTwice(name, policies)
    ensures |ExactMatches(name, policies)| > 1
  {
    var i, j :| 0 <= i < j < |policies| && policies[i].name == name && policies[j].name == name;
    var tail := policies[1..];
    assert tail[j - 1] == policies[j];
    if i > 0 {
      assert tail[i - 1] == policies[i];
      assert NamedTwice(name, tail);
      NamedTwiceMatches(name, tail);
    } else {
      ExactMatchesSpec(name, tail);
      assert policies[j] in ExactMatches(name, tail);
    }
  }

  lemma {:induction false} MatchesNamedTwice(name: string, policies: seq<Policy>)
    requires |ExactMatches(name, policies)| > 1
    ensures NamedTwice(name, policies)
  {
    var tail := policies[1..];
    if policies[0].name == name {
      assert |ExactMatches(name, tail)| > 0;
      SecondMatch(name, policies);
    } else {
      assert ExactMatches(name, policies) == ExactMatches(name, tail);
      MatchesNamedTwice(name, tail);
      var i, j :| 0 <= i < j < |tail| && tail[i].name == name && tail[j].name == name;
      assert policies[i + 1].name == name && policies[j + 1].name == name;
    }
  }

  lemma SecondMatch(name: string, policies: seq<Policy>)
    requires policies != [] && policies[0].name == name
    requires |ExactMatches(name, policies[1..])| > 0
    ensures NamedTwice(name, policies)
  {
    var tail := policies[1..];
    var other := ExactMatches(name, tail)[0];
    ExactMatchesSpec(name, tail);
    assert other in tail && other.name == name;
    var k :| 0 <= k < |tail| && tail[k] == other;
    assert policies[k + 1].name == name;
  }

  /** The three outcomes of `find_policy`: a name carried twice is ambiguous,
      a name carried once finds that policy, a name carried by none is
      unknown. */
  lemma FindPolicyOutcomes(name: string, policies: seq<Policy>)
    ensures FindPolicy(name, policies) == Failure(TooManyPolicyMatches) <==> NamedTwice(name, policies)
    ensures FindPolicy(name, policies).Success? <==>
              (exists p :: p in policies && p.name == name) && !NamedTwice(name, policies)
    ensures forall i :: 0 <= i < |policies| && policies[i].name == name && !NamedTwice(name, policies) ==>
              FindPolicy(name, policies) == Success(policies[i])
  {
    TwoMatches(name, policies);
    forall i | 0 <= i < |policies| && policies[i].name == name && !NamedTwice(name, policies)
      ensures FindPolicy(name, policies) == Success(policies[i])
    {
      var m := ExactMatches(name, policies);
      ExactMatchesSpec(name, policies);
      assert policies[i] in m;
      assert |m| == 1;
    }
  }

  /** Python truthiness of an optional policy id: `None` and 0 are false. */
  predicate Truthy(policyId: Option<Id>)
  {
    policyId.Some? && policyId.value != 0
  }

  /** The write `create_or_update_policy` issues. */
  datatype PolicyCall =
    | UpdatePolicy(id: Id, name: string, incidentPreference: string)
    | CreatePolicy(name: string, incidentPreference: string)

  /** The write issued and the id of the policy it wrote (the `id` of the
      dictionary returned to the caller). */
  datatype Upserted = Upserted(call: PolicyCall, id: Id)

  /** `create_or_update_policy(name, incident_preference, policy_id)`.
      `searchResult` is the response of the name search `find_policy` makes,
      and `createdId` the id the API assigns if a policy is created. */
  function CreateOrUpdatePolicy(name: string, incidentPreference: string, policyId: Option<Id>,
                                searchResult: seq<Policy>, createdId: Id): (r: Result<Upserted, Error>)
    ensures Truthy(policyId) ==>
              r == Success(Upserted(UpdatePolicy(policyId.value, name, incidentPreference), policyId.value))
    ensures r.Failure? <==> !Truthy(policyId) && FindPolicy(name, searchResult) == Failure(TooManyPolicyMatches)
    ensures r.Failure? ==> r.error == TooManyPolicyMatches
    ensures r.Success? ==> r.value.call.name == name && r.value.call.incidentPreference == incidentPreference
    ensures r.Success? && r.value.call.UpdatePolicy? ==> r.value.id == r.value.call.id
    ensures r.Success? && r.value.call.CreatePolicy? ==> r.value.id == createdId
  {
    if Truthy(policyId) then
      Success(Upserted(UpdatePolicy(policyId.value, name, incidentPreference), policyId.value))
    else
      match FindPolicy(name, searchResult)
      case Success(found) => Success(Upserted(UpdatePolicy(found.id, name, incidentPreference), found.id))
      case Failure(e) =>
        if e == NoSuchPolicyName then Success(Upserted(CreatePolicy(name, incidentPreference), createdId))
        else Failure(e)
  }

  /** Without a usable id the tool updates the one policy that carries the
      name, creates a policy when none does, and writes nothing when the name
      is ambiguous. */
  lemma UpsertByName(name: string, incidentPreference: string, policyId: Option<Id>,
                     searchResult: seq<Policy>, createdId: Id)
    requires !Truthy(policyId)
    ensures var r := CreateOrUpdatePolicy(name, incidentPreference, policyId, searchResult, createdId);
            && (NamedTwice(name, searchResult) <==> r == Failure(TooManyPolicyMatches))
            && ((forall p :: p in searchResult ==> p.name != name) <==>
                  r == Success(Upserted(CreatePolicy(name, incidentPreference), createdId)))
            && (forall i :: 0 <= i < |searchResult| && searchResult[i].name == name && !NamedTwice(name, searchResult) ==>
                  r == Success(Upserted(UpdatePolicy(searchResult[i].id, name, incidentPreference), searchResult[i].id)))
  {
    FindPolicyOutcomes(name, searchResult);
  }
}
