/** The command-line layer of alertsync/__main__.py: the `--vars` action that
    turns `key=value` words into a dictionary on the argument namespace, and
    the call sequences of the `upload` and `download` commands. Files,
    templates and YAML are outside the model: `upload` receives the parsed
    document and `download` returns the document it would write. */
module Cli {
  import opened Wrappers
  import opened Errors
  import opened ConditionKinds
  import opened Documents
  import opened Reconcile
  import opened PolicyFiles
  import opened Dispatch
  import opened Policies

  /** `s.split(sep)` for a one-character separator: the pieces between
      separators, empty pieces included. */
  function Split(s: string, sep: char): (parts: seq<string>)
    ensures |parts| >= 1
  {
    if s == [] then [""]
    else
      var rest := Split(s[1..], sep);
      if s[0] == sep then [""] + rest else [[s[0]] + rest[0]] + rest[1..]
  }

  /** `sep.join(parts)`. */
  function Join(parts: seq<string>, sep: char): string
  {
    if parts == [] then ""
    else if |parts| == 1 then parts[0]
    else parts[0] + [sep] + Join(parts[1..], sep)
  }

  /** A string splits into one more piece than it has separators. */
  lemma {:induction false} SplitCount(s: string, sep: char)
    ensures |Split(s, sep)| == multiset(s)[sep] + 1
  {
    if s != [] {
      SplitCount(s[1..], sep);
      assert s == [s[0]] + s[1..];
      assert multiset(s) == multiset([s[0]]) + multiset(s[1..]);
    }
  }

  /** Joining the pieces with the separator gives the string back. */
  lemma {:induction false} SplitJoin(s: string, sep: char)
    ensures Join(Split(s, sep), sep) == s
  {
    if s != [] {
      var rest := Split(s[1..], sep);
      SplitJoin(s[1..], sep);
      if s[0] == sep {
        assert ([""] + rest)[1..] == rest;
        assert Join([""] + rest, sep) == "" + [sep] + Join(rest, sep);
      } else {
        var parts := [[s[0]] + rest[0]] + rest[1..];
        if |rest| == 1 {
          assert Join(rest, sep) == rest[0];
        } else {
          assert parts[1..] == rest[1..];
          assert Join(rest, sep) == rest[0] + [sep] + Join(rest[1..], sep);
        }
      }
    }
  }

  /** No piece contains the separator. */
  lemma {:induction false} SplitPieces(s: string, sep: char)
    ensures forall part :: part in Split(s, sep) ==> sep !in part
  {
    if s != [] {
      SplitPieces(s[1..], sep);
      var rest := Split(s[1..], sep);
      if s[0] != sep {
        assert rest[0] in rest;
        forall part | part in Split(s, sep)
          ensures sep !in part
        {
          if part != [s[0]] + rest[0] {
            assert part in rest[1..];
          }
        }
      }
    }
  }

  /** A string without the separator is its own single piece, and a
      separator-free prefix splits off as the first piece. */
  lemma {:induction false} SplitAfter(k: string, sep: char, rest: string)
    requires sep !in k
    ensures Split(k, sep) == [k]
    ensures Split(k + [sep] + rest, sep) == [k] + Split(rest, sep)
  {
    if k == [] {
      assert k + [sep] + rest == [sep] + rest;
      assert ([sep] + rest)[1..] == rest;
    } else {
      assert (k + [sep] + rest)[1..] == k[1..] + [sep] + rest;
      SplitAfter(k[1..], sep, rest);
      assert [k[0]] + k[1..] == k;
    }
  }

  /** One `key=value` word, unpacked into a key and a value: anything but
      exactly two pieces fails the two-way unpack. */
  function ParsePair(pair: string): Result<(string, string), Error>
  {
    var parts := Split(pair, '=');
    if |parts| != 2 then Failure(BadPair(pair)) else Success((parts[0], parts[1]))
  }

  /** A word parses exactly when it holds one `=`; the key and value are the
      text on either side of it and contain no `=`. */
  lemma ParsePairSpec(pair: string)
    ensures ParsePair(pair).Success? <==> multiset(pair)['='] == 1
    ensures ParsePair(pair).Failure? ==> ParsePair(pair).error == BadPair(pair)
    ensures ParsePair(pair).Success? ==>
              var (key, val) := ParsePair(pair).value;
              key + "=" + val == pair && '=' !in key && '=' !in val
  {
    SplitCount(pair, '=');
    SplitJoin(pair, '=');
    SplitPieces(pair, '=');
    var parts := Split(pair, '=');
    if |parts| == 2 {
      assert parts[0] in parts && parts[1] in parts;
      assert parts[1..] == [parts[1]];
    }
  }

  /** Round trip: a key and a value without `=` come back from their
      `key=value` word, empty key and empty value included. */
  lemma PairRoundTrip(key: string, val: string)
    requires '=' !in key && '=' !in val
    ensures ParsePair(key + "=" + val) == Success((key, val))
  {
    SplitAfter(key, '=', val);
    SplitAfter(val, '=', "");
  }

  /** The dictionary `VarsAction` builds from the words, or the error of the
      first word that does not unpack. */
  function ParseVars(values: seq<string>): Result<map<string, string>, Error>
  {
    if values == [] then Success(map[])
    else
      match ParseVars(values[..|values| - 1])
      case Failure(e) => Failure(e)
      case Success(result) =>
        match ParsePair(values[|values| - 1])
        case Failure(e) => Failure(e)
        case Success((key, val)) => Success(result[key := val])
  }

  /** Parsing stops at the first word that does not unpack and reports it. */
  lemma {:induction false} VarsFirstBadPair(values: seq<string>)
    ensures ParseVars(values).Failure? <==> exists i :: 0 <= i < |values| && ParsePair(values[i]).Failure?
    ensures ParseVars(values).Failure? ==>
              exists i :: 0 <= i < |values| && ParseVars(values).error == BadPair(values[i])
                          && ParsePair(values[i]).Failure?
                          && forall j :: 0 <= j < i ==> ParsePair(values[j]).Success?
  {
    if values != [] {
      var init := values[..|values| - 1];
      VarsFirstBadPair(init);
      forall i | 0 <= i < |init|
        ensures init[i] == values[i]
      {
      }
      if ParseVars(init).Success? {
        assert forall j :: 0 <= j < |init| ==> ParsePair(values[j]).Success?;
      }
    }
  }

  /** After a successful parse, a key is present exactly when some word has
      it, and it holds the value of the last such word. */
  lemma {:induction false} VarsLastWins(values: seq<string>, key: string)
    requires ParseVars(values).Success?
    ensures forall i :: 0 <= i < |values| ==> ParsePair(values[i]).Success?
    ensures key in ParseVars(values).value <==>
              exists i :: 0 <= i < |values| && ParsePair(values[i]).value.0 == key
    ensures forall i :: 0 <= i < |values| && ParsePair(values[i]).value.0 == key
                        && (forall j :: i < j < |values| ==> ParsePair(values[j]).value.0 != key) ==>
              ParseVars(values).value[key] == ParsePair(values[i]).value.1
  {
    if values != [] {
      var n := |values| - 1;
      var init := values[..n];
      VarsLastWins(init, key);
      forall i | 0 <= i < n
        ensures init[i] == values[i]
      {
      }
    }
  }

  /** No words, no variables. */
  lemma NoVars()
    ensures ParseVars([]) == Success(map[])
  {
  }

  /** The attributes of an argument namespace that hold dictionaries. */
  class Namespace {
    var attributes: map<string, map<string, string>>

    constructor ()
      ensures attributes == map[]
    {
      attributes := map[];
    }
  }

  /** The `--vars` action: parses its words and stores the dictionary under
      its destination. */
  class VarsAction {
    const dest: string

    constructor (dest: string)
      ensures this.dest == dest
    {
      this.dest := dest;
    }

    /** `VarsAction.__call__(parser, namespace, values)`. On a bad word the
        ValueError escapes and the namespace is left as it was. */
    method Call(namespace: Namespace, values: seq<string>) returns (err: Option<Error>)
      modifies namespace
      ensures ParseVars(values).Failure? ==>
                err == Some(ParseVars(values).error) && namespace.attributes == old(namespace.attributes)
      ensures ParseVars(values).Success? ==>
                err == None && namespace.attributes == old(namespace.attributes)[dest := ParseVars(values).value]
    {
      var result: map<string, string> := map[];
      for i := 0 to |values|
        invariant ParseVars(values[..i]) == Success(result)
      {
        var pair := values[i];
        assert values[..i + 1][..i] == values[..i];
        var parts := Split(pair, '=');
        if |parts| != 2 {
          VarsStop(values, i);
          return Some(BadPair(pair));
        }
        var key, val := parts[0], parts[1];
        result := result[key := val];
      }
      assert values[..|values|] == values;
      namespace.attributes := namespace.attributes[dest := result];
      return None;
    }
  }

  /** A bad word ends the parse with its error whatever follows it. */
  lemma {:induction false} VarsStop(values: seq<string>, i: int)
    requires 0 <= i < |values| && ParseVars(values[..i]).Success? && ParsePair(values[i]).Failure?
    ensures ParseVars(values) == Failure(BadPair(values[i]))
    decreases |values| - i
  {
    var init := values[..|values| - 1];
    if i + 1 == |values| {
      assert init == values[..i];
    } else {
      assert init[..i] == values[..i] && init[i] == values[i];
      VarsStop(init, i);
    }
  }

  /** A call the `upload` command makes. */
  datatype Call =
    | PolicyWrite(write: PolicyCall)
    | ConditionWrite(effect: Effect)

  function AsCalls(effects: seq<Effect>): (calls: seq<Call>)
    ensures |calls| == |effects|
    ensures forall k :: 0 <= k < |effects| ==> calls[k] == ConditionWrite(effects[k])
  {
    if effects == [] then [] else [ConditionWrite(effects[0])] + AsCalls(effects[1..])
  }

  /** A policy field read from the document; a list where the text belongs
      is not modelled as a policy field. */
  function ScalarField(policy: Document, key: string): (r: Result<string, Error>)
    ensures key !in policy ==> r == Failure(MissingKey(key))
    ensures r.Success? <==> key in policy && policy[key].Scalar?
    ensures r.Success? ==> policy[key] == Scalar(r.value)
  {
    if key !in policy then Failure(MissingKey(key))
    else match policy[key]
      case Scalar(text) => Success(text)
      case Conditions(_) => Failure(NotAScalar(key))
  }

  /** What `upload` does once the document is split: upsert the policy from
      its name and incident preference, then reconcile the conditions
      against the id of the policy written. */
  function Uploaded(policy: Document, newConditions: Document, policyId: Option<Id>, searchResult: seq<Policy>,
                    createdId: Id, listings: Kind -> map<string, seq<Fetched>>): (seq<Call>, Option<Error>)
  {
    match ScalarField(policy, "name")
    case Failure(e) => ([], Some(e))
    case Success(name) =>
      match ScalarField(policy, "incident_preference")
      case Failure(e) => ([], Some(e))
      case Success(incidentPreference) =>
        match CreateOrUpdatePolicy(name, incidentPreference, policyId, searchResult, createdId)
        case Failure(e) => ([], Some(e))
        case Success(upserted) =>
          var (effects, err) := Planned(upserted.id, newConditions, listings, AllKinds);
          ([PolicyWrite(upserted.call)] + AsCalls(effects), err)
  }

  /** `upload(args)`: parse the document (checking condition ids), upsert the
      policy, update its conditions. `policyId` is `--policy-id`. */
  method Upload(document: Document, policyId: Option<Id>, searchResult: seq<Policy>, createdId: Id,
                listings: Kind -> map<string, seq<Fetched>>)
    returns (calls: seq<Call>, err: Option<Error>)
    ensures (exists t :: t in ConditionPart(document) && HasDuplicateIds(ConditionPart(document)[t])) ==>
              && calls == []
              && err.Some? && err.value.DuplicateConditionId?
              && err.value.conditionType in ConditionPart(document)
              && HasDuplicateIds(ConditionPart(document)[err.value.conditionType])
    ensures (forall t :: t in ConditionPart(document) ==> !HasDuplicateIds(ConditionPart(document)[t])) ==>
              (calls, err) == Uploaded(PolicyPart(document), ConditionPart(document), policyId, searchResult,
                                       createdId, listings)
  {
    var parsed := Parse(document, false);
    if parsed.Failure? {
      return [], Some(parsed.error);
    }
    var (readPolicy, newConditions) := parsed.value;
    var name := ScalarField(readPolicy, "name");
    if name.Failure? {
      return [], Some(name.error);
    }
    var incidentPreference := ScalarField(readPolicy, "incident_preference");
    if incidentPreference.Failure? {
      return [], Some(incidentPreference.error);
    }
    var policy := CreateOrUpdatePolicy(name.value, incidentPreference.value, policyId, searchResult, createdId);
    if policy.Failure? {
      return [], Some(policy.error);
    }
    var effects;
    effects, err := UpdateConditions(policy.value.id, newConditions, listings);
    calls := [PolicyWrite(policy.value.call)] + AsCalls(effects);
  }

  /** The policy is written before any condition, every later call is a
      condition call, and every condition created goes on the policy that
      was written. */
  lemma UploadOrder(policy: Document, newConditions: Document, policyId: Option<Id>, searchResult: seq<Policy>,
                    createdId: Id, listings: Kind -> map<string, seq<Fetched>>)
    ensures var (calls, _) := Uploaded(policy, newConditions, policyId, searchResult, createdId, listings);
            calls != [] ==>
              && calls[0].PolicyWrite?
              && var written := CreateOrUpdatePolicy(policy["name"].text, policy["incident_preference"].text,
                                                     policyId, searchResult, createdId).value;
                 && calls[0].write == written.call
                 && forall k :: 1 <= k < |calls| ==>
                      calls[k].ConditionWrite?
                      && (calls[k].effect.CreateCondition? ==> calls[k].effect.policyId == written.id)
  {
    var (calls, _) := Uploaded(policy, newConditions, policyId, searchResult, createdId, listings);
    if calls != [] {
      var written := CreateOrUpdatePolicy(policy["name"].text, policy["incident_preference"].text,
                                          policyId, searchResult, createdId).value;
      var effects := Planned(written.id, newConditions, listings, AllKinds).0;
      CreationsOnPolicy(written.id, newConditions, listings, AllKinds);
      forall k | 1 <= k < |calls|
        ensures calls[k].ConditionWrite?
        ensures calls[k].effect.CreateCondition? ==> calls[k].effect.policyId == written.id
      {
        assert calls[k] == AsCalls(effects)[k - 1] == ConditionWrite(effects[k - 1]);
        assert effects[k - 1] in effects;
      }
    }
  }

  /** Python truthiness of `--policy-name`: absent and empty are false. */
  predicate TruthyName(policyName: Option<string>)
  {
    policyName.Some? && policyName.value != ""
  }

  /** The policy's fields as `build_document` reads them. */
  function PolicyFields(p: Policy): (fields: Document)
    ensures fields.Keys == PolicyKeys
  {
    map["name" := Scalar(p.name), "incident_preference" := Scalar(p.incidentPreference)]
  }

  /** The document `download` writes for a policy and its conditions. */
  function Exported(p: Policy, conditions: Document): (document: Document)
    ensures document.Keys == PolicyKeys + conditions.Keys
    ensures forall k :: k in conditions ==> document[k] == conditions[k]
    ensures "name" !in conditions ==> document["name"] == Scalar(p.name)
    ensures "incident_preference" !in conditions ==> document["incident_preference"] == Scalar(p.incidentPreference)
  {
    BuildDocument(PolicyFields(p), conditions).value
  }

  /** The policy `download` selects: by name when a non-empty name is given,
      otherwise by id (an absent id matches no policy). */
  function Selected(policyName: Option<string>, policyId: Option<Id>, searchResult: seq<Policy>,
                    pages: seq<seq<Policy>>): Result<Policy, Error>
  {
    if TruthyName(policyName) then FindPolicy(policyName.value, searchResult)
    else if policyId.None? then Failure(NoSuchPolicyID)
    else LookupById(Listing(pages), policyId.value)
  }

  /** `download(args)`: select the policy, then build the document from it
      and `conditions`, the listing of its conditions grouped by kind. */
  method Download(policyName: Option<string>, policyId: Option<Id>, searchResult: seq<Policy>,
                  pages: seq<seq<Policy>>, conditions: Document)
    returns (r: Result<Document, Error>)
    ensures r.Failure? <==> Selected(policyName, policyId, searchResult, pages).Failure?
    ensures r.Failure? ==> r.error == Selected(policyName, policyId, searchResult, pages).error
    ensures r.Success? ==> r.value == Exported(Selected(policyName, policyId, searchResult, pages).value, conditions)
  {
    var policy: Result<Policy, Error>;
    if TruthyName(policyName) {
      policy := FindPolicy(policyName.value, searchResult);
    } else if policyId.None? {
      policy := Failure(NoSuchPolicyID);
    } else {
      policy := GetPolicy(pages, policyId.value);
    }
    if policy.Failure? {
      return Failure(policy.error);
    }
    var document := BuildDocument(PolicyFields(policy.value), conditions);
    return document;
  }
}
