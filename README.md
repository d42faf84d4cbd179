# alertsync in Dafny

alertsync keeps New Relic alert policies in YAML files. `upload` pushes a
policy document to New Relic and `download` pulls one back. This project
models the decision logic of the tool, leaving out the HTTP and file plumbing:

- **Shared values** (`Documents`, documents.dfy): service ids, conditions as
  a document carries them, and parsed documents.
- **Reconciliation** (`Reconcile`, reconcile.dfy) is `compare_updated_conditions`.
  It works on the conditions of one kind currently on a policy and the
  conditions the document wants. Each desired condition is resolved to an id:
  - a known id is kept;
  - a stale id is dropped;
  - a condition left without an id falls back to the name index.

  The result is one update or create per desired condition, in document
  order. After those come deletes, in listing order, for every current
  condition whose id nobody claimed. `Diff` is the reference definition.
  `CompareUpdatedConditions` is the loop, proved equal to it. Lemmas state the
  resolution rules, the placement and multiplicity of deletes, and no-op
  convergence.
- **Dispatch** (`Dispatch`, dispatch.dfy) is `update_conditions`. For each of
  the six condition kinds (`ConditionKinds`, kinds.dfy), changes with one side
  become delete or create calls, and updates become nothing. The calls are
  effect values in issue order. An error in one kind stops the run, and the
  calls already issued stand.
- **Policy resolution** (`Policies`, policies.dfy) covers:
  - paging through the policy listing until an empty page;
  - `get_policy` by first id match;
  - `find_policy` by exact name, with three outcomes;
  - the update-or-create choice of `create_or_update_policy`, including the
    Python truthiness of the policy id (0 counts as no id).
- **Policy documents** (`PolicyFiles`, policy_files.dfy) covers:
  - the split of a parsed document into policy fields and condition lists;
  - the per-list id uniqueness check (`assert_field_unique`);
  - `build_document`, the inverse join, with a round-trip lemma.
- **Command line** (`Cli`, cli.dfy) covers:
  - the `--vars` action, which splits `key=value` words with Python `str.split`
    semantics;
  - the call order of `upload` (upsert the policy, then reconcile against the
    written policy's id);
  - the policy selection of `download` (by name when a non-empty name is
    given, otherwise by id).

HTTP responses are parameters:
- the listing of a kind's conditions (`listings(kind)`);
- the pages of the policy listing;
- the name-search response;
- the id the API assigns to a created policy.

API writes are results: `Effect`, `PolicyCall` and `Call` values. Raised
exceptions and `sys.exit` are values of `Errors.Error`, reported in one of
two ways:
- a function or method that returns a value gives `Failure(e)`;
- `UpdateConditions`, `Upload` and `VarsAction.Call` give the calls or the
  state change made so far, and `Some(e)` as their error result.

`AssertFieldUnique` is the exception: its failed `assert` is `Some(j)`, the
index of the first object whose value repeats one seen before.

Name matching is not first-seen and consume-once. The name index at
alertsync/nr_api.py:174 is a dict comprehension, so it holds the last current
condition of each name. Adopting that entry does not remove it. So several
desired conditions that share a name and have no valid id of their own all
update the same current condition, the last one of that name. An earlier
current condition of that name is deleted unless some desired condition
claims its id explicitly. `Reconcile.RepeatedNameScenario` proves the
concrete case:

- current `[{1,A},{2,A}]` and desired `[A,A,A]`;
- three updates of id 2 and a delete of id 1;
- not "updates of 1 and 2, then a create".

## Model

| member | source | states |
|---|---|---|
| ConditionKinds.PluralInjective | alertsync/nr_api.py:59-87 | distinct kinds have distinct plurals, so no two kinds share a document key |
| ConditionKinds.EnvelopeOfKind | alertsync/nr_api.py:159-162 | only the infrastructure kind reads its listing from `data` |
| Reconcile.IndexHas | alertsync/nr_api.py:173-174 | every current condition's key is in the dict-comprehension index |
| Reconcile.IndexEntry | alertsync/nr_api.py:173-174 | every index entry is a current condition carrying that key |
| Reconcile.IndexMisses | alertsync/nr_api.py:173-174 | a key no current condition carries is not in the index |
| Reconcile.IndexIsLast | alertsync/nr_api.py:173-174 | the index maps a key to the last current condition carrying it |
| Reconcile.ResolveId | alertsync/nr_api.py:176-186 | a resolved id is always an id of the current listing |
| Reconcile.FixConditionId | alertsync/nr_api.py:176-186 | the closure over the two lookups computes the resolution `Fix` |
| Reconcile.Proposals | alertsync/nr_api.py:188-197 | one change per desired condition, the j-th from the j-th desired condition |
| Reconcile.CompareUpdatedConditions | alertsync/nr_api.py:158-202 | a missing envelope key fails with that key; otherwise the result is exactly `Diff` of the listed and desired conditions |
| Reconcile.EmptyGivesNothing | alertsync/nr_api.py:170-171 | two empty lists give no change |
| Reconcile.ClaimedIdsSpec | alertsync/nr_api.py:188-194 | an id is claimed exactly when some desired condition resolves to it |
| Reconcile.ChangeShape | alertsync/nr_api.py:189-197 | every desired-derived change carries the desired condition with name and attributes kept; an update carries the current condition's id, a create carries no id |
| Reconcile.KeptIdUpdates | alertsync/nr_api.py:177-179 | a desired id that is current is kept and pairs with the condition of that id, whatever the name |
| Reconcile.StaleIdIsNoId | alertsync/nr_api.py:180-184 | a stale desired id behaves exactly as no id |
| Reconcile.UnknownNameCreates | alertsync/nr_api.py:183-192 | no id and an unknown name give a create of the condition as given |
| Reconcile.NameAdoption | alertsync/nr_api.py:174 | a condition without a valid id adopts the id of the last current condition of its name |
| Reconcile.DeletionsSound | alertsync/nr_api.py:198-202 | every delete names a current condition with an unclaimed id and has no desired side |
| Reconcile.DeletionsCount | alertsync/nr_api.py:198-202 | a current condition is deleted as often as it is listed if its id is unclaimed, never otherwise |
| Reconcile.DeletionsNone | alertsync/nr_api.py:198-202 | with every id claimed nothing is deleted |
| Reconcile.DeletionsAppend | alertsync/nr_api.py:198-202 | deletes follow current-list order |
| Reconcile.DiffShape | alertsync/nr_api.py:188-202 | the diff has one change per desired condition, in order, then the deletes; its length is the desired count plus the unclaimed count |
| Reconcile.DiffSides | alertsync/nr_api.py:188-202 | changes before the deletes have a desired side, and the rest are deletes |
| Reconcile.DeletedIffUnclaimed | alertsync/nr_api.py:194-202 | a current condition is deleted exactly when its id is unclaimed |
| Reconcile.NoOpConvergence | alertsync/nr_api.py:173-202 | reconciling a listing against itself gives only updates |
| Reconcile.RepeatedNameScenario | alertsync/nr_api.py:174-202 | repeated names all adopt the last namesake's id; the other namesake is deleted |
| Reconcile.CpuMemScenario | alertsync/nr_api.py:176-202 | a known name becomes an update with the adopted id, an unknown one a create, and nothing is deleted |
| Dispatch.EffectsOf | alertsync/nr_api.py:213-216 | a change issues a call exactly when it has one side, and at most one call |
| Dispatch.DispatchOfDiff | alertsync/nr_api.py:205-216 | one kind issues creates for desired conditions that resolve to nothing (id removed), in document order, then deletes for unclaimed current conditions in listing order |
| Dispatch.DesiredFor | alertsync/nr_api.py:211 | a missing key is an empty list, a list is itself, an empty string is the empty list, and any other scalar fails |
| Dispatch.IssueCalls | alertsync/nr_api.py:208-216 | the loop over changes issues exactly the dispatched calls |
| Dispatch.UpdateKind | alertsync/nr_api.py:207-216 | one kind's step issues the calls `PlanFor` describes or fails with its error |
| Dispatch.UpdateConditions | alertsync/nr_api.py:205-216 | the run over the six kinds equals `Planned`: calls in kind order, stopping at the first error |
| Dispatch.PlannedStops | alertsync/nr_api.py:205-216 | once a kind fails, later kinds issue nothing |
| Dispatch.CreationsOnPolicy | alertsync/nr_api.py:215-216 | every create goes to the policy being updated |
| Policies.PolicyIter | alertsync/nr_api.py:90-100 | the pages are yielded in order up to the first empty page |
| Policies.ListingStopsAtEmpty | alertsync/nr_api.py:93-100 | pages after an empty page are never yielded |
| Policies.ListingHas | alertsync/nr_api.py:93-98 | every policy on a page before the first empty page is yielded |
| Policies.LookupByIdSpec | alertsync/nr_api.py:103-107 | the lookup finds the earliest policy with the id, and fails with NoSuchPolicyID exactly when none has it |
| Policies.GetPolicy | alertsync/nr_api.py:103-107 | the search over the listing equals the first-match lookup |
| Policies.ExactMatchesSpec | alertsync/nr_api.py:113-114 | the exact matches are the listed policies whose name equals the query |
| Policies.FindPolicy | alertsync/nr_api.py:110-120 | a found policy is in the response with that name; NoSuchPolicyName exactly when no policy has the name |
| Policies.TwoMatches | alertsync/nr_api.py:113-116 | more than one exact match exactly when two entries carry the name |
| Policies.FindPolicyOutcomes | alertsync/nr_api.py:115-120 | TooManyPolicyMatches exactly for a name carried twice, success exactly for a name carried once, and then the policy that carries it |
| Policies.CreateOrUpdatePolicy | alertsync/nr_api.py:256-275 | a truthy id updates that id without lookup and returns it; otherwise the lookup decides; only an ambiguous name fails; a create returns the assigned id |
| Policies.UpsertByName | alertsync/nr_api.py:269-275 | without a truthy id: ambiguous name writes nothing, unknown name creates, a unique name updates that policy's id |
| PolicyFiles.AssertFieldUnique | alertsync/policy_files.py:10-17 | succeeds exactly when no two objects that have the field share a value; a failure is at the first repeat |
| PolicyFiles.Parse | alertsync/policy_files.py:24-41 | the result is the policy/condition split; it fails exactly when ids are checked and some condition list repeats an id, naming such a list |
| PolicyFiles.SplitPartition | alertsync/policy_files.py:27-31 | no key is lost and none is filed twice |
| PolicyFiles.BuildDocument | alertsync/policy_files.py:44-49 | the document has the two policy fields and every condition key, a condition key winning; a missing policy field fails with its name |
| PolicyFiles.SplitJoinRoundTrip | alertsync/policy_files.py:27-31 | joining the split of a document that has both policy fields gives the document back |
| Cli.SplitCount | alertsync/__main__.py:17 | a word splits into one more piece than it has `=` |
| Cli.SplitJoin | alertsync/__main__.py:17 | joining the pieces with `=` gives the word back |
| Cli.SplitPieces | alertsync/__main__.py:17 | no piece contains `=` |
| Cli.ParsePairSpec | alertsync/__main__.py:17 | a word unpacks exactly when it has one `=`; key and value are the text either side |
| Cli.PairRoundTrip | alertsync/__main__.py:17-18 | a key and a value without `=`, empty ones included, come back from their `key=value` word |
| Cli.VarsFirstBadPair | alertsync/__main__.py:16-17 | parsing fails exactly when some word does not unpack, reporting the first such word |
| Cli.VarsLastWins | alertsync/__main__.py:15-18 | a key is present exactly when some word has it, with the value of the last such word |
| Cli.NoVars | alertsync/__main__.py:15 | no words give the empty dictionary |
| Cli.VarsStop | alertsync/__main__.py:16-17 | a bad word ends the parse with its error whatever follows |
| Cli.VarsAction.Call | alertsync/__main__.py:14-19 | on success exactly the parsed dictionary is stored under `dest`, and nothing else changes; on a bad word the namespace is unchanged |
| Cli.ScalarField | alertsync/__main__.py:26-27 | a missing policy field fails with its name; a present text field is returned |
| Cli.Upload | alertsync/__main__.py:22-30 | duplicate condition ids stop the upload before any call; otherwise the calls are those of `Uploaded` |
| Cli.UploadOrder | alertsync/__main__.py:26-30 | the policy write comes first, all later calls are condition calls, and every create targets the written policy's id |
| Cli.Exported | alertsync/policy_files.py:44-49 | the downloaded document holds the policy's name and incident preference unless a condition key overrides them, plus every condition key |
| Cli.Download | alertsync/__main__.py:33-41 | the document is built from the policy selected by name when one is given, otherwise by id, and selection errors propagate |

## Left out

- HTTP, the API key and URLs are not modelled. Every request is a parameter (the responses) or a result (the writes). `session.put`, `post` and `delete` are not modelled beyond the write values.
- Laziness is not modelled. `get_policy` stops fetching pages at its match, and the changes of a kind are produced on demand. The model computes whole sequences, which only changes how many requests are made.
- `conditions_for_policy` is not part of this model. It adds a string to a `ConditionType` object and cannot run. `Download` takes the conditions grouped by kind as a parameter.
- `ConditionType.list` (undefined `url`) is not part of this model. `ConditionType.create` has no body and is not part of this model either. The listing of a kind is the `listings(kind)` parameter.
- `create_condition` (undefined template, a no-op subtraction) is not part of this model. `delete_condition` is modelled only as a `DeleteCondition` value.
- `update_condition` (issues a DELETE) is not part of this model. `delete_all_conditions` (wrong arity) and `update_policy_conditions` (a stub) are not part of this model either. None of them is called by the modelled flows.
- Dispatch.UpdateConditions: reads line 216's undefined `condition` as the change's desired condition.
- Dispatch.UpdateConditions: reads `condition_type + 's'` as the kind's plural.
- Dispatch.UpdateConditions: reads the `InfraStructureConditionType` misspelling at alertsync/nr_api.py:86 as the infrastructure kind.
- Jinja2 rendering and YAML load and dump are not modelled. `--vars` values therefore reach no template, and `Upload` receives the parsed document.
- argparse wiring, file reading and writing, and `main` are not modelled.
- Reconcile.CompareUpdatedConditions: does not model the in-place edits to the caller's desired dictionaries. The model returns fixed copies, so aliasing is not captured.
- Values are modelled as Python strings only, not as other YAML scalars:
  - Ids are integers and names and attributes are strings. Unhashable or mixed-type ids are not modelled.
  - A policy field that holds a list fails with `NotAScalar` in `Upload`. The source would send the list to the API.
  - A condition key that holds a scalar only covers strings. A non-string scalar (a number) would raise a TypeError that is not modelled.
- A desired condition without a `name` is not modelled: every `Condition` has a name. In the source such a condition raises a KeyError at alertsync/nr_api.py:183 unless its `id` is current. In that case it is kept and updates like any other condition; `Reconcile.KeptIdUpdates` shows that the name plays no part on that path.
- Policies.PolicyIter: a listing that never returns an empty page is not modelled. On such a listing `policy_iter` never ends, but the model's `pages` is finite and every page past its end is empty.
- PolicyFiles.AssertFieldUnique: models the `assert` as always checked. Under `python -O` the assertion is stripped, and the duplicate-id check of `parse` then rejects nothing.
- PolicyFiles.Parse: does not determine which failing condition list is named when several repeat ids, because the model does not fix dictionary key order.
- `ParseVars` and `VarsAction.Call` do not model argparse's `parser` and `option_string` arguments, which the action ignores.
- `create_policy` returns the policy with the id the API assigned, which is the `createdId` parameter. The request body is the `CreatePolicy` value.
