/** The six condition kinds of `condition_types` (alertsync/nr_api.py), with
    the name of each kind, its plural (the key grouping conditions of that
    kind in a document) and the key of the listing envelope. */
module ConditionKinds {

  datatype Kind =
    | Plain
    | ExternalService
    | Synthetics
    | Plugins
    | Nrql
    | Infrastructure

  /** The order in which `update_conditions` visits the kinds. */
  const AllKinds: seq<Kind> := [Plain, ExternalService, Synthetics, Plugins, Nrql, Infrastructure]

  /** `ConditionType.name` of each subclass. */
  function Name(k: Kind): string
  {
    match k
    case Plain => "condition"
    case ExternalService => "external_service_condition"
    case Synthetics => "synthetics_condition"
    case Plugins => "plugins_condition"
    case Nrql => "nrql_condition"
    case Infrastructure => "infrastructure_condition"
  }

  /** `ConditionType.plural`: the name with an `s` appended. */
  function Plural(k: Kind): string
  {
    Name(k) + "s"
  }

  /** The key under which a listing of the given plural carries its
      conditions: infrastructure listings wrap them in `data`. */
  function EnvelopeKey(plural: string): string
  {
    if plural == "infrastructure_conditions" then "data" else plural
  }

  /** Distinct kinds group their conditions under distinct document keys. */
  lemma PluralInjective(k1: Kind, k2: Kind)
    ensures Plural(k1) == Plural(k2) ==> k1 == k2
  {
  }

  /** Only the infrastructure kind reads its listing from the `data` envelope. */
  lemma EnvelopeOfKind(k: Kind)
    ensures EnvelopeKey(Plural(k)) == (if k == Infrastructure then "data" else Plural(k))
  {
  }
}
