/** The values alertsync passes between its parts: ids the service assigns,
    conditions as a policy document carries them, and parsed documents. */
module Documents {
  import opened Wrappers

  /** Identifiers assigned by the service. */
  type Id = int

  /** The kind-specific fields of a condition, passed through untouched. */
  type Attrs = map<string, string>

  /** A condition of the document: its `id` is optional. */
  datatype Condition = Condition(id: Option<Id>, name: string, attrs: Attrs)

  /** A value of the parsed document: a scalar (the policy fields are
      strings) or a list of conditions. */
  datatype Value = Scalar(text: string) | Conditions(items: seq<Condition>)

  /** A parsed document, a policy's fields, or its condition lists by kind. */
  type Document = map<string, Value>
}
