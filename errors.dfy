/** The failures the modelled code can end with: the exceptions it raises
    itself, the `sys.exit` of `parse`, and the Python errors (KeyError,
    ValueError, TypeError) that its dictionary and string operations raise. */
module Errors {

  datatype Error =
    | TooManyPolicyMatches            // nr_api.TooManyPolicyMatches
    | NoSuchPolicyName                // nr_api.NoSuchPolicyName
    | NoSuchPolicyID                  // nr_api.NoSuchPolicyID
    | DuplicateConditionId(conditionType: string)
                                      // sys.exit("Duplicate condition ID found in <type>")
    | BadPair(pair: string)           // ValueError from `key, val = pair.split('=')`
    | MissingKey(key: string)         // KeyError on a dictionary subscript
    | NotAConditionList(key: string)  // TypeError: a non-empty string where a condition list is expected
    | NotAScalar(key: string)         // a policy field holding a condition list (outside the model)
}
