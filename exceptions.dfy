/** The exceptions the geofencing core can raise, named after the Python exception and its cause. */
module Exceptions {

  datatype Error =
    /** ValueError: the POSITION payload is neither a string nor a dict (DataProcessor.py:60-61). */
    | NotStringNorDict
    /** Whatever `eval` raises on a string payload that is not a literal (DataProcessor.py:57). */
    | EvalFailed
    /** TypeError: the decoded payload cannot be subscripted with "X" or "Y" (DataProcessor.py:62). */
    | NotSubscriptable
    /** KeyError: the decoded mapping has no entry for `key` (DataProcessor.py:62). */
    | MissingKey(key: string)
    /** ValueError or TypeError: `float()` rejects the entry under `key` (DataProcessor.py:62). */
    | NotAFloat(key: string)
    /** IndexError: `vertices[0]` of an empty vertex list (DataProcessor.py:80). */
    | EmptyPolygon
    /** KeyError: column `area{area}_first_seen` does not exist (DataProcessor.py:206-209). */
    | MissingColumn(area: nat)
}
