/** The shapes of request input the handlers inspect, with JavaScript's truthiness on them. */
module Requests {
  import opened Wrappers

  /** A query-string parameter: missing, given once, or given several times (an array). */
  datatype QueryParam = Absent | Single(value: string) | Repeated(values: seq<string>)

  /** `!p || typeof p !== 'string'` fails exactly when this is None. */
  function QueryString(p: QueryParam): (r: Option<string>)
    ensures r.Some? <==> p.Single? && p.value != ""
    ensures r.Some? ==> r.value == p.value
  {
    match p
    case Single(v) => if v != "" then Some(v) else None
    case _ => None
  }

  /** A string field of a JSON body is truthy when present and not empty. */
  predicate Truthy(field: Option<string>) {
    field.Some? && field.value != ""
  }
}
