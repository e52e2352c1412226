/**
 * Request bodies as the route handlers see them after `req.json()`: each field
 * is absent or holds a JSON value, and the schemas only look at strings and
 * numbers.
 */
module Json {
  import opened Wrappers

  /** A JSON value as far as the schemas look at it. */
  datatype Json = JString(s: string) | JNumber(n: int) | JOther

  /** `z.string()` on a field that may be absent. */
  predicate IsString(v: Option<Json>) {
    v.Some? && v.value.JString?
  }

  /** `z.string().min(n)` */
  predicate StringAtLeast(v: Option<Json>, n: nat) {
    IsString(v) && |v.value.s| >= n
  }
}
