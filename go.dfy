/**
 * Values shared by every part of the model: Go's `error` (nil or a message),
 * its two-result return `(string, error)`, an optional value, and the
 * multi-valued maps Go uses for HTTP headers and URL query parameters.
 */
module Go {

  /** Go's `error`: `nil`, or a value whose `Error()` text is `message`. */
  datatype Error = Nil | Error(message: string)

  /** The `(string, error)` pair that Go functions in the core return. */
  datatype Outcome = Outcome(value: string, err: Error)

  datatype Option<T> = None | Some(value: T)

  /** A `(T, error)` return where the value matters only when the error is nil. */
  datatype Result<T> = Ok(value: T) | Failure(err: Error)

  /** The header key both credential parsers read, in its canonical form. */
  const AuthorizationKey := "Authorization"

  /** `http.Header` and `url.Values`: a key maps to all values sent for it. */
  type Values = map<string, seq<string>>

  /**
   * `Header.Get` / `Values.Get`: the first value stored for `key`, or "" when
   * the key is absent or has no values.
   */
  function FirstValue(v: Values, key: string): (r: string)
    ensures key in v && |v[key]| > 0 ==> r == v[key][0]
    ensures key !in v || v[key] == [] ==> r == ""
  {
    if key in v && |v[key]| > 0 then v[key][0] else ""
  }

  /** Changing another key, or any value after the first, leaves `FirstValue` alone. */
  lemma FirstValueIgnoresOthers(v: Values, key: string, other: string, vs: seq<string>, w: seq<string>)
    requires other != key
    ensures FirstValue(v[other := vs], key) == FirstValue(v, key)
    ensures |w| > 0 ==> FirstValue(v[key := w], key) == FirstValue(v[key := [w[0]]], key)
  {
  }
}
