/** Optional values, results, and JavaScript truthiness of optional strings. */
module Wrappers {

  /** A value that may be absent (`null` or `undefined` in the source). */
  datatype Option<+T> = None | Some(value: T)

  /** The outcome of a request handler: a value, or the error response it sends. */
  datatype Result<+T, +E> = Ok(value: T) | Err(error: E)

  /** The error responses the handlers send. */
  datatype Error = NotFound | BadRequest

  /** `s` used as a condition in JavaScript: present and not the empty string. */
  predicate Truthy(s: Option<string>) {
    s.Some? && s.value != ""
  }

  /** `a || b` on optional strings. */
  function Or(a: Option<string>, b: Option<string>): Option<string> {
    if Truthy(a) then a else b
  }
}
