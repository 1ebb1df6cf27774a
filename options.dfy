/** Optional request and record fields, and JavaScript truthiness of a string field. */
module Options {

  /** A field that a JSON body or a stored document may leave out (`undefined`). */
  datatype Option<+T> = None | Some(value: T)

  /** `if (x)` on a string field: it is present and not the empty string. */
  predicate Truthy(o: Option<string>) {
    o.Some? && o.value != ""
  }
}
