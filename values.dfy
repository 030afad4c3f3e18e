/** Optional request values and JavaScript truthiness of the request fields the controller tests. */
module Values {

  /** A request-body field: `None` when the key is absent from `req.body`. */
  datatype Option<+T> = None | Some(value: T)

  /**
   * `!!field` for a string-valued body field: an absent field and the empty
   * string are both falsy; every other string is truthy.
   */
  predicate Truthy(field: Option<string>)
  {
    field.Some? && field.value != ""
  }
}
