/** Small value wrappers shared by the extraction model. */
module Common {

  /** Python's `None`-or-value, as used for every nullable field of the result. */
  datatype Option<+T> = None | Some(value: T)

  /** The outcome of one read from the browser (a DOM query, a body read) that may
      raise: `Failed` stands for the exception the source catches and swallows. */
  datatype Read<+T> = Ok(value: T) | Failed

  /** Python truthiness of an optional string: neither None nor the empty string. */
  predicate Truthy(v: Option<string>)
  {
    v.Some? && v.value != ""
  }
}
