/** Small shared vocabulary: an optional value and Python's truthiness of an
    identifier slot (both `None` and the empty string are falsy). */
module Common {

  datatype Option<+T> = None | Some(value: T)

  /** `if current_chapter:` in the source: an unset cursor and an empty
      identifier both read as false. */
  predicate Truthy(id: Option<string>)
  {
    id.Some? && |id.value| > 0
  }
}
