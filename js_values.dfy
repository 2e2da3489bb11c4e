/** Values as the JavaScript handlers receive them: a request field or a table
    column may be missing (undefined) or null, and conditions such as
    `if (!password)` and `if (vendorSalt)` test JavaScript truthiness. */
module JsValues {

  /** A value that may be absent: None stands for both null and undefined. */
  datatype Option<T> = None | Some(value: T)

  /** JavaScript truthiness of a string that may be absent: null, undefined
      and the empty string are falsy, every other string is truthy. */
  predicate Truthy(s: Option<string>)
    ensures Truthy(s) <==> s != None && s != Some("")
  {
    s.Some? && s.value != ""
  }
}
