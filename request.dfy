/** Fields of a JSON request body and the JavaScript truthiness the handlers test them with. */
module Request {

  /** A body field: `None` when the field is absent (undefined) or JSON `null`. */
  datatype Option<+T> = None | Some(value: T)

  /** `!field` for a string field: absent, null or the empty string. */
  predicate FalsyText(field: Option<string>) {
    field.None? || field.value == ""
  }

  /** `!field` for a numeric field: absent, null or zero. */
  predicate FalsyCount(field: Option<int>) {
    field.None? || field.value == 0
  }

  /** `field || fallback` for a string field whose fallback may be SQL `NULL` (`None`). */
  function TextOr(field: Option<string>, fallback: Option<string>): Option<string> {
    if FalsyText(field) then fallback else field
  }

  /** `field || fallback` for a numeric field. */
  function CountOr(field: Option<int>, fallback: int): int {
    if FalsyCount(field) then fallback else field.value
  }
}
