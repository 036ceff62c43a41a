/** A value that may be missing: a JSON field `request.json.get(...)`
    returns `None` for, the session's `history` key before the first
    success, or the token a failed exchange does not deliver. The
    constructor names follow Python's `None`. */
module Options {
  datatype Option<T> = None | Some(value: T)
}
