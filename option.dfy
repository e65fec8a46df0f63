/** The Some/None datatype used wherever the site has an absent value
    (a missing storage key, a field missing from a stored entry, a parse that fails). */
module Option {

  datatype Option<+T> = None | Some(value: T) {

    /** The wrapped value, or `default` when there is none (JavaScript's `v ?? default`). */
    function GetOr(default: T): T {
      match this
      case Some(v) => v
      case None => default
    }
  }
}
