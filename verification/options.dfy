/** Optional values: Go's nil pointers in update inputs, and error-or-nothing
    results, are both modelled with this one datatype. */
module Options {

  datatype Option<T> = None | Some(value: T) {

    /** The wrapped value, or `default` when there is none. */
    function GetOr(default: T): T {
      match this
      case Some(v) => v
      case None => default
    }
  }
}
