/** The optional value that stands for JavaScript's `undefined`/`null` results. */
module Options {

  datatype Option<+T> = None | Some(value: T) {

    /** The wrapped value, or `default` when absent: a field of a later object
        spread (`{...existing, ...updates}`) wins over the earlier one only
        when it is present. */
    function GetOr(default: T): T {
      match this
      case Some(v) => v
      case None => default
    }
  }
}
