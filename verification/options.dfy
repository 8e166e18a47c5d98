/** The optional-value datatype used throughout the model: Python's `False`,
    `None` and `{}` "not found" results all become `None` here. */
module Options {

  datatype Option<+T> = None | Some(value: T) {

    /** Returns the wrapped value, or `default` when there is none. */
    function GetOr(default: T): T
    {
      match this
      case Some(v) => v
      case None => default
    }
  }
}
