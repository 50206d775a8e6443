/** The Some/None datatype used for Ruby's `nil`-or-value results. */
module Optional {

  datatype Option<+T> = None | Some(value: T) {

    /** Ruby's `a || b` on a possibly-nil `a`: the first non-nil of the two. */
    function OrElse(other: Option<T>): (r: Option<T>)
      ensures Some? ==> r == this
      ensures None? ==> r == other
    {
      match this
      case Some(_) => this
      case None => other
    }
  }
}
