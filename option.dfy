/** Rust's `Option`, with the one combinator the vault arithmetic chains its steps with. */
module Options {

  datatype Option<T> = None | Some(value: T) {

    /** `Option::and_then`: run `f` on the carried value, or stay `None`. */
    function AndThen<U>(f: T -> Option<U>): (r: Option<U>) {
      match this
      case None => None
      case Some(v) => f(v)
    }
  }
}
