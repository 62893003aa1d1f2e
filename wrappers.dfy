/** The optional value that `VecDeque::pop_front` returns. */
module Wrappers {

  datatype Option<T> = None | Some(value: T) {

    /** `Option::unwrap`: it panics on `None`, so here it may only be applied to `Some`. */
    function Unwrap(): (r: T)
      requires Some?
      ensures this == Some(r)
    {
      value
    }
  }
}
