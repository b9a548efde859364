/** Small value types shared by the modules of this model. */
module Wrappers {

  /** Rust's `Option`. */
  datatype Option<T> = None | Some(value: T)

  /** Rust's `std::cmp::Ordering`. */
  datatype Ordering = Less | Equal | Greater

  /** The result of a call that either returns a value or panics
      (`panic!()`, `unimplemented!()`, `unwrap()` on `None`). */
  datatype Outcome<R> = Returned(value: R) | Panicked {

    predicate IsFailure() {
      Panicked?
    }

    function PropagateFailure<U>(): Outcome<U>
      requires Panicked?
    {
      Panicked
    }

    function Extract(): R
      requires Returned?
    {
      value
    }
  }
}
