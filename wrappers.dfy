/** Option and Result: the null-or-value and the value-or-error shapes shared by the other modules. */
module Wrappers {

  /** An absent value (a null `intrusive_ptr`, a `void` result) or a present one. */
  datatype Option<+T> = None | Some(value: T)

  /** A computed value or the reason it could not be computed. */
  datatype Result<+T, +E> = Ok(value: T) | Err(error: E)
}
