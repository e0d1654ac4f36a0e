/** Option, Result and Outcome: the failure-carrying shapes the Rust code uses. */
module Wrappers {

  datatype Option<+T> = None | Some(value: T)

  datatype Result<+T, +E> = Ok(value: T) | Err(error: E)

  /** How a Rust function ends: it returns a value, or it panics (`unwrap`, `expect`, an overflow). */
  datatype Outcome<+T> = Returns(value: T) | Panics(reason: string)
}
