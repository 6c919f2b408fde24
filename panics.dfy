/** Outcomes shared by every module: a Rust `panic!` (or an implicit panic such as an
    out-of-bounds index or an integer division by zero) becomes an `Err` carrying the reason. */
module Panics {

  datatype Option<+T> = None | Some(value: T)

  /** Why the Rust code would panic. */
  datatype Failure =
    | IndexOutOfBounds     // a `Vec` index or an `unwrap` on a missing element
    | DivisionByZero       // integer `/` or `%` by zero, or an explicit zero check
    | ArithmeticOverflow   // u32 arithmetic that overflows (debug builds panic)
    | LengthMismatch       // an explicit length check between two vectors
    | NotSquare            // the determinant's shape check
    | NotImplemented       // `unimplemented!()`
    | Diverges             // a call that never returns (`factorize(0)`), reported instead of looping

  datatype Result<+T> = Ok(value: T) | Err(failure: Failure)
}
