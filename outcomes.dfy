/** Option and Result values, used for the lookups that can miss and the
    operations that can fail (the source signals failure by throwing). */
module Outcomes {

  datatype Option<+T> = None | Some(value: T)

  datatype Result<+T, +E> = Ok(value: T) | Err(error: E)
}
