/** Results and options, shared by the three stores. */
module Outcomes {
  datatype Option<+T> = None | Some(value: T)

  datatype Outcome<+T, +E> = Ok(value: T) | Err(error: E)

  datatype StoreError = AddressNotFound | InvalidFragment | Internal

  type Result<+T> = Outcome<T, StoreError>
}
