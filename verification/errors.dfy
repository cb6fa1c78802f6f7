/** The failure kinds the stock ledger signals, and the result type that
    carries them back to the caller in place of a thrown exception. */
module Errors {

  /** One constructor per exception the ledger throws.
      - `NullArgument`: a required product reference was null (ArgumentNullException).
      - `InvalidArgument`: a ledger entry was given a negative initial quantity or a
        non-positive change (ArgumentException).
      - `InvalidQuantity`: the service was given a non-positive quantity
        (InvalidQuantityException, whose message says "greater than zero").
      - `ProductNotFound`: no entry is tracked under `key` (ProductNotFoundException).
      - `InsufficientStock`: a removal asked for more than is on hand; it carries the
        stored product's name and both amounts, as the exception message does. */
  datatype Error =
    | NullArgument
    | InvalidArgument
    | InvalidQuantity
    | ProductNotFound(key: int)
    | InsufficientStock(name: string, available: int, requested: int)

  /** Either a value or the error that replaced it. */
  datatype Result<+T> = Ok(value: T) | Err(error: Error)
}
