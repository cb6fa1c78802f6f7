/** Products as the ledger sees them. */
module Catalog {

  /** A product description supplied by the caller. Only `key` takes part in
      lookup; `name` appears in the insufficient-stock error and `price` in the
      purchase total. The price is an exact decimal, modelled as a `real`. */
  datatype Product = Product(key: int, name: string, price: real)

  /** A C# reference that may be null. */
  datatype Nullable<+T> = Null | NonNull(value: T)
}
