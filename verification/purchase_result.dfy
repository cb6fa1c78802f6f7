/** The outcome record a caller builds around a purchase. */
module Purchase {
  import opened Catalog

  /** Success flag, message, the product bought (absent on failure), the units
      bought and the total price. Fields a factory does not set keep their
      defaults: an absent product, zero units, a zero total. */
  datatype PurchaseResult = PurchaseResult(
    success: bool,
    message: string,
    product: Nullable<Product>,
    quantity: int,
    totalPrice: real)

  const SuccessMessage: string := "Purchase successful"

  /** The shape every factory-built result has: a success echoes the product
      and quantity with a total of unit price times quantity; a failure carries
      no product, no quantity and no total. */
  ghost predicate WellFormed(r: PurchaseResult) {
    if r.success then
      && r.message == SuccessMessage
      && r.product.NonNull?
      && r.totalPrice == r.product.value.price * r.quantity as real
    else
      && r.product.Null?
      && r.quantity == 0
      && r.totalPrice == 0.0
  }

  /** The success factory. */
  function Successful(product: Product, quantity: int): (r: PurchaseResult)
    ensures r.success && r.message == SuccessMessage
    ensures r.product == NonNull(product) && r.quantity == quantity
    ensures r.totalPrice == product.price * quantity as real
    ensures WellFormed(r)
  {
    PurchaseResult(true, SuccessMessage, NonNull(product), quantity, product.price * quantity as real)
  }

  /** The failure factory. */
  function Failed(errorMessage: string): (r: PurchaseResult)
    ensures !r.success && r.message == errorMessage
    ensures r.product == Null && r.quantity == 0 && r.totalPrice == 0.0
    ensures WellFormed(r)
  {
    PurchaseResult(false, errorMessage, Null, 0, 0.0)
  }

  /** The two factories build every well-formed result and nothing else: each
      well-formed result is the one its own fields ask a factory for. */
  lemma FactoriesCoverWellFormed(r: PurchaseResult)
    requires WellFormed(r)
    ensures r.success ==> r == Successful(r.product.value, r.quantity)
    ensures !r.success ==> r == Failed(r.message)
  {
  }
}
