/** A ledger entry: the number of units on hand for one product. */
module Stock {
  import opened Errors
  import opened Catalog

  /** The product is fixed at construction (a getter-only property); the
      quantity is an integer that only relative updates change. */
  datatype ProductStock = ProductStock(product: Product, quantity: int) {
    /** The invariant every entry keeps: the count is never negative. */
    predicate Valid() {
      quantity >= 0
    }
  }

  /** The constructor: rejects a null product first, then a negative quantity;
      zero is accepted and the quantity is stored as given. */
  function New(product: Nullable<Product>, quantity: int): (r: Result<ProductStock>)
    ensures product.Null? ==> r == Err(NullArgument)
    ensures product.NonNull? && quantity < 0 ==> r == Err(InvalidArgument)
    ensures r.Ok? <==> product.NonNull? && quantity >= 0
    ensures r.Ok? ==> r.value.product == product.value && r.value.quantity == quantity
    ensures r.Ok? ==> r.value.Valid()
  {
    match product
    case Null => Err(NullArgument)
    case NonNull(p) =>
      if quantity < 0 then Err(InvalidArgument) else Ok(ProductStock(p, quantity))
  }

  /** Adds `n` units; a non-positive `n` is rejected and nothing changes. */
  function AddQuantity(s: ProductStock, n: int): (r: Result<ProductStock>)
    ensures n <= 0 ==> r == Err(InvalidArgument)
    ensures r.Ok? <==> n > 0
    ensures r.Ok? ==> r.value.product == s.product && r.value.quantity == s.quantity + n
    ensures s.Valid() && r.Ok? ==> r.value.Valid() && r.value.quantity > s.quantity
  {
    if n <= 0 then Err(InvalidArgument) else Ok(s.(quantity := s.quantity + n))
  }

  /** Removes `n` units. A non-positive `n` is rejected first; then a request
      for more than is on hand fails with the stored product's name, the
      available and the requested amounts. */
  function RemoveQuantity(s: ProductStock, n: int): (r: Result<ProductStock>)
    ensures n <= 0 ==> r == Err(InvalidArgument)
    ensures n > 0 && n > s.quantity ==> r == Err(InsufficientStock(s.product.name, s.quantity, n))
    ensures r.Ok? <==> 0 < n <= s.quantity
    ensures r.Ok? ==> r.value.product == s.product && r.value.quantity == s.quantity - n
    ensures r.Ok? ==> r.value.Valid() && r.value.quantity < s.quantity
  {
    if n <= 0 then Err(InvalidArgument)
    else if n > s.quantity then Err(InsufficientStock(s.product.name, s.quantity, n))
    else Ok(s.(quantity := s.quantity - n))
  }

  /** Removing what was just added gives back the entry unchanged (the entry
      must be valid: from a negative count the removal would be refused). */
  lemma AddThenRemove(s: ProductStock, n: int)
    requires s.Valid() && n > 0
    ensures AddQuantity(s, n).Ok?
    ensures RemoveQuantity(AddQuantity(s, n).value, n) == Ok(s)
  {
  }

  /** Adding back what was just removed gives back the entry unchanged. */
  lemma RemoveThenAdd(s: ProductStock, n: int)
    requires 0 < n <= s.quantity
    ensures RemoveQuantity(s, n).Ok?
    ensures AddQuantity(RemoveQuantity(s, n).value, n) == Ok(s)
  {
  }

  /** Two additions in a row amount to one addition of their sum. */
  lemma AddAccumulates(s: ProductStock, a: int, b: int)
    requires a > 0 && b > 0
    ensures AddQuantity(s, a).Ok?
    ensures AddQuantity(AddQuantity(s, a).value, b) == AddQuantity(s, a + b)
  {
  }

  /** A call on an entry, as a caller of the class makes it. */
  datatype EntryCall = AddUnits(amount: int) | RemoveUnits(amount: int)

  /** The entry after a call: a call that throws leaves the entry as it was. */
  function Apply(s: ProductStock, c: EntryCall): (r: ProductStock)
    ensures r.product == s.product
    ensures s.Valid() ==> r.Valid()
    ensures c.AddUnits? ==>
      r.quantity == if c.amount > 0 then s.quantity + c.amount else s.quantity
    ensures c.RemoveUnits? ==>
      r.quantity == if 0 < c.amount <= s.quantity then s.quantity - c.amount else s.quantity
  {
    var r := match c
      case AddUnits(n) => AddQuantity(s, n)
      case RemoveUnits(n) => RemoveQuantity(s, n);
    if r.Ok? then r.value else s
  }

  /** The entry after a sequence of calls, successful or not. */
  function ApplyAll(s: ProductStock, calls: seq<EntryCall>): ProductStock
    decreases |calls|
  {
    if |calls| == 0 then s else ApplyAll(Apply(s, calls[0]), calls[1..])
  }

  /** Whatever calls are made, the count never goes negative and the product
      never changes. */
  lemma {:induction false} ApplyAllKeepsInvariant(s: ProductStock, calls: seq<EntryCall>)
    requires s.Valid()
    ensures ApplyAll(s, calls).Valid()
    ensures ApplyAll(s, calls).product == s.product
    decreases |calls|
  {
    if |calls| > 0 {
      ApplyAllKeepsInvariant(Apply(s, calls[0]), calls[1..]);
    }
  }
}
