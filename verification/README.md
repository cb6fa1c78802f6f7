# In-memory stock ledger, modelled in Dafny

This project models the stock ledger of the ShoppingService library: the
per-product counter `ProductStock`, the `ShoppingService` that keeps one such
counter per product key, and the `PurchaseResult` record that callers build
around a purchase.

- `errors.dfy` (module `Errors`): the exceptions the ledger throws, as an
  `Error` datatype (`NullArgument`, `InvalidArgument`, `InvalidQuantity`,
  `ProductNotFound(key)`, `InsufficientStock(name, available, requested)`), and
  the `Result<T>` that carries either a value or one of them.
- `catalog.dfy` (module `Catalog`): `Product` (key, name, price) and
  `Nullable<T>`, which stands for a C# reference that may be null.
- `product_stock.dfy` (module `Stock`): the ledger entry, its constructor
  `New`, `AddQuantity` and `RemoveQuantity`, and a model of any sequence of
  calls on one entry (`ApplyAll`).
- `shopping_service.dfy` (module `Service`): the inventory as
  `map<int, ProductStock>`, the operations `AddProductToStock`,
  `RemoveProductFromStock`, `PurchaseProduct`, `GetProduct` and the listing
  `Products`, the service invariant `Valid` (every entry is stored under its
  product's key and holds a positive quantity), and a model of any sequence of
  calls on the service (`Run`).
- `purchase_result.dfy` (module `Purchase`): the record and its two factories.

Each mutating operation is a pure function from the current inventory to a
`Result`: `Ok` holds the new inventory, `Err` the error the source throws. A
throwing call in the source leaves the object as it was, because every check
runs before any field is written. In the model the caller therefore keeps the
inventory it passed in; `Service.Step` and `Stock.Apply` make that explicit.
Arguments are checked in the source's order: null product, then non-positive
quantity, then unknown key, then the entry's own insufficient-stock check.

## Model

| member | source | states |
|---|---|---|
| Stock.New | ShoppingService/Models/ProductStock.cs:12-20 | A null product is rejected first, then a negative quantity. Zero is accepted. On success the entry holds exactly the given product and quantity and is valid (quantity at least 0). |
| Stock.AddQuantity | ShoppingService/Models/ProductStock.cs:22-28 | A non-positive amount fails with an argument error. Otherwise the product is kept and the quantity grows by exactly the amount. A valid entry stays valid. |
| Stock.RemoveQuantity | ShoppingService/Models/ProductStock.cs:30-39 | A non-positive amount fails first. Then a request above the quantity fails with the stored product's name, the available amount and the requested amount. The call succeeds exactly when 0 < n <= quantity; it then keeps the product, lowers the quantity by n and leaves it at least 0. |
| Stock.AddThenRemove | ShoppingService/Models/ProductStock.cs:22-39 | On a valid entry, removing the amount just added gives back the original entry. |
| Stock.RemoveThenAdd | ShoppingService/Models/ProductStock.cs:22-39 | Adding back the amount just removed gives back the original entry. |
| Stock.AddAccumulates | ShoppingService/Models/ProductStock.cs:27 | Adding a and then b equals one addition of a + b. |
| Stock.Apply | ShoppingService/Models/ProductStock.cs:22-39 | The entry after one call. A call that throws leaves the entry as it was, because every check comes before the write. An add changes the quantity only for a positive amount, a remove only for 0 < n <= quantity. The product never changes, and a valid entry stays valid. |
| Stock.ApplyAllKeepsInvariant | ShoppingService/Models/ProductStock.cs:9-39 | After any sequence of calls, whether each succeeds or fails, a valid entry still has quantity at least 0 and still holds the same product. |
| Service.Empty | ShoppingService/Services/ShoppingService.cs:13-16 | A new service tracks nothing, satisfies the invariant and reports level 0 for every key. |
| Service.Products | ShoppingService/Services/ShoppingService.cs:18 | The listing has one element per entry, and the listed products are exactly the stored ones. When every entry is stored under its product's key, each element is the product stored under its own key and no key appears twice. |
| Service.ListedIsStored | ShoppingService/Services/ShoppingService.cs:18 | A product is listed exactly when it is the product stored under its key. |
| Service.ListedHasOnePerEntry | ShoppingService/Services/ShoppingService.cs:18 | The set of listed products has as many elements as the inventory has entries. |
| Service.AddProductToStock | ShoppingService/Services/ShoppingService.cs:20-35 | A null product fails first, then a non-positive quantity with `InvalidQuantity`; every other call succeeds. On success the key is tracked, its level rises by exactly qty from its previous level (0 when untracked), the stored product is the one stored first (or the given one for a new key), and every other key is unchanged. |
| Service.RemoveProductFromStock | ShoppingService/Services/ShoppingService.cs:37-56 | Errors come in the source's order: null product, non-positive quantity, unknown key (`ProductNotFound`), then more than on hand (`InsufficientStock` with the stored name and both amounts). The call succeeds exactly when the key is tracked and 0 < qty <= its level. On success the level drops by qty, the key stays tracked exactly when the new level is not 0, a kept entry keeps its product, and every other key is unchanged. |
| Service.PurchaseProduct | ShoppingService/Services/ShoppingService.cs:58-61 | Returns the same state and the same error as removal for every inventory, product and quantity. |
| Service.GetProduct | ShoppingService/Services/ShoppingService.cs:64-74 | Fails only for a null product. Otherwise it returns the stored quantity for a tracked key and 0 for an untracked one; no inventory is returned, so nothing changes. |
| Service.GetProductReportsLevel | ShoppingService/Services/ShoppingService.cs:64-74 | Under the invariant the query succeeds for any non-null product, never reports a negative level, and reports a positive level exactly when the key is tracked. |
| Service.AddKeepsValid | ShoppingService/Services/ShoppingService.cs:20-35 | A successful add keeps every entry under its own key and every quantity positive. |
| Service.RemoveKeepsValid | ShoppingService/Services/ShoppingService.cs:37-56 | A successful remove keeps the invariant, because an entry brought to zero is deleted. |
| Service.AddThenRemove | ShoppingService/Services/ShoppingService.cs:20-56 | On a valid inventory, removing the quantity just added gives back exactly the original inventory. This holds whether the key was tracked before or not. |
| Service.AddAccumulates | ShoppingService/Services/ShoppingService.cs:27-34 | Adding a under a product and then b under any product with the same key equals adding a + b under the first product. The first stored product is kept. |
| Service.RemoveAllPurges | ShoppingService/Services/ShoppingService.cs:49-55 | Removing exactly the level succeeds and deletes the key, so the query then reports 0 and no listed product has that key. Removing one unit more fails with `InsufficientStock`. |
| Service.PurgeThenReAdd | ShoppingService/Services/ShoppingService.cs:27-55 | After a key is purged, a new add creates a fresh entry that holds only the new quantity and the newly given product. |
| Service.Step | ShoppingService/Services/ShoppingService.cs:20-74 | The inventory after one call. A query, and every call that throws, leaves the inventory as it was, because every check comes before the first write. A purchase steps exactly like a remove. A call with a null product changes nothing. A call never touches a key other than its product's. A valid inventory stays valid. |
| Service.RunKeepsValid | ShoppingService/Services/ShoppingService.cs:20-61 | After any sequence of adds, removes, purchases and queries, successful or failed, the invariant still holds. |
| Service.RunOnOneKey | ShoppingService/Services/ShoppingService.cs:20-61 | A sequence of calls whose non-null products all have one key leaves every other key exactly as it was. Calls with a null product may be mixed in. |
| Service.TwoProductScenario | ShoppingService.Tests/ShoppingServiceTests.cs:98-125 | Combines two single-product tests, a partial removal (10 - 3 = 7) and a removal of all stock that purges the entry, into one two-product run. Start empty, add 10 of p1, add 5 of p2, remove 3 of p1: the levels are 7 and 5 and two keys are tracked. Then remove all 5 of p2: its level is 0 and one key is left. |
| Purchase.Successful | ShoppingService/Models/PurchaseResult.cs:14-24 | Sets success, the fixed message "Purchase successful", echoes the product and quantity, and sets the total to unit price times quantity, computed exactly. |
| Purchase.Failed | ShoppingService/Models/PurchaseResult.cs:26-33 | Clears success, carries the given message, and leaves the product absent, the quantity 0 and the total 0. |
| Purchase.FactoriesCoverWellFormed | ShoppingService/Models/PurchaseResult.cs:14-33 | Every well-formed result is the one the matching factory builds from that result's own fields, so the two factories build exactly the well-formed results. |

## Left out

- Stock.AddQuantity: does not model the 32-bit wrap-around of `Quantity += quantity` (quantities are unbounded integers here), so its "quantity grows by exactly n" and "a valid entry stays valid" hold only while the source's sum stays at most 2^31 - 1.
- Stock.AddThenRemove: the round trip holds only while the stored sum stays at most 2^31 - 1. Past that bound the add wraps to a negative quantity, and the following remove throws `InsufficientStock`.
- Service.AddThenRemove: the round trip holds only while the stored sum stays at most 2^31 - 1. Past that bound the add wraps to a negative quantity and the remove throws `InsufficientStock`. The wrapped entry stays tracked, and every remove on it throws `InsufficientStock`, until later adds bring it back to 0 or above. Adds can also leave a tracked entry at exactly 0.
- Stock.ApplyAllKeepsInvariant: "quantity at least 0" holds only while every stored sum stays at most 2^31 - 1. In C# an add past that bound wraps to a negative quantity.
- Service.AddProductToStock: "the level rises by exactly qty" holds only while the sum stays at most 2^31 - 1.
- Service.AddKeepsValid: holds only while every stored sum stays at most 2^31 - 1. A wrapped entry is negative. It stays tracked, and every remove on it throws `InsufficientStock`, until later adds bring it back to 0 or above. Adds can also leave a tracked entry at exactly 0, which is a second way the invariant fails.
- Service.Step: "a valid inventory stays valid" holds only while every stored sum stays at most 2^31 - 1, for the same reason.
- Service.RunKeepsValid: holds only while every stored sum stays at most 2^31 - 1, for the same reason.
- Service.GetProductReportsLevel: "never negative" holds only while every stored sum stays at most 2^31 - 1. After a wrap, the query returns the negative stored value.
- Stock.Apply: "a valid entry stays valid" holds only while the sum stays at most 2^31 - 1.
- Purchase.Successful: a null product is not modelled. The parameter is declared non-nullable, but a null would throw a NullReferenceException when the price is read.
- Decimal range and precision: prices are exact reals. C# `decimal` has 28 to 29 significant digits and throws on overflow, and the model has no such bound.
- Exception message text: errors are modelled by kind and by the values their messages carry, not by the formatted strings.
- Listing order: `Products` returns the entries in the dictionary's enumeration order, which is unspecified. The model picks each next key arbitrarily and promises nothing about order.
- Product fields SKU, description and category: they take part in no logic.
- Reference identity: products are values, so "the same object" reads as "an equal value". Lookup uses only the key, as the source does. `Product` has public setters (`Key`, `Name`, `Price`), and mutating a product after it is stored is not modelled. In C# that would change the key of a stored entry, breaking the "keyed by its product" half of the invariant, and would change the name an insufficient-stock error carries. `Name` is a nullable `string?` in C# and is modelled as a plain `string`.
- `ProductWithStock`, `PurchaseRequest` and `IShoppingService`: they are data shapes and an interface with no logic beyond a null check.
- Concurrency: the source assumes a single caller, and so does the model.
