/** The inventory service: a map from product key to ledger entry, with the
    add, remove, purchase and query operations over it. Each operation is a
    pure function of the current inventory; a successful mutation returns the
    new inventory, a failed one returns the error and the caller keeps the
    inventory it had. */
module Service {
  import opened Errors
  import opened Catalog
  import opened Stock

  type Inventory = map<int, ProductStock>

  /** Each entry is stored under its own product's key. */
  predicate Keyed(inv: Inventory) {
    forall k :: k in inv ==> inv[k].product.key == k
  }

  /** The service invariant: entries are keyed by their product and none is
      kept at zero (or below). */
  predicate Valid(inv: Inventory) {
    && Keyed(inv)
    && forall k :: k in inv ==> inv[k].quantity > 0
  }

  /** The units on hand for `key`, zero when it is not tracked. */
  function Level(inv: Inventory, key: int): int {
    if key in inv then inv[key].quantity else 0
  }

  /** `a` and `b` agree on every key other than `key`. */
  ghost predicate SameExcept(a: Inventory, b: Inventory, key: int) {
    forall k :: k != key ==> (k in a <==> k in b) && (k in a ==> a[k] == b[k])
  }

  /** The set of products that `Products` lists. */
  function Listed(inv: Inventory): set<Product> {
    set k | k in inv :: inv[k].product
  }

  /** A new service tracks nothing. */
  function Empty(): (inv: Inventory)
    ensures Valid(inv) && |inv| == 0
    ensures forall key :: Level(inv, key) == 0
  {
    map[]
  }

  /** A key set is empty or has a member: what lets an enumeration take a next key. */
  lemma EmptyOrMember(keys: set<int>)
    ensures keys == {} || exists k :: k in keys
  {
    if forall k :: k !in keys {
      assert keys == {};
    }
  }

  /** The listing of tracked products: one element per entry, each the product
      stored for its key. The dictionary's enumeration order is unspecified, so
      the next key is chosen arbitrarily. */
  method Products(inv: Inventory) returns (ps: seq<Product>)
    ensures |ps| == |inv|
    ensures forall p :: p in ps <==> p in Listed(inv)
    ensures Keyed(inv) ==> forall i :: 0 <= i < |ps| ==> ps[i].key in inv && inv[ps[i].key].product == ps[i]
    ensures Keyed(inv) ==> forall i, j :: 0 <= i < j < |ps| ==> ps[i].key != ps[j].key
  {
    ps := [];
    ghost var visited: seq<int> := [];
    var rest := inv.Keys;
    while rest != {}
      invariant rest <= inv.Keys
      invariant |visited| == |ps|
      invariant |ps| + |rest| == |inv.Keys|
      invariant forall i :: 0 <= i < |ps| ==> visited[i] in inv.Keys - rest && ps[i] == inv[visited[i]].product
      invariant forall k :: k in inv.Keys - rest ==> inv[k].product in ps
      invariant forall i, j :: 0 <= i < j < |ps| ==> visited[i] != visited[j]
      decreases rest
    {
      EmptyOrMember(rest);
      var key :| key in rest;
      ps := ps + [inv[key].product];
      visited := visited + [key];
      rest := rest - {key};
    }
    forall i | 0 <= i < |ps|
      ensures ps[i] in Listed(inv)
      ensures Keyed(inv) ==> ps[i].key == visited[i]
    {
      var k := visited[i];
      assert k in inv && ps[i] == inv[k].product;
      assert inv[k].product in Listed(inv);
    }
  }

  /** Adds `qty` units of `product`. Arguments are checked in order: null
      product, then non-positive quantity. A tracked key is topped up through
      its entry (keeping the product stored first); an untracked key gets a new
      entry holding exactly `qty`. */
  function AddProductToStock(inv: Inventory, product: Nullable<Product>, qty: int): (r: Result<Inventory>)
    ensures product.Null? ==> r == Err(NullArgument)
    ensures product.NonNull? && qty <= 0 ==> r == Err(InvalidQuantity)
    ensures r.Ok? <==> product.NonNull? && qty > 0
    ensures r.Ok? ==> var key := product.value.key;
      && key in r.value
      && Level(r.value, key) == Level(inv, key) + qty
      && r.value[key].product == (if key in inv then inv[key].product else product.value)
      && SameExcept(r.value, inv, key)
  {
    match product
    case Null => Err(NullArgument)
    case NonNull(p) =>
      if qty <= 0 then Err(InvalidQuantity)
      else if p.key in inv then
        match AddQuantity(inv[p.key], qty)
        case Ok(s) => Ok(inv[p.key := s])
        case Err(e) => Err(e)
      else
        match New(product, qty)
        case Ok(s) => Ok(inv[p.key := s])
        case Err(e) => Err(e)
  }

  /** Removes `qty` units of `product`. Checks, in order: null product,
      non-positive quantity, untracked key, then the entry's own
      insufficient-stock check. An entry brought to exactly zero is deleted. */
  function RemoveProductFromStock(inv: Inventory, product: Nullable<Product>, qty: int): (r: Result<Inventory>)
    ensures product.Null? ==> r == Err(NullArgument)
    ensures product.NonNull? && qty <= 0 ==> r == Err(InvalidQuantity)
    ensures product.NonNull? && qty > 0 && product.value.key !in inv ==>
      r == Err(ProductNotFound(product.value.key))
    ensures product.NonNull? && qty > 0 && product.value.key in inv && qty > inv[product.value.key].quantity ==>
      var s := inv[product.value.key]; r == Err(InsufficientStock(s.product.name, s.quantity, qty))
    ensures r.Ok? <==> product.NonNull? && product.value.key in inv && 0 < qty <= inv[product.value.key].quantity
    ensures r.Ok? ==> var key := product.value.key;
      && Level(r.value, key) == Level(inv, key) - qty
      && (key in r.value <==> Level(r.value, key) != 0)
      && (key in r.value ==> r.value[key].product == inv[key].product)
      && SameExcept(r.value, inv, key)
  {
    match product
    case Null => Err(NullArgument)
    case NonNull(p) =>
      if qty <= 0 then Err(InvalidQuantity)
      else if p.key !in inv then Err(ProductNotFound(p.key))
      else
        match RemoveQuantity(inv[p.key], qty)
        case Err(e) => Err(e)
        case Ok(s) => if s.quantity == 0 then Ok(inv - {p.key}) else Ok(inv[p.key := s])
  }

  /** Purchasing is removal under another name: same state, same errors. */
  function PurchaseProduct(inv: Inventory, product: Nullable<Product>, qty: int): (r: Result<Inventory>)
    ensures r == RemoveProductFromStock(inv, product, qty)
  {
    RemoveProductFromStock(inv, product, qty)
  }

  /** The units on hand for `product`'s key, 0 when untracked; only a null
      product is an error. */
  function GetProduct(inv: Inventory, product: Nullable<Product>): (r: Result<int>)
    ensures r.Err? <==> product.Null?
    ensures product.Null? ==> r == Err(NullArgument)
    ensures product.NonNull? && product.value.key in inv ==> r == Ok(inv[product.value.key].quantity)
    ensures product.NonNull? && product.value.key !in inv ==> r == Ok(0)
  {
    match product
    case Null => Err(NullArgument)
    case NonNull(p) => Ok(Level(inv, p.key))
  }

  /** Under the invariant the query never reports a negative level, and reports
      a positive one exactly for a tracked key. */
  lemma GetProductReportsLevel(inv: Inventory, p: Product)
    requires Valid(inv)
    ensures GetProduct(inv, NonNull(p)).Ok?
    ensures GetProduct(inv, NonNull(p)).value >= 0
    ensures GetProduct(inv, NonNull(p)).value > 0 <==> p.key in inv
  {
  }

  /** Adding keeps the service invariant. */
  lemma AddKeepsValid(inv: Inventory, product: Nullable<Product>, qty: int)
    requires Valid(inv)
    ensures AddProductToStock(inv, product, qty).Ok? ==> Valid(AddProductToStock(inv, product, qty).value)
  {
  }

  /** Removing keeps the service invariant: an entry that reaches zero is purged. */
  lemma RemoveKeepsValid(inv: Inventory, product: Nullable<Product>, qty: int)
    requires Valid(inv)
    ensures RemoveProductFromStock(inv, product, qty).Ok? ==> Valid(RemoveProductFromStock(inv, product, qty).value)
  {
  }

  /** Removing what was just added restores the inventory exactly, whether the
      key was tracked before (its entry drops back) or not (its new entry is
      purged). */
  lemma AddThenRemove(inv: Inventory, p: Product, qty: int)
    requires Valid(inv) && qty > 0
    ensures AddProductToStock(inv, NonNull(p), qty).Ok?
    ensures RemoveProductFromStock(AddProductToStock(inv, NonNull(p), qty).value, NonNull(p), qty) == Ok(inv)
  {
    var mid := AddProductToStock(inv, NonNull(p), qty).value;
    var back := RemoveProductFromStock(mid, NonNull(p), qty).value;
    if p.key in inv {
      assert back[p.key] == inv[p.key];
      assert back.Keys == inv.Keys;
      assert back == inv;
    } else {
      assert back.Keys == inv.Keys;
      assert forall k :: k in back ==> back[k] == inv[k];
      assert back == inv;
    }
  }

  /** Two additions under one key amount to one addition of their sum, and the
      product stored is the one given first, even when the second call passes a
      different product with the same key. */
  lemma AddAccumulates(inv: Inventory, p: Product, p': Product, a: int, b: int)
    requires p'.key == p.key && a > 0 && b > 0
    ensures AddProductToStock(inv, NonNull(p), a).Ok?
    ensures AddProductToStock(AddProductToStock(inv, NonNull(p), a).value, NonNull(p'), b)
         == AddProductToStock(inv, NonNull(p), a + b)
  {
    var once := AddProductToStock(inv, NonNull(p), a + b).value;
    var twice := AddProductToStock(AddProductToStock(inv, NonNull(p), a).value, NonNull(p'), b).value;
    assert twice.Keys == once.Keys;
    assert twice[p.key] == once[p.key];
    assert forall k :: k in twice ==> twice[k] == once[k];
    assert twice == once;
  }

  /** Removing exactly the units on hand succeeds and purges the key: the query
      then reports zero and the listing no longer holds any product with that
      key. One unit more fails with the insufficient-stock error. */
  lemma RemoveAllPurges(inv: Inventory, p: Product)
    requires Valid(inv) && p.key in inv
    ensures var r := RemoveProductFromStock(inv, NonNull(p), inv[p.key].quantity);
      && r.Ok?
      && p.key !in r.value
      && GetProduct(r.value, NonNull(p)) == Ok(0)
      && forall q :: q in Listed(r.value) ==> q.key != p.key
    ensures var n := inv[p.key].quantity + 1;
      RemoveProductFromStock(inv, NonNull(p), n)
        == Err(InsufficientStock(inv[p.key].product.name, inv[p.key].quantity, n))
  {
  }

  /** After a key has been purged, adding it again starts a fresh entry holding
      only the new quantity and the newly given product. */
  lemma PurgeThenReAdd(inv: Inventory, p: Product, p': Product, qty: int)
    requires Valid(inv) && p.key in inv && p'.key == p.key && qty > 0
    ensures RemoveProductFromStock(inv, NonNull(p), inv[p.key].quantity).Ok?
    ensures var gone := RemoveProductFromStock(inv, NonNull(p), inv[p.key].quantity).value;
      && AddProductToStock(gone, NonNull(p'), qty).Ok?
      && AddProductToStock(gone, NonNull(p'), qty).value[p.key] == ProductStock(p', qty)
  {
  }

  /** Under the invariant, a product is listed exactly when it is the one
      stored under its own key. */
  lemma ListedIsStored(inv: Inventory, p: Product)
    requires Keyed(inv)
    ensures p in Listed(inv) <==> p.key in inv && inv[p.key].product == p
  {
  }

  /** Under the invariant the listing has one product per entry. */
  lemma {:induction false} ListedHasOnePerEntry(inv: Inventory)
    requires Keyed(inv)
    ensures |Listed(inv)| == |inv|
    decreases |inv|
  {
    if inv != map[] {
      EmptyOrMember(inv.Keys);
      var k :| k in inv.Keys;
      var rest := inv - {k};
      ListedHasOnePerEntry(rest);
      forall q | q in Listed(inv)
        ensures q in Listed(rest) + {inv[k].product}
      {
        var j :| j in inv && inv[j].product == q;
        if j != k {
          assert j in rest;
        }
      }
      assert Listed(inv) == Listed(rest) + {inv[k].product};
      assert inv[k].product !in Listed(rest);
    }
  }

  /** A call on the service object, as a client makes it. */
  datatype Call =
    | Add(product: Nullable<Product>, qty: int)
    | Remove(product: Nullable<Product>, qty: int)
    | Purchase(product: Nullable<Product>, qty: int)
    | Get(product: Nullable<Product>)

  /** The inventory after a call: a call that throws, and every query, leaves
      it as it was. */
  function Step(inv: Inventory, c: Call): (r: Inventory)
    ensures c.Get? ==> r == inv
    ensures c.Add? ==> var a := AddProductToStock(inv, c.product, c.qty);
      r == if a.Ok? then a.value else inv
    ensures c.Remove? || c.Purchase? ==> var d := RemoveProductFromStock(inv, c.product, c.qty);
      r == if d.Ok? then d.value else inv
    ensures c.product.Null? ==> r == inv
    ensures c.product.NonNull? ==> SameExcept(r, inv, c.product.value.key)
    ensures Valid(inv) ==> Valid(r)
  {
    var r := match c
      case Add(p, n) => AddProductToStock(inv, p, n)
      case Remove(p, n) => RemoveProductFromStock(inv, p, n)
      case Purchase(p, n) => PurchaseProduct(inv, p, n)
      case Get(_) => Ok(inv);
    if r.Ok? then r.value else inv
  }

  /** The inventory after a sequence of calls from a fresh or given state. */
  function Run(inv: Inventory, calls: seq<Call>): Inventory
    decreases |calls|
  {
    if |calls| == 0 then inv else Run(Step(inv, calls[0]), calls[1..])
  }

  /** Whatever calls are made, every tracked entry stays keyed by its product
      and holds a positive quantity. The induction rests on `Step`'s own
      promise to keep the invariant for a single call. */
  lemma {:induction false} RunKeepsValid(inv: Inventory, calls: seq<Call>)
    requires Valid(inv)
    ensures Valid(Run(inv, calls))
    decreases |calls|
  {
    if |calls| > 0 {
      RunKeepsValid(Step(inv, calls[0]), calls[1..]);
    }
  }

  /** A run of calls that name only products with one key (null products
      included, which fail) never disturbs any other key. */
  lemma {:induction false} RunOnOneKey(inv: Inventory, calls: seq<Call>, key: int, other: int)
    requires other != key
    requires forall i :: 0 <= i < |calls| && calls[i].product.NonNull? ==> calls[i].product.value.key == key
    ensures other in Run(inv, calls) <==> other in inv
    ensures other in inv ==> Run(inv, calls)[other] == inv[other]
    decreases |calls|
  {
    if |calls| > 0 {
      RunOnOneKey(Step(inv, calls[0]), calls[1..], key, other);
    }
  }

  /** The worked example: stock two products, sell part of one, then sell out
      the other. */
  lemma TwoProductScenario(p1: Product, p2: Product)
    requires p1.key != p2.key
    ensures var s0 := Empty();
      var s1 := Run(s0, [Add(NonNull(p1), 10), Add(NonNull(p2), 5), Remove(NonNull(p1), 3)]);
      var s2 := Step(s1, Remove(NonNull(p2), 5));
      && GetProduct(s1, NonNull(p1)) == Ok(7)
      && GetProduct(s1, NonNull(p2)) == Ok(5)
      && |s1| == 2
      && GetProduct(s2, NonNull(p2)) == Ok(0)
      && |s2| == 1
  {
    var s0 := Empty();
    var a := Step(s0, Add(NonNull(p1), 10));
    var b := Step(a, Add(NonNull(p2), 5));
    var c := Step(b, Remove(NonNull(p1), 3));
    var calls := [Add(NonNull(p1), 10), Add(NonNull(p2), 5), Remove(NonNull(p1), 3)];
    assert Run(s0, calls) == Run(a, calls[1..]);
    assert Run(a, calls[1..]) == Run(b, calls[2..]);
    assert Run(b, calls[2..]) == Run(c, calls[3..]);
    assert calls[3..] == [];
    assert c.Keys == {p1.key, p2.key};
    assert Step(c, Remove(NonNull(p2), 5)).Keys == {p1.key};
  }
}
