/** The cart handlers (backend/src/controllers/cartController.js) as
    transitions on a map from (user, product) lines to quantities, with
    stock read from the product table. Each handler is one atomic step. */
module Cart {
  import opened Wrappers
  import Catalog

  /** A cart line's unique key (`userId_productId`). */
  datatype LineKey = LineKey(userId: nat, productId: nat)

  type CartTable = map<LineKey, int>

  /** Every line's quantity is within its product's stock. */
  ghost predicate WithinStock(cart: CartTable, catalog: seq<Catalog.Product>)
  {
    forall k | k in cart :: Catalog.Find(catalog, k.productId).Some?
                            && cart[k] <= Catalog.Find(catalog, k.productId).value.stock
  }

  /** `addToCart`. `productId` is None when the body's field is falsy;
      `quantity` is None when the field is absent and then defaults to 1.
      A quantity below 1 is not rejected. */
  function AddToCart(cart: CartTable, catalog: seq<Catalog.Product>, userId: nat, productId: Option<nat>, quantity: Option<int>)
    : (r: Outcome<CartTable>)
    ensures productId.None? ==> r == Fail(400, "Product ID is required")
    ensures productId.Some? && Catalog.Find(catalog, productId.value).None? ==> r == Fail(404, "Product not found")
    ensures r.Ok? ==>
              var key := LineKey(userId, productId.value);
              var q := if quantity.Some? then quantity.value else 1;
              var stock := Catalog.Find(catalog, productId.value).value.stock;
              && r.value.Keys == cart.Keys + {key}
              && r.value[key] == (if key in cart then cart[key] + q else q)
              && q <= stock && r.value[key] <= stock
              && (forall k | k in cart && k != key :: r.value[k] == cart[k])
    ensures !r.Invalid?
  {
    if productId.None? then Fail(400, "Product ID is required")
    else
      match Catalog.Find(catalog, productId.value)
      case None => Fail(404, "Product not found")
      case Some(p) =>
        var q := if quantity.Some? then quantity.value else 1;
        var key := LineKey(userId, productId.value);
        if p.stock < q then Fail(400, "Insufficient stock")
        else if key in cart then
          if p.stock < cart[key] + q then Fail(400, "Insufficient stock")
          else Ok(cart[key := cart[key] + q])
        else Ok(cart[key := q])
  }

  /** An add fails for stock exactly when the requested quantity, or the
      line's new total, exceeds the product's stock. */
  lemma AddToCartStockRule(cart: CartTable, catalog: seq<Catalog.Product>, userId: nat, productId: nat, quantity: Option<int>)
    requires Catalog.Find(catalog, productId).Some?
    ensures var r := AddToCart(cart, catalog, userId, Some(productId), quantity);
            var key := LineKey(userId, productId);
            var q := if quantity.Some? then quantity.value else 1;
            var stock := Catalog.Find(catalog, productId).value.stock;
            r == Fail(400, "Insufficient stock") <==> q > stock || (key in cart && cart[key] + q > stock)
    ensures AddToCart(cart, catalog, userId, Some(productId), quantity).Ok?
            || AddToCart(cart, catalog, userId, Some(productId), quantity) == Fail(400, "Insufficient stock")
  {
  }

  /** Only `updateCartQuantity` rejects quantities below 1: an add of zero or
      a negative amount goes through whenever stock allows the result. */
  lemma AddToCartAcceptsNonPositive(cart: CartTable, catalog: seq<Catalog.Product>, userId: nat, productId: nat, q: int)
    requires q < 1
    requires Catalog.Find(catalog, productId).Some?
    requires var stock := Catalog.Find(catalog, productId).value.stock;
             q <= stock && (LineKey(userId, productId) in cart ==> cart[LineKey(userId, productId)] + q <= stock)
    ensures AddToCart(cart, catalog, userId, Some(productId), Some(q)).Ok?
  {
  }

  /** `updateCartQuantity`. `quantity` is None when absent. A missing line
      surfaces as the database's not-found error, answered with 404. */
  function UpdateCartQuantity(cart: CartTable, catalog: seq<Catalog.Product>, userId: nat, productId: Option<nat>, quantity: Option<int>)
    : (r: Outcome<CartTable>)
    ensures productId.None? || quantity.None? ==> r == Fail(400, "Product ID and quantity are required")
    ensures productId.Some? && quantity.Some? && quantity.value < 1 ==> r == Fail(400, "Quantity must be at least 1")
    ensures r.Ok? <==>
              && productId.Some? && quantity.Some? && quantity.value >= 1
              && Catalog.Find(catalog, productId.value).Some?
              && quantity.value <= Catalog.Find(catalog, productId.value).value.stock
              && LineKey(userId, productId.value) in cart
    ensures r.Ok? ==>
              var key := LineKey(userId, productId.value);
              && r.value.Keys == cart.Keys
              && r.value[key] == quantity.value
              && (forall k | k in cart && k != key :: r.value[k] == cart[k])
    ensures !r.Invalid?
  {
    if productId.None? || quantity.None? then Fail(400, "Product ID and quantity are required")
    else if quantity.value < 1 then Fail(400, "Quantity must be at least 1")
    else
      match Catalog.Find(catalog, productId.value)
      case None => Fail(404, "Product not found")
      case Some(p) =>
        if p.stock < quantity.value then Fail(400, "Insufficient stock")
        else
          var key := LineKey(userId, productId.value);
          if key !in cart then Fail(404, "Cart item not found")
          else Ok(cart[key := quantity.value])
  }

  /** The failure an update answers with, in the handler's order of checks. */
  lemma UpdateCartQuantityErrors(cart: CartTable, catalog: seq<Catalog.Product>, userId: nat, productId: nat, q: int)
    requires q >= 1
    ensures var r := UpdateCartQuantity(cart, catalog, userId, Some(productId), Some(q));
            && (Catalog.Find(catalog, productId).None? ==> r == Fail(404, "Product not found"))
            && (Catalog.Find(catalog, productId).Some? && Catalog.Find(catalog, productId).value.stock < q ==>
                  r == Fail(400, "Insufficient stock"))
            && ((Catalog.Find(catalog, productId).Some? && q <= Catalog.Find(catalog, productId).value.stock
                 && LineKey(userId, productId) !in cart) ==> r == Fail(404, "Cart item not found"))
  {
  }

  /** `removeFromCart`: deletes exactly the one line; a missing line is 404. */
  function RemoveFromCart(cart: CartTable, userId: nat, productId: Option<nat>): (r: Outcome<CartTable>)
    ensures productId.None? ==> r == Fail(400, "Product ID is required")
    ensures productId.Some? && LineKey(userId, productId.value) !in cart ==> r == Fail(404, "Cart item not found")
    ensures r.Ok? <==> productId.Some? && LineKey(userId, productId.value) in cart
    ensures r.Ok? ==> r.value.Keys == cart.Keys - {LineKey(userId, productId.value)}
                      && forall k | k in r.value :: r.value[k] == cart[k]
    ensures !r.Invalid?
  {
    if productId.None? then Fail(400, "Product ID is required")
    else
      var key := LineKey(userId, productId.value);
      if key !in cart then Fail(404, "Cart item not found")
      else Ok(cart - {key})
  }

  /** `clearCart`: every line of the user goes, every other user's line stays. */
  function ClearCart(cart: CartTable, userId: nat): (r: CartTable)
    ensures forall k | k in r :: k.userId != userId
    ensures forall k | k in cart && k.userId != userId :: k in r && r[k] == cart[k]
    ensures r.Keys <= cart.Keys
  {
    map k | k in cart && k.userId != userId :: cart[k]
  }

  /** Every successful cart transition keeps each line within its product's
      stock (the product table itself is not changed by the cart). */
  lemma CartKeepsWithinStock(cart: CartTable, catalog: seq<Catalog.Product>, userId: nat, productId: Option<nat>, quantity: Option<int>)
    requires WithinStock(cart, catalog)
    ensures AddToCart(cart, catalog, userId, productId, quantity).Ok? ==>
              WithinStock(AddToCart(cart, catalog, userId, productId, quantity).value, catalog)
    ensures UpdateCartQuantity(cart, catalog, userId, productId, quantity).Ok? ==>
              WithinStock(UpdateCartQuantity(cart, catalog, userId, productId, quantity).value, catalog)
    ensures RemoveFromCart(cart, userId, productId).Ok? ==>
              WithinStock(RemoveFromCart(cart, userId, productId).value, catalog)
    ensures WithinStock(ClearCart(cart, userId), catalog)
  {
  }
}
