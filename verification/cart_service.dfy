/** The cart service: add, update, delete and list the items of a
    customer's cart. Every guard runs before the single write, and an
    operation that fails returns `Err` with no table, so the caller's table
    is the one it had: that is the transaction's rollback. */
module CartService {

  import opened JavaInt
  import opened Results
  import opened Exceptions
  import opened CartItemDao
  import opened Catalog

  datatype CartAdditionRequest = CartAdditionRequest(productId: ProductId, quantity: Int32)

  datatype CartUpdateRequest = CartUpdateRequest(productId: ProductId, quantity: Int32)

  /** One line of a listed cart: the product and the quantity held. */
  datatype Cart = Cart(product: Product, quantity: Int32)

  /** Rejects a quantity above the stock; a quantity equal to it passes. */
  function ValidateStock(stock: Int32, quantity: Int32): Outcome<CartError> {
    if stock < quantity then Fail(InvalidCartItem(OutOfStock(stock))) else Pass
  }

  /** Rejects a product that is not in the customer's cart. */
  function ValidateExistProduct(t: Table, customerId: CustomerId, product: Product): Outcome<CartError> {
    if !ExistCartItem(t.rows, customerId, product.id) then Fail(InvalidCartItem(NotInCart)) else Pass
  }

  /** The quantity an addition would leave in the cart: the request's own
      quantity for a fresh item, the Java `int` sum for an existing one. */
  function ResultingQuantity(t: Table, customerId: CustomerId, request: CartAdditionRequest): Int32 {
    match FindByCustomerIdAndProductId(t.rows, customerId, request.productId)
    case Some(item) => Add(item.quantity, request.quantity)
    case None => request.quantity
  }

  /** Merges the requested quantity into the item already in the cart. */
  function AddQuantity(t: Table, request: CartAdditionRequest, customerId: CustomerId, product: Product): (r: Result<Table, CartError>)
    requires ExistCartItem(t.rows, customerId, product.id)
    ensures r.Ok? ==> r.value.nextId == t.nextId && |r.value.rows| == |t.rows|
    ensures r.Ok? <==> Add(FindByCustomerIdAndProductId(t.rows, customerId, product.id).value.quantity, request.quantity) <= product.stock
    ensures r.Ok? ==>
      var before := FindByCustomerIdAndProductId(t.rows, customerId, product.id).value;
      FindByCustomerIdAndProductId(r.value.rows, customerId, product.id)
        == Some(before.(quantity := Add(before.quantity, request.quantity)))
  {
    var item := FindByCustomerIdAndProductId(t.rows, customerId, product.id).value;
    var newQuantity := Add(item.quantity, request.quantity);
    :- ValidateStock(product.stock, newQuantity);
    FindAfterUpdate(t.rows, customerId, product.id, newQuantity, customerId, product.id);
    Ok(t.(rows := UpdateQuantity(t.rows, customerId, product.id, newQuantity)))
  }

  /** Puts a product into the customer's cart, merging with the item already
      there. `saveRejected` is the database's verdict on the INSERT of a new
      row, which the model does not see into. */
  function AddCartItem(t: Table, shop: Shop, email: string, request: CartAdditionRequest, saveRejected: bool): (r: Result<Table, CartError>)
    ensures r.Ok? ==> email in shop.customers && request.productId in shop.stocks
    ensures r.Ok? ==>
      var found := FindByCustomerIdAndProductId(r.value.rows, shop.customers[email], request.productId);
      found.Some? && found.value.quantity <= shop.stocks[request.productId]
  {
    var customerId :- FindIdByEmail(shop, email);
    var product :- FindById(shop, request.productId);
    if ExistCartItem(t.rows, customerId, product.id) then
      AddQuantity(t, request, customerId, product)
    else
      :- ValidateStock(product.stock, request.quantity);
      if saveRejected then Err(InvalidProduct)
      else
        FindAfterAppend(t.rows, CartItem(t.nextId, customerId, request.productId, request.quantity), customerId, request.productId);
        Ok(Save(t, customerId, request.productId, request.quantity))
  }

  /** Overwrites the quantity of an item already in the customer's cart. */
  function UpdateCartItem(t: Table, shop: Shop, email: string, request: CartUpdateRequest): (r: Result<Table, CartError>)
    ensures r.Ok? ==> email in shop.customers && request.productId in shop.stocks
    ensures r.Ok? ==> r.value.nextId == t.nextId && |r.value.rows| == |t.rows|
    ensures r.Ok? ==>
      var found := FindByCustomerIdAndProductId(r.value.rows, shop.customers[email], request.productId);
      found.Some? && found.value.quantity == request.quantity
  {
    var customerId :- FindIdByEmail(shop, email);
    var product :- FindById(shop, request.productId);
    :- ValidateExistProduct(t, customerId, product);
    :- ValidateStock(product.stock, request.quantity);
    FindAfterUpdate(t.rows, customerId, request.productId, request.quantity, customerId, request.productId);
    Ok(t.(rows := UpdateQuantity(t.rows, customerId, request.productId, request.quantity)))
  }

  /** The customer's cart rows, in store order. */
  function FindCartItemsByEmail(t: Table, shop: Shop, email: string): (r: Result<seq<CartItem>, CartError>)
    ensures r.Ok? <==> email in shop.customers
    ensures r.Ok? ==> forall item :: item in r.value <==> item in t.rows && item.customerId == shop.customers[email]
    ensures r.Ok? ==> r.value == FindAllByCustomerId(t.rows, shop.customers[email])
  {
    var customerId :- FindIdByEmail(shop, email);
    Ok(FindAllByCustomerId(t.rows, customerId))
  }

  /** The id of the first of `items` that holds `productId`. */
  function FindCartId(items: seq<CartItem>, productId: ProductId): (r: Result<CartId, CartError>)
    ensures r.Ok? <==> exists item | item in items :: item.productId == productId
    ensures r.Ok? ==> exists item | item in items :: item.productId == productId && item.id == r.value
    ensures r.Err? ==> r.error == NotInCustomerCartItem
  {
    if |items| == 0 then Err(NotInCustomerCartItem)
    else if items[0].productId == productId then Ok(items[0].id)
    else FindCartId(items[1..], productId)
  }

  /** Removes the product from the customer's cart. */
  function DeleteCartItem(t: Table, shop: Shop, email: string, productId: ProductId): (r: Result<Table, CartError>)
    ensures r.Ok? ==> email in shop.customers && ExistCartItem(t.rows, shop.customers[email], productId)
    ensures r.Ok? ==> r.value.nextId == t.nextId && |r.value.rows| < |t.rows|
  {
    var items :- FindCartItemsByEmail(t, shop, email);
    var cartId :- FindCartId(items, productId);
    Ok(t.(rows := DeleteById(t.rows, cartId)))
  }

  /** Lists the customer's cart: one line per row of theirs, in store order,
      carrying the row's product (with its current stock) and quantity. */
  method FindCartsByEmail(t: Table, shop: Shop, email: string) returns (r: Result<seq<Cart>, CartError>)
    ensures email !in shop.customers ==> r == Err(CustomerNotFound)
    ensures email in shop.customers ==>
      var items := FindAllByCustomerId(t.rows, shop.customers[email]);
      && (r.Ok? <==> forall i | 0 <= i < |items| :: items[i].productId in shop.stocks)
      && (r.Err? ==> r.error == ProductNotFound)
      && (r.Ok? ==>
            && |r.value| == |items|
            && forall i | 0 <= i < |items| ::
                 r.value[i] == Cart(Product(items[i].productId, shop.stocks[items[i].productId]), items[i].quantity))
  {
    var items :- FindCartItemsByEmail(t, shop, email);
    var carts: seq<Cart> := [];
    var k := 0;
    while k < |items|
      invariant 0 <= k <= |items|
      invariant |carts| == k
      invariant forall i | 0 <= i < k ::
        items[i].productId in shop.stocks &&
        carts[i] == Cart(Product(items[i].productId, shop.stocks[items[i].productId]), items[i].quantity)
    {
      var product :- FindById(shop, items[k].productId);
      carts := carts + [Cart(product, items[k].quantity)];
      k := k + 1;
    }
    return Ok(carts);
  }
}
