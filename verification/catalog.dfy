/** The read-only lookups the cart service depends on: the customer
    directory (email to customer id) and the product catalogue (product id
    to stock). Both fail when the key is absent. */
module Catalog {

  import opened JavaInt
  import opened Results
  import opened Exceptions
  import opened CartItemDao

  datatype Product = Product(id: ProductId, stock: Int32)

  datatype Shop = Shop(customers: map<string, CustomerId>, stocks: map<ProductId, Int32>)

  /** The customer id registered for `email`. */
  function FindIdByEmail(shop: Shop, email: string): (r: Result<CustomerId, CartError>)
    ensures r.Ok? <==> email in shop.customers
    ensures r.Ok? ==> r.value == shop.customers[email]
    ensures r.Err? ==> r.error == CustomerNotFound
  {
    if email in shop.customers then Ok(shop.customers[email]) else Err(CustomerNotFound)
  }

  /** The product with id `productId`, carrying its current stock. */
  function FindById(shop: Shop, productId: ProductId): (r: Result<Product, CartError>)
    ensures r.Ok? <==> productId in shop.stocks
    ensures r.Ok? ==> r.value.id == productId && r.value.stock == shop.stocks[productId]
    ensures r.Err? ==> r.error == ProductNotFound
  {
    if productId in shop.stocks then Ok(Product(productId, shop.stocks[productId])) else Err(ProductNotFound)
  }
}
