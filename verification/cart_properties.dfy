/** What the cart operations promise: the effect of each successful
    operation on the customer's items, the error each guard raises, and the
    invariants (one item per customer and product, quantity within stock)
    that every operation keeps. */
module CartProperties {

  import opened JavaInt
  import opened Results
  import opened Exceptions
  import opened CartItemDao
  import opened Catalog
  import opened CartService

  /** Every row whose product is in the catalogue holds no more than its stock. */
  ghost predicate StockBounded(rows: seq<CartItem>, stocks: map<ProductId, Int32>) {
    forall i | 0 <= i < |rows| :: rows[i].productId in stocks ==> rows[i].quantity <= stocks[rows[i].productId]
  }

  ghost predicate CartInvariant(t: Table, shop: Shop) {
    Valid(t) && StockBounded(t.rows, shop.stocks)
  }

  /** Every key other than (customerId, productId) finds the same row after as before. */
  ghost predicate OthersUnchanged(before: seq<CartItem>, after: seq<CartItem>, customerId: CustomerId, productId: ProductId) {
    forall c, p | !(c == customerId && p == productId) ::
      FindByCustomerIdAndProductId(after, c, p) == FindByCustomerIdAndProductId(before, c, p)
  }

  /* ---------------------------------------------------------------------
     Add
     --------------------------------------------------------------------- */

  /** A product not yet in the cart, within stock, becomes exactly one new
      row at the end of the table, under a fresh id; nothing else changes. */
  lemma AddNewProductInsertsOneItem(t: Table, shop: Shop, email: string, request: CartAdditionRequest)
    requires email in shop.customers && request.productId in shop.stocks
    requires !ExistCartItem(t.rows, shop.customers[email], request.productId)
    requires request.quantity <= shop.stocks[request.productId]
    ensures
      var customerId := shop.customers[email];
      var item := CartItem(t.nextId, customerId, request.productId, request.quantity);
      var r := AddCartItem(t, shop, email, request, false);
      && r == Ok(Table(t.rows + [item], t.nextId + 1))
      && FindByCustomerIdAndProductId(r.value.rows, customerId, request.productId) == Some(item)
      && OthersUnchanged(t.rows, r.value.rows, customerId, request.productId)
  {
    var customerId := shop.customers[email];
    var item := CartItem(t.nextId, customerId, request.productId, request.quantity);
    forall c, p ensures FindByCustomerIdAndProductId(t.rows + [item], c, p)
                     == if ExistCartItem(t.rows, c, p) then FindByCustomerIdAndProductId(t.rows, c, p)
                        else if IsItemOf(item, c, p) then Some(item)
                        else None
    {
      FindAfterAppend(t.rows, item, c, p);
    }
  }

  /** A product already in the cart gets no second row: its one row takes the
      Java `int` sum of the old and requested quantities (the exact sum when
      it fits in 32 bits), and nothing else changes. */
  lemma AddExistingProductMergesQuantity(t: Table, shop: Shop, email: string, request: CartAdditionRequest, saveRejected: bool)
    requires email in shop.customers && request.productId in shop.stocks
    requires ExistCartItem(t.rows, shop.customers[email], request.productId)
    requires
      var before := FindByCustomerIdAndProductId(t.rows, shop.customers[email], request.productId).value;
      Add(before.quantity, request.quantity) <= shop.stocks[request.productId]
    ensures
      var customerId := shop.customers[email];
      var before := FindByCustomerIdAndProductId(t.rows, customerId, request.productId).value;
      var r := AddCartItem(t, shop, email, request, saveRejected);
      && r.Ok?
      && r.value.nextId == t.nextId
      && |r.value.rows| == |t.rows|
      && FindByCustomerIdAndProductId(r.value.rows, customerId, request.productId)
           == Some(before.(quantity := Add(before.quantity, request.quantity)))
      && (MIN_VALUE <= before.quantity + request.quantity <= MAX_VALUE ==>
            FindByCustomerIdAndProductId(r.value.rows, customerId, request.productId).value.quantity
              == before.quantity + request.quantity)
      && OthersUnchanged(t.rows, r.value.rows, customerId, request.productId)
      && (UniqueKeys(t.rows) ==> UniqueKeys(r.value.rows))
  {
    var customerId := shop.customers[email];
    var before := FindByCustomerIdAndProductId(t.rows, customerId, request.productId).value;
    var newQuantity := Add(before.quantity, request.quantity);
    forall c, p | !(c == customerId && p == request.productId)
      ensures FindByCustomerIdAndProductId(UpdateQuantity(t.rows, customerId, request.productId, newQuantity), c, p)
           == FindByCustomerIdAndProductId(t.rows, c, p)
    {
      FindAfterUpdate(t.rows, customerId, request.productId, newQuantity, c, p);
    }
  }

  /** How an addition fails: an unknown customer or product first; then the
      stock guard, which fails exactly when the quantity the cart would hold
      exceeds the stock (so a quantity equal to the stock passes); then, for
      a fresh row only, a refused INSERT. */
  lemma AddCartItemFailures(t: Table, shop: Shop, email: string, request: CartAdditionRequest, saveRejected: bool)
    ensures email !in shop.customers ==> AddCartItem(t, shop, email, request, saveRejected) == Err(CustomerNotFound)
    ensures email in shop.customers && request.productId !in shop.stocks ==>
      AddCartItem(t, shop, email, request, saveRejected) == Err(ProductNotFound)
    ensures email in shop.customers && request.productId in shop.stocks ==>
      var stock := shop.stocks[request.productId];
      && ((AddCartItem(t, shop, email, request, saveRejected) == Err(InvalidCartItem(OutOfStock(stock))))
            <==> (stock < ResultingQuantity(t, shop.customers[email], request)))
      && (ResultingQuantity(t, shop.customers[email], request) <= stock ==>
            ((AddCartItem(t, shop, email, request, saveRejected).Err?)
               <==> (saveRejected && !ExistCartItem(t.rows, shop.customers[email], request.productId))))
      && (AddCartItem(t, shop, email, request, saveRejected).Err? ==>
            AddCartItem(t, shop, email, request, saveRejected).error in {InvalidCartItem(OutOfStock(stock)), InvalidProduct})
  {
  }

  /** With the catalogue fixed, a successful addition keeps one row per
      customer and product, unique ids below the counter, and every quantity
      within its product's stock. */
  lemma AddPreservesCartInvariant(t: Table, shop: Shop, email: string, request: CartAdditionRequest, saveRejected: bool)
    requires CartInvariant(t, shop)
    ensures AddCartItem(t, shop, email, request, saveRejected).Ok? ==>
      CartInvariant(AddCartItem(t, shop, email, request, saveRejected).value, shop)
  {
    var r := AddCartItem(t, shop, email, request, saveRejected);
    if r.Ok? {
      var customerId := shop.customers[email];
      if ExistCartItem(t.rows, customerId, request.productId) {
        var before := FindByCustomerIdAndProductId(t.rows, customerId, request.productId).value;
        UpdateKeepsInvariant(t, shop, customerId, request.productId, Add(before.quantity, request.quantity));
      } else {
        AppendKeepsInvariant(t, shop, CartItem(t.nextId, customerId, request.productId, request.quantity));
      }
    }
  }

  /* ---------------------------------------------------------------------
     Update
     --------------------------------------------------------------------- */

  /** How an update fails: an unknown customer or product first; then a
      product not in the cart, whatever the quantity; then the stock guard,
      which fails exactly when the stock is below the requested quantity. */
  lemma UpdateCartItemFailures(t: Table, shop: Shop, email: string, request: CartUpdateRequest)
    ensures email !in shop.customers ==> UpdateCartItem(t, shop, email, request) == Err(CustomerNotFound)
    ensures email in shop.customers && request.productId !in shop.stocks ==>
      UpdateCartItem(t, shop, email, request) == Err(ProductNotFound)
    ensures (email in shop.customers && request.productId in shop.stocks
             && !ExistCartItem(t.rows, shop.customers[email], request.productId)) ==>
      UpdateCartItem(t, shop, email, request) == Err(InvalidCartItem(NotInCart))
    ensures (email in shop.customers && request.productId in shop.stocks
             && ExistCartItem(t.rows, shop.customers[email], request.productId)) ==>
      var stock := shop.stocks[request.productId];
      && (UpdateCartItem(t, shop, email, request).Err? <==> stock < request.quantity)
      && (UpdateCartItem(t, shop, email, request).Err? ==>
            UpdateCartItem(t, shop, email, request).error == InvalidCartItem(OutOfStock(stock)))
  {
  }

  /** A successful update overwrites the quantity, whatever it was, and
      touches no other item. */
  lemma UpdateOverwritesQuantity(t: Table, shop: Shop, email: string, request: CartUpdateRequest)
    requires email in shop.customers && request.productId in shop.stocks
    requires ExistCartItem(t.rows, shop.customers[email], request.productId)
    requires request.quantity <= shop.stocks[request.productId]
    ensures
      var customerId := shop.customers[email];
      var before := FindByCustomerIdAndProductId(t.rows, customerId, request.productId).value;
      var r := UpdateCartItem(t, shop, email, request);
      && r.Ok?
      && r.value.nextId == t.nextId
      && |r.value.rows| == |t.rows|
      && FindByCustomerIdAndProductId(r.value.rows, customerId, request.productId)
           == Some(before.(quantity := request.quantity))
      && OthersUnchanged(t.rows, r.value.rows, customerId, request.productId)
  {
    var customerId := shop.customers[email];
    forall c, p
      ensures FindByCustomerIdAndProductId(UpdateQuantity(t.rows, customerId, request.productId, request.quantity), c, p)
           == if c == customerId && p == request.productId then
                match FindByCustomerIdAndProductId(t.rows, c, p)
                case Some(item) => Some(item.(quantity := request.quantity))
                case None => None
              else FindByCustomerIdAndProductId(t.rows, c, p)
    {
      FindAfterUpdate(t.rows, customerId, request.productId, request.quantity, c, p);
    }
  }

  /** Applying the same update twice leaves the table as applying it once. */
  lemma UpdateIsIdempotent(t: Table, shop: Shop, email: string, request: CartUpdateRequest)
    requires UpdateCartItem(t, shop, email, request).Ok?
    ensures
      var once := UpdateCartItem(t, shop, email, request).value;
      UpdateCartItem(once, shop, email, request) == Ok(once)
  {
    var customerId := shop.customers[email];
    var once := UpdateCartItem(t, shop, email, request).value;
    var twice := UpdateQuantity(once.rows, customerId, request.productId, request.quantity);
    assert twice == once.rows by {
      forall i | 0 <= i < |twice| ensures twice[i] == once.rows[i] {
      }
    }
  }

  /** With the catalogue fixed, a successful update keeps the invariant. */
  lemma UpdatePreservesCartInvariant(t: Table, shop: Shop, email: string, request: CartUpdateRequest)
    requires CartInvariant(t, shop)
    ensures UpdateCartItem(t, shop, email, request).Ok? ==>
      CartInvariant(UpdateCartItem(t, shop, email, request).value, shop)
  {
    if UpdateCartItem(t, shop, email, request).Ok? {
      UpdateKeepsInvariant(t, shop, shop.customers[email], request.productId, request.quantity);
    }
  }

  /* ---------------------------------------------------------------------
     Delete
     --------------------------------------------------------------------- */

  /** Looking the product up among the customer's listed rows finds the id
      of the row with that customer and product. */
  lemma {:induction false} FindCartIdInListing(rows: seq<CartItem>, customerId: CustomerId, productId: ProductId)
    ensures FindCartId(FindAllByCustomerId(rows, customerId), productId)
         == match FindByCustomerIdAndProductId(rows, customerId, productId)
            case Some(item) => Ok(item.id)
            case None => Err(NotInCustomerCartItem)
  {
    if |rows| > 0 {
      FindCartIdInListing(rows[1..], customerId, productId);
    }
  }

  /** How a deletion fails: an unknown customer, or a product that is not
      among the customer's items. */
  lemma DeleteCartItemFailures(t: Table, shop: Shop, email: string, productId: ProductId)
    ensures email !in shop.customers ==> DeleteCartItem(t, shop, email, productId) == Err(CustomerNotFound)
    ensures email in shop.customers ==>
      ((DeleteCartItem(t, shop, email, productId) == Err(NotInCustomerCartItem))
         <==> !ExistCartItem(t.rows, shop.customers[email], productId))
  {
  }

  /** Deleting removes exactly the customer's row for the product, and every
      other row remains. */
  lemma DeleteRemovesExactlyTheItem(t: Table, shop: Shop, email: string, productId: ProductId)
    requires Valid(t)
    requires email in shop.customers
    requires ExistCartItem(t.rows, shop.customers[email], productId)
    ensures
      var customerId := shop.customers[email];
      var item := FindByCustomerIdAndProductId(t.rows, customerId, productId).value;
      var r := DeleteCartItem(t, shop, email, productId);
      && r.Ok?
      && r.value.nextId == t.nextId
      && |r.value.rows| == |t.rows| - 1
      && (exists i | 0 <= i < |t.rows| && t.rows[i] == item :: r.value.rows == t.rows[..i] + t.rows[i + 1..])
      && (forall x :: x in r.value.rows <==> x in t.rows && x != item)
      && !ExistCartItem(r.value.rows, customerId, productId)
      && OthersUnchanged(t.rows, r.value.rows, customerId, productId)
  {
    var customerId := shop.customers[email];
    var item := FindByCustomerIdAndProductId(t.rows, customerId, productId).value;
    FindCartIdInListing(t.rows, customerId, productId);
    var i :| 0 <= i < |t.rows| && t.rows[i] == item;
    DeleteUniqueId(t.rows, i);
    DeleteKeepsOtherRows(t.rows, i);
    DeleteRemovesKey(t.rows, i);
    DeleteKeepsOtherKeys(t.rows, i);
  }

  /** With unique ids, deleting row i's id keeps every row except row i. */
  lemma DeleteKeepsOtherRows(rows: seq<CartItem>, i: nat)
    requires UniqueIds(rows)
    requires i < |rows|
    ensures forall x :: x in DeleteById(rows, rows[i].id) <==> x in rows && x != rows[i]
  {
  }

  /** With unique keys, deleting row i's id leaves no row with row i's key. */
  lemma DeleteRemovesKey(rows: seq<CartItem>, i: nat)
    requires UniqueKeys(rows)
    requires i < |rows|
    ensures !ExistCartItem(DeleteById(rows, rows[i].id), rows[i].customerId, rows[i].productId)
  {
  }

  /** Deleting row i's id leaves every other key finding what it found before. */
  lemma DeleteKeepsOtherKeys(rows: seq<CartItem>, i: nat)
    requires UniqueIds(rows)
    requires i < |rows|
    ensures OthersUnchanged(rows, DeleteById(rows, rows[i].id), rows[i].customerId, rows[i].productId)
  {
    var item := rows[i];
    forall c, p | !(c == item.customerId && p == item.productId)
      ensures FindByCustomerIdAndProductId(DeleteById(rows, item.id), c, p) == FindByCustomerIdAndProductId(rows, c, p)
    {
      var o := FindByCustomerIdAndProductId(rows, c, p);
      if o.Some? {
        var k :| 0 <= k < |rows| && rows[k] == o.value;
        assert k != i;
      }
      FindAfterDelete(rows, item.id, c, p);
    }
  }

  /** With the catalogue fixed, a successful deletion keeps the invariant. */
  lemma DeletePreservesCartInvariant(t: Table, shop: Shop, email: string, productId: ProductId)
    requires CartInvariant(t, shop)
    ensures DeleteCartItem(t, shop, email, productId).Ok? ==>
      CartInvariant(DeleteCartItem(t, shop, email, productId).value, shop)
  {
    if DeleteCartItem(t, shop, email, productId).Ok? {
      var customerId := shop.customers[email];
      FindCartIdInListing(t.rows, customerId, productId);
      var item := FindByCustomerIdAndProductId(t.rows, customerId, productId).value;
      var i :| 0 <= i < |t.rows| && t.rows[i] == item;
      DeleteUniqueId(t.rows, i);
      RemoveKeepsInvariant(t, shop, i);
    }
  }

  /** Adding a product the cart did not hold and then deleting it gives back
      the rows as they were; only the id counter has moved on. */
  lemma AddThenDeleteRestoresRows(t: Table, shop: Shop, email: string, request: CartAdditionRequest)
    requires Valid(t)
    requires email in shop.customers && request.productId in shop.stocks
    requires !ExistCartItem(t.rows, shop.customers[email], request.productId)
    requires request.quantity <= shop.stocks[request.productId]
    ensures
      var added := AddCartItem(t, shop, email, request, false);
      && added.Ok?
      && DeleteCartItem(added.value, shop, email, request.productId) == Ok(Table(t.rows, t.nextId + 1))
  {
    var customerId := shop.customers[email];
    var item := CartItem(t.nextId, customerId, request.productId, request.quantity);
    var rows := t.rows + [item];
    AddNewProductInsertsOneItem(t, shop, email, request);
    FindCartIdInListing(rows, customerId, request.productId);
    assert FindCartId(FindAllByCustomerId(rows, customerId), request.productId) == Ok(t.nextId);
    DeleteAppendedRow(t.rows, item);
  }

  /* ---------------------------------------------------------------------
     List
     --------------------------------------------------------------------- */

  /** A newly inserted item is listed last, after the customer's earlier
      items in their existing order. */
  lemma ListingAfterAddNewProduct(t: Table, shop: Shop, email: string, request: CartAdditionRequest)
    requires email in shop.customers && request.productId in shop.stocks
    requires !ExistCartItem(t.rows, shop.customers[email], request.productId)
    requires request.quantity <= shop.stocks[request.productId]
    ensures
      var customerId := shop.customers[email];
      var added := AddCartItem(t, shop, email, request, false);
      && added.Ok?
      && FindCartItemsByEmail(added.value, shop, email)
           == Ok(FindAllByCustomerId(t.rows, customerId) + [CartItem(t.nextId, customerId, request.productId, request.quantity)])
  {
    var customerId := shop.customers[email];
    var item := CartItem(t.nextId, customerId, request.productId, request.quantity);
    AddNewProductInsertsOneItem(t, shop, email, request);
    ListingAfterAppend(t.rows, item, customerId);
  }

  /* ---------------------------------------------------------------------
     The invariant under each kind of write
     --------------------------------------------------------------------- */

  /** Appending a row with a fresh key, the next id and a quantity within stock keeps the invariant. */
  lemma AppendKeepsInvariant(t: Table, shop: Shop, item: CartItem)
    requires CartInvariant(t, shop)
    requires !ExistCartItem(t.rows, item.customerId, item.productId)
    requires item.id == t.nextId
    requires item.productId in shop.stocks ==> item.quantity <= shop.stocks[item.productId]
    ensures CartInvariant(Table(t.rows + [item], t.nextId + 1), shop)
  {
    var rows := t.rows + [item];
    forall i | 0 <= i < |t.rows| ensures !IsItemOf(item, t.rows[i].customerId, t.rows[i].productId) {
      assert t.rows[i] in t.rows;
    }
    assert UniqueKeys(rows) by {
      forall i, j | 0 <= i < j < |rows| ensures !IsItemOf(rows[j], rows[i].customerId, rows[i].productId) {
        if j < |t.rows| {
          assert rows[i] == t.rows[i] && rows[j] == t.rows[j];
        }
      }
    }
  }

  /** Setting one key's quantity to a value within its stock keeps the invariant. */
  lemma UpdateKeepsInvariant(t: Table, shop: Shop, customerId: CustomerId, productId: ProductId, quantity: Int32)
    requires CartInvariant(t, shop)
    requires productId in shop.stocks ==> quantity <= shop.stocks[productId]
    ensures CartInvariant(t.(rows := UpdateQuantity(t.rows, customerId, productId, quantity)), shop)
  {
  }

  /** Removing one row keeps the invariant. */
  lemma RemoveKeepsInvariant(t: Table, shop: Shop, i: nat)
    requires CartInvariant(t, shop)
    requires i < |t.rows|
    ensures CartInvariant(Table(t.rows[..i] + t.rows[i + 1..], t.nextId), shop)
  {
  }
}
