/** The `cart_item` table behind the cart-item data-access object, as an
    abstract store: its rows in store order and the next value of the
    auto-increment id column. Each query the cart service issues is a pure
    function over the rows. */
module CartItemDao {

  import opened JavaInt
  import opened Results

  type CustomerId = nat
  type ProductId = nat
  type CartId = nat

  datatype CartItem = CartItem(id: CartId, customerId: CustomerId, productId: ProductId, quantity: Int32)

  datatype Table = Table(rows: seq<CartItem>, nextId: CartId)

  /** The row key: which customer's cart, which product. */
  predicate IsItemOf(item: CartItem, customerId: CustomerId, productId: ProductId) {
    item.customerId == customerId && item.productId == productId
  }

  /* ---------------------------------------------------------------------
     Table invariant
     --------------------------------------------------------------------- */

  /** At most one row per (customer, product). */
  ghost predicate UniqueKeys(rows: seq<CartItem>) {
    forall i, j | 0 <= i < j < |rows| ::
      !IsItemOf(rows[j], rows[i].customerId, rows[i].productId)
  }

  /** The id column is a primary key. */
  ghost predicate UniqueIds(rows: seq<CartItem>) {
    forall i, j | 0 <= i < j < |rows| :: rows[i].id != rows[j].id
  }

  /** Every id handed out so far is below the auto-increment counter. */
  ghost predicate IdsBelow(rows: seq<CartItem>, bound: CartId) {
    forall i | 0 <= i < |rows| :: rows[i].id < bound
  }

  ghost predicate Valid(t: Table) {
    UniqueKeys(t.rows) && UniqueIds(t.rows) && IdsBelow(t.rows, t.nextId)
  }

  /* ---------------------------------------------------------------------
     Queries
     --------------------------------------------------------------------- */

  /** The row of `customerId`'s cart holding `productId`, if any (the first
      one in store order; under `UniqueKeys` it is the only one). */
  function FindByCustomerIdAndProductId(rows: seq<CartItem>, customerId: CustomerId, productId: ProductId): (o: Option<CartItem>)
    ensures o.Some? ==> o.value in rows && IsItemOf(o.value, customerId, productId)
    ensures o.None? <==> forall item | item in rows :: !IsItemOf(item, customerId, productId)
  {
    if |rows| == 0 then None
    else if IsItemOf(rows[0], customerId, productId) then Some(rows[0])
    else FindByCustomerIdAndProductId(rows[1..], customerId, productId)
  }

  /** Whether the customer's cart already holds the product. */
  function ExistCartItem(rows: seq<CartItem>, customerId: CustomerId, productId: ProductId): (b: bool)
    ensures b <==> exists item | item in rows :: IsItemOf(item, customerId, productId)
  {
    FindByCustomerIdAndProductId(rows, customerId, productId).Some?
  }

  /** The customer's rows, in store order. */
  function FindAllByCustomerId(rows: seq<CartItem>, customerId: CustomerId): (items: seq<CartItem>)
    ensures forall item :: item in items <==> item in rows && item.customerId == customerId
    ensures |items| <= |rows|
  {
    if |rows| == 0 then []
    else if rows[0].customerId == customerId then [rows[0]] + FindAllByCustomerId(rows[1..], customerId)
    else FindAllByCustomerId(rows[1..], customerId)
  }

  /* ---------------------------------------------------------------------
     Writes
     --------------------------------------------------------------------- */

  /** INSERT of a new row; the id is taken from the auto-increment counter. */
  function Save(t: Table, customerId: CustomerId, productId: ProductId, quantity: Int32): Table {
    Table(t.rows + [CartItem(t.nextId, customerId, productId, quantity)], t.nextId + 1)
  }

  /** UPDATE of the quantity of every row with the given key. */
  function UpdateQuantity(rows: seq<CartItem>, customerId: CustomerId, productId: ProductId, quantity: Int32): (r: seq<CartItem>)
    ensures |r| == |rows|
    ensures forall i | 0 <= i < |rows| ::
      && r[i].id == rows[i].id
      && r[i].customerId == rows[i].customerId
      && r[i].productId == rows[i].productId
      && r[i].quantity == (if IsItemOf(rows[i], customerId, productId) then quantity else rows[i].quantity)
  {
    if |rows| == 0 then []
    else
      var head := if IsItemOf(rows[0], customerId, productId) then rows[0].(quantity := quantity) else rows[0];
      [head] + UpdateQuantity(rows[1..], customerId, productId, quantity)
  }

  /** DELETE of the rows with the given id. */
  function DeleteById(rows: seq<CartItem>, id: CartId): (r: seq<CartItem>)
    ensures forall item :: item in r <==> item in rows && item.id != id
    ensures |r| <= |rows|
    ensures (exists item | item in rows :: item.id == id) ==> |r| < |rows|
  {
    if |rows| == 0 then []
    else if rows[0].id == id then DeleteById(rows[1..], id)
    else [rows[0]] + DeleteById(rows[1..], id)
  }

  /* ---------------------------------------------------------------------
     Facts about the queries after each write
     --------------------------------------------------------------------- */

  /** Under `UniqueKeys`, the found row is the one row with that key. */
  lemma {:induction false} FindIsTheOnlyMatch(rows: seq<CartItem>, i: nat)
    requires UniqueKeys(rows)
    requires i < |rows|
    ensures FindByCustomerIdAndProductId(rows, rows[i].customerId, rows[i].productId) == Some(rows[i])
  {
    if i > 0 {
      assert !IsItemOf(rows[i], rows[0].customerId, rows[0].productId);
      assert UniqueKeys(rows[1..]) by {
        forall a, b | 0 <= a < b < |rows[1..]|
          ensures !IsItemOf(rows[1..][b], rows[1..][a].customerId, rows[1..][a].productId)
        {
          assert rows[1..][a] == rows[a + 1] && rows[1..][b] == rows[b + 1];
        }
      }
      FindIsTheOnlyMatch(rows[1..], i - 1);
    }
  }

  /** An appended row is found only when no earlier row has its key. */
  lemma {:induction false} FindAfterAppend(rows: seq<CartItem>, item: CartItem, customerId: CustomerId, productId: ProductId)
    ensures FindByCustomerIdAndProductId(rows + [item], customerId, productId)
         == if ExistCartItem(rows, customerId, productId) then FindByCustomerIdAndProductId(rows, customerId, productId)
            else if IsItemOf(item, customerId, productId) then Some(item)
            else None
  {
    if |rows| > 0 {
      assert (rows + [item])[1..] == rows[1..] + [item];
      FindAfterAppend(rows[1..], item, customerId, productId);
    }
  }

  /** After an UPDATE of one key, that key's row carries the new quantity and
      every other key finds what it found before. */
  lemma {:induction false} FindAfterUpdate(rows: seq<CartItem>, customerId: CustomerId, productId: ProductId, quantity: Int32,
                                           c: CustomerId, p: ProductId)
    ensures FindByCustomerIdAndProductId(UpdateQuantity(rows, customerId, productId, quantity), c, p)
         == if c == customerId && p == productId then
              match FindByCustomerIdAndProductId(rows, c, p)
              case Some(item) => Some(item.(quantity := quantity))
              case None => None
            else FindByCustomerIdAndProductId(rows, c, p)
  {
    if |rows| > 0 {
      FindAfterUpdate(rows[1..], customerId, productId, quantity, c, p);
    }
  }

  /** A DELETE by id leaves every key whose row has another id untouched. */
  lemma {:induction false} FindAfterDelete(rows: seq<CartItem>, id: CartId, c: CustomerId, p: ProductId)
    requires var o := FindByCustomerIdAndProductId(rows, c, p); o.None? || o.value.id != id
    ensures FindByCustomerIdAndProductId(DeleteById(rows, id), c, p) == FindByCustomerIdAndProductId(rows, c, p)
  {
    if |rows| > 0 && !IsItemOf(rows[0], c, p) {
      FindAfterDelete(rows[1..], id, c, p);
    }
  }

  /** Deleting an id no row carries changes nothing. */
  lemma {:induction false} DeleteAbsentId(rows: seq<CartItem>, id: CartId)
    requires forall i | 0 <= i < |rows| :: rows[i].id != id
    ensures DeleteById(rows, id) == rows
  {
    if |rows| > 0 {
      DeleteAbsentId(rows[1..], id);
    }
  }

  /** Deleting the id of a row just appended under a fresh id removes it again. */
  lemma {:induction false} DeleteAppendedRow(rows: seq<CartItem>, item: CartItem)
    requires IdsBelow(rows, item.id)
    ensures DeleteById(rows + [item], item.id) == rows
  {
    var all := rows + [item];
    if |rows| > 0 {
      assert all[0] == rows[0] && all[1..] == rows[1..] + [item];
      assert rows[0].id < item.id;
      assert IdsBelow(rows[1..], item.id) by {
        forall k | 0 <= k < |rows[1..]| ensures rows[1..][k].id < item.id {
          assert rows[1..][k] == rows[k + 1];
        }
      }
      DeleteAppendedRow(rows[1..], item);
      assert DeleteById(all, item.id) == [rows[0]] + DeleteById(all[1..], item.id);
      assert rows == [rows[0]] + rows[1..];
    } else {
      assert all[1..] == [];
      assert DeleteById(all, item.id) == DeleteById(all[1..], item.id);
    }
  }

  /** Dropping the first row keeps the ids unique. */
  lemma UniqueIdsTail(rows: seq<CartItem>)
    requires UniqueIds(rows) && |rows| > 0
    ensures UniqueIds(rows[1..])
  {
  }

  /** Under `UniqueIds`, deleting the id of row `i` removes exactly row `i`. */
  lemma {:induction false} DeleteUniqueId(rows: seq<CartItem>, i: nat)
    requires UniqueIds(rows)
    requires i < |rows|
    ensures DeleteById(rows, rows[i].id) == rows[..i] + rows[i + 1..]
  {
    var id := rows[i].id;
    if i == 0 {
      DeleteAbsentId(rows[1..], id);
    } else {
      assert rows[0].id != id;
      UniqueIdsTail(rows);
      DeleteUniqueId(rows[1..], i - 1);
      assert rows[1..][i - 1] == rows[i];
      assert [rows[0]] + (rows[1..][..i - 1] + rows[1..][i..]) == rows[..i] + rows[i + 1..] by {
        assert rows[1..][..i - 1] == rows[1..i];
        assert rows[1..][i..] == rows[i + 1..];
        assert [rows[0]] + rows[1..i] == rows[..i];
      }
    }
  }

  /** The listing holds each of the customer's rows as many times as the
      table does, and no other row: one entry per stored row. */
  lemma {:induction false} ListingCountsRows(rows: seq<CartItem>, customerId: CustomerId)
    ensures forall item :: multiset(FindAllByCustomerId(rows, customerId))[item]
                        == if item.customerId == customerId then multiset(rows)[item] else 0
  {
    if |rows| > 0 {
      assert rows == [rows[0]] + rows[1..];
      ListingCountsRows(rows[1..], customerId);
    }
  }

  /** Store order: the listing of a table cut in two is the listing of the
      front followed by the listing of the back. */
  lemma {:induction false} ListingOfConcat(front: seq<CartItem>, back: seq<CartItem>, customerId: CustomerId)
    ensures FindAllByCustomerId(front + back, customerId)
         == FindAllByCustomerId(front, customerId) + FindAllByCustomerId(back, customerId)
  {
    if |front| > 0 {
      var rows := front + back;
      assert rows[0] == front[0] && rows[1..] == front[1..] + back;
      ListingOfConcat(front[1..], back, customerId);
      if front[0].customerId == customerId {
        assert FindAllByCustomerId(rows, customerId) == [rows[0]] + FindAllByCustomerId(rows[1..], customerId);
        assert FindAllByCustomerId(front, customerId) == [front[0]] + FindAllByCustomerId(front[1..], customerId);
      } else {
        assert FindAllByCustomerId(rows, customerId) == FindAllByCustomerId(rows[1..], customerId);
        assert FindAllByCustomerId(front, customerId) == FindAllByCustomerId(front[1..], customerId);
      }
    } else {
      assert front + back == back;
    }
  }

  /** The listing of a customer grows at its end when a row is appended. */
  lemma ListingAfterAppend(rows: seq<CartItem>, item: CartItem, customerId: CustomerId)
    ensures FindAllByCustomerId(rows + [item], customerId)
         == FindAllByCustomerId(rows, customerId) + (if item.customerId == customerId then [item] else [])
  {
    ListingOfConcat(rows, [item], customerId);
    assert FindAllByCustomerId([item], customerId) == (if item.customerId == customerId then [item] else []) by {
      assert [item][1..] == [];
    }
  }
}
