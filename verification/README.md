# Shopping-cart service model

A Dafny model of the cart logic in the `CartService` of a small Spring
shopping-cart backend. The service keeps, per customer, a cart of items in a
`cart_item` table. Each row has a cart id, a customer id, a product id and an
`int` quantity. The service offers four operations:

- **add** (`addCartItem`): a product already in the cart has the requested
  quantity merged into its row. Any other product is inserted as a new row.
  Both paths first check the resulting quantity against the product's stock.
- **update** (`updateCartItem`): the product must already be in the cart. Its
  quantity is then overwritten, after the same stock check.
- **delete** (`deleteCartItem`): the product is looked up among the
  customer's items, and the row with that cart id is removed.
- **list** (`findCartsByEmail`): each of the customer's rows becomes a
  (product, quantity) line.

The model is functional. The table is a value (`CartItemDao.Table`): its rows
in store order, plus the next value of the auto-increment id. The customer
directory and the product catalogue are read-only maps
(`Catalog.Shop`). Each operation is a pure function that returns
`Result<Table, CartError>`. An operation that throws in Java returns `Err`
in the model. `Err` carries no table, so the caller keeps the table it had.
That is the model's form of the `@Transactional` rollback. Every guard runs
before the one write, so nothing needs undoing.

Modules:

- `Results`: `Option`, `Result` and `Outcome`, usable with `:-`.
- `JavaInt`: Java's 32-bit `int` and its wrap-around addition.
- `Exceptions`: one constructor per exception the service throws.
- `CartItemDao`: the table, the queries the service issues against it, and the
  table invariant. The invariant is `Valid`: one row per (customer, product),
  unique ids, and every id below the counter.
- `Catalog`: the customer lookup by email and the product lookup by id.
- `CartService`: the four operations and their private helpers.
- `CartProperties`: what the operations promise, and the invariant
  `CartInvariant` (`Valid` plus every quantity within its product's stock)
  that each successful operation preserves.

Java `int` arithmetic: the merged quantity `old + requested` is computed with
wrap-around (`JavaInt.Add`), as in the source. The stock guard compares the
wrapped value, so the bound "quantity ≤ stock" still holds after an overflow.
The statement "the new quantity is old + requested" holds only when the sum
fits in 32 bits, and `CartProperties.AddExistingProductMergesQuantity` states
it only for that case. Whether an overflowing request can arrive at all
depends on the request DTO's validation, which is not part of this model.

The DAO class itself is not part of this model. Its queries are modelled from
the SQL meaning their names imply, and from the DAO test. The DAO test calls
`addCartItem`, `updateCartItem` and `deleteCartItem`, but the service calls
`save`, `updateQuantity` and `delete`. The model follows the service's calls
and cites the test for the behaviour each query has.

## Model

| member | source | states |
|---|---|---|
| `JavaInt.Add` | src/main/java/woowacourse/shoppingcart/application/CartService.java:63 | `old + requested` on Java `int`s: the exact sum when it fits in 32 bits, otherwise the sum shifted by 2^32 into range |
| `Catalog.FindIdByEmail` | src/main/java/woowacourse/shoppingcart/application/CartService.java:46 | succeeds exactly when the email is registered, yielding that customer's id; otherwise fails with CustomerNotFound |
| `Catalog.FindById` | src/main/java/woowacourse/shoppingcart/application/CartService.java:47 | succeeds exactly when the product id is in the catalogue, yielding a product with that id and its stock; otherwise fails with ProductNotFound |
| `CartItemDao.FindByCustomerIdAndProductId` | src/test/java/woowacourse/shoppingcart/dao/CartItemDaoTest.java:69-83 | a found row is in the table and has the customer and product asked for; nothing is found exactly when no row has that key |
| `CartItemDao.ExistCartItem` | src/test/java/woowacourse/shoppingcart/dao/CartItemDaoTest.java:100-105 | true exactly when some row has the given customer and product |
| `CartItemDao.FindAllByCustomerId` | src/test/java/woowacourse/shoppingcart/dao/CartItemDaoTest.java:49-67 | a row is listed exactly when it is in the table and belongs to the customer; the listing is never longer than the table (counts and order are stated by the two lemmas below) |
| `CartItemDao.ListingCountsRows` | src/test/java/woowacourse/shoppingcart/dao/CartItemDaoTest.java:56-66 | the listing holds each of the customer's rows exactly as many times as the table does, and no other row: one entry per stored row |
| `CartItemDao.ListingOfConcat` | src/test/java/woowacourse/shoppingcart/dao/CartItemDaoTest.java:49-67 | store order: the listing of a table cut in two is the listing of the front followed by the listing of the back |
| `CartItemDao.UpdateQuantity` | src/test/java/woowacourse/shoppingcart/dao/CartItemDaoTest.java:119-133 | same number of rows, ids and keys unchanged; rows with the key take the new quantity and all others keep theirs |
| `CartItemDao.FindAfterUpdate` | src/test/java/woowacourse/shoppingcart/dao/CartItemDaoTest.java:127-132 | after the update, looking up the updated key finds its row with the new quantity, and every other key finds what it found before |
| `CartItemDao.DeleteById` | src/test/java/woowacourse/shoppingcart/dao/CartItemDaoTest.java:135-150 | the remaining rows are exactly those with a different id; the table shrinks when some row had the id |
| `CartItemDao.DeleteUniqueId` | src/test/java/woowacourse/shoppingcart/dao/CartItemDaoTest.java:142-149 | with unique ids, deleting the id of row i removes exactly row i and keeps the others in order |
| `CartService.AddQuantity` | src/main/java/woowacourse/shoppingcart/application/CartService.java:61-66 | succeeds exactly when the `int` sum of the old and requested quantities is within stock; then the row holds that sum, no row is added and the id counter is unchanged |
| `CartService.AddCartItem` | src/main/java/woowacourse/shoppingcart/application/CartService.java:44-59 | success needs a known customer and product, and leaves the customer's row for the product present with a quantity within stock |
| `CartService.UpdateCartItem` | src/main/java/woowacourse/shoppingcart/application/CartService.java:68-77 | success needs a known customer and product; it adds no row and leaves the product's row holding exactly the requested quantity |
| `CartService.FindCartItemsByEmail` | src/main/java/woowacourse/shoppingcart/application/CartService.java:97-100 | succeeds exactly for a registered email, yielding exactly the table's listing of that customer's rows, one per row in store order |
| `CartService.FindCartId` | src/main/java/woowacourse/shoppingcart/application/CartService.java:102-108 | succeeds exactly when some listed item holds the product, yielding that item's cart id; otherwise fails with NotInCustomerCartItem |
| `CartService.DeleteCartItem` | src/main/java/woowacourse/shoppingcart/application/CartService.java:91-95 | success needs a known customer whose cart holds the product, and leaves strictly fewer rows and the same id counter |
| `CartService.FindCartsByEmail` | src/main/java/woowacourse/shoppingcart/application/CartService.java:33-42 | unknown email fails with CustomerNotFound; otherwise it succeeds exactly when every listed row's product exists, and then returns one line per row, in listing order, with that row's product and unchanged quantity; else ProductNotFound |
| `CartProperties.AddNewProductInsertsOneItem` | src/main/java/woowacourse/shoppingcart/application/CartService.java:45-59 | adding a product not in the cart, within stock, appends exactly one row under the next id with the requested quantity; every other key is unaffected |
| `CartProperties.AddExistingProductMergesQuantity` | src/main/java/woowacourse/shoppingcart/application/CartService.java:49-66 | adding a product already in the cart adds no row and keeps one row per key; the row's quantity becomes old + requested (Java `int` sum); every other key is unaffected |
| `CartProperties.AddCartItemFailures` | src/main/java/woowacourse/shoppingcart/application/CartService.java:45-89 | errors in order: unknown customer, unknown product, then OutOfStock exactly when the resulting quantity exceeds the stock (equal passes); otherwise only a refused insert of a fresh row fails |
| `CartProperties.AddPreservesCartInvariant` | src/main/java/woowacourse/shoppingcart/application/CartService.java:49-66 | a successful add keeps one row per (customer, product), unique ids below the counter, and every quantity within stock |
| `CartProperties.UpdateCartItemFailures` | src/main/java/woowacourse/shoppingcart/application/CartService.java:69-89 | errors in order: unknown customer, unknown product, NotInCart whatever the quantity, then OutOfStock exactly when stock < requested quantity |
| `CartProperties.UpdateOverwritesQuantity` | src/main/java/woowacourse/shoppingcart/application/CartService.java:73-76 | an update of an item in the cart, within stock, succeeds and sets the quantity to the requested value, not old + requested; no row added; every other key unaffected |
| `CartProperties.UpdateIsIdempotent` | src/main/java/woowacourse/shoppingcart/application/CartService.java:69-77 | applying a successful update a second time succeeds and leaves the table as the first application did |
| `CartProperties.UpdatePreservesCartInvariant` | src/main/java/woowacourse/shoppingcart/application/CartService.java:73-76 | a successful update keeps the table invariant and every quantity within stock |
| `CartProperties.FindCartIdInListing` | src/main/java/woowacourse/shoppingcart/application/CartService.java:93-108 | searching the customer's listing for the product yields the cart id of the customer's row for that product, or NotInCustomerCartItem when there is none |
| `CartProperties.DeleteCartItemFailures` | src/main/java/woowacourse/shoppingcart/application/CartService.java:92-108 | unknown email fails with CustomerNotFound; otherwise NotInCustomerCartItem exactly when the customer's cart lacks the product |
| `CartProperties.DeleteRemovesExactlyTheItem` | src/main/java/woowacourse/shoppingcart/application/CartService.java:92-95 | deleting a product in the cart removes exactly that row: the table becomes the rows before it followed by the rows after it, every other row remains, the key is gone, every other key unaffected |
| `CartProperties.DeletePreservesCartInvariant` | src/main/java/woowacourse/shoppingcart/application/CartService.java:92-95 | a successful delete keeps the table invariant and every quantity within stock |
| `CartProperties.AddThenDeleteRestoresRows` | src/main/java/woowacourse/shoppingcart/application/CartService.java:53-95 | inserting a new product and then deleting it restores the rows; only the id counter has advanced |
| `CartProperties.ListingAfterAddNewProduct` | src/main/java/woowacourse/shoppingcart/application/CartService.java:33-59 | after a fresh insert, the customer's listing is the old listing, in order, followed by the new row |

## Left out

- HTTP controllers, interceptor configuration, the authentication service and JWT handling: routing and token checks happen outside the cart logic.
- The customer service's sign-up and email check: a pass-through to the customer DAO.
- `PageRequest`: it holds only validation annotations, which the framework enforces.
- SQL and the DAOs: the table is the abstract `Table` value. The product service and the customer DAO are partial map lookups. Their exception classes are not part of this model, so their failures are named `ProductNotFound` and `CustomerNotFound`.
- Ids as Java `Long`: customer, product and cart ids are natural numbers in the model, so a negative or null product id in a request cannot be expressed. In the source such an id can only fail to match: the product lookup finds no product, and the search of the customer's items finds no item whose product id equals it.
- `Email` value-object validation: the email is used as a plain map key.
- The database exception caught around the INSERT: the database's verdict is a boolean parameter, `saveRejected`, because its causes lie outside the model.
- Product fields other than id and stock: the listing carries them unchanged, and no cart rule reads them.
- The exception messages: `OutOfStock` keeps the stock the message quotes, and the message text itself is not modelled.
- Concurrency and isolation between transactions: each operation is modelled as one atomic step.
- CartService.FindCartId: the contract does not say that the first matching item is taken. `CartProperties.FindCartIdInListing` states this for the customer's listing, where at most one item matches under `Valid`.
