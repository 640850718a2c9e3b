/** The exceptions the cart operations throw, one constructor per exception
    class; `InvalidCartItem` carries which of its two messages was used. */
module Exceptions {

  import opened JavaInt

  datatype InvalidCartItemReason =
    | NotInCart               // the product is not in the customer's cart
    | OutOfStock(stock: Int32) // not enough stock; the message quotes the current stock

  datatype CartError =
    | CustomerNotFound        // no customer has the given email
    | ProductNotFound         // no product has the given id
    | InvalidCartItem(reason: InvalidCartItemReason)
    | InvalidProduct          // the insert of a new cart row was refused by the database
    | NotInCustomerCartItem   // delete: the product is not among the customer's items
}
