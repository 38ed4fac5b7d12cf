/** The shopping cart a discount rule is evaluated against. */
module Carts {
  import opened Literals

  /** `ShoppingCart`: total value, item count, customer category and whether
      this is the customer's first purchase. The model never changes a cart;
      rule evaluation only reads it. */
  datatype Cart = Cart(
    totalValue: Decimal,
    itemQuantity: Int32,
    customerCategory: string,
    isFirstPurchase: bool)
}
