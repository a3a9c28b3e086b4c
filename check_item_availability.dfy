/** The handler that looks a requested item up on the menu and, when found, adds it to the cart. */
module CheckItemAvailability {
  import opened Wrappers
  import opened Decimal
  import opened OrderCart

  /** The cart a request starts from: its `order_cart` parameter, or empty when it has none. */
  function StartingCart(parameters: SessionParameters): (cart: seq<CartEntry>)
    ensures parameters.orderCart.None? ==> cart == []
    ensures parameters.orderCart.Some? ==> cart == parameters.orderCart.value
  {
    if parameters.orderCart.Some? then parameters.orderCart.value else []
  }

  /**
   * How a menu price prints. The price column holds floating-point values, and
   * a whole-valued float prints with a trailing `.0` (250 prints as `250.0`).
   */
  function PriceText(price: int): string
  {
    IntToString(price) + ".0"
  }

  /**
   * `check_item_availabilty`. `dbPrice` is the menu lookup of the requested
   * item: its price, or None when the menu has no such item.
   */
  method CheckItemAvailability(parameters: SessionParameters, dbPrice: Option<int>)
    returns (r: Result<WebhookResponse, HandlerError>)
    ensures parameters.foodItem.None? ==> r == Failure(MissingParameter("food_item"))
    ensures parameters.foodItem.Some? && parameters.quantity.None? ==> r == Failure(MissingParameter("quantity"))
    ensures r.Success? <==> parameters.foodItem.Some? && parameters.quantity.Some?
    ensures r.Success? && dbPrice.Some? ==>
              var foodItem := parameters.foodItem.value;
              && r.value.orderCart ==
                 Some(StartingCart(parameters) + [CartEntry(foodItem, parameters.quantity.value, dbPrice.value)])
              && r.value.targetPage.None?
              && r.value.messages == [
                   "We have " + foodItem + ", it costs " + PriceText(dbPrice.value) + ".",
                   "It is added to you cart.",
                   "Do you want to add another item?"]
    ensures r.Success? && dbPrice.None? ==>
              && r.value.orderCart.None?
              && r.value.targetPage == Some(MENU_PAGE)
              && r.value.messages == [
                   "We don't have " + parameters.foodItem.value + ".",
                   "Here is our menu for your reference: menu link"]
  {
    if parameters.foodItem.None? {
      return Failure(MissingParameter("food_item"));
    }
    if parameters.quantity.None? {
      return Failure(MissingParameter("quantity"));
    }
    var foodItem := parameters.foodItem.value;
    var quantity := parameters.quantity.value;
    var orderCart: seq<CartEntry> := [];
    if parameters.orderCart.Some? {
      orderCart := parameters.orderCart.value;
    }
    if dbPrice.Some? {
      orderCart := orderCart + [CartEntry(foodItem, quantity, dbPrice.value)];
      r := Success(WebhookResponse(
        [ "We have " + foodItem + ", it costs " + PriceText(dbPrice.value) + ".",
          "It is added to you cart.",
          "Do you want to add another item?"],
        Some(orderCart),
        None));
    } else {
      r := Success(WebhookResponse(
        [ "We don't have " + foodItem + ".",
          "Here is our menu for your reference: menu link"],
        None,
        Some(MENU_PAGE)));
    }
  }

  /**
   * Adding an entry keeps every earlier entry in place and never merges: an
   * item already in the cart gets a second entry, and only its quantity grows.
   */
  lemma AddingAppendsSeparateEntry(cart: seq<CartEntry>, entry: CartEntry, item: string)
    ensures (cart + [entry])[..|cart|] == cart
    ensures MatchCount(cart + [entry], item) == MatchCount(cart, item) + (if entry.foodItem == item then 1 else 0)
    ensures ItemQuantity(cart + [entry], item) == ItemQuantity(cart, item) + (if entry.foodItem == item then entry.quantity else 0)
  {
  }
}
