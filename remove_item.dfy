/** The handler that takes a quantity of an item out of the cart and drops entries left at zero. */
module RemoveItem {
  import opened Wrappers
  import opened Seqs
  import opened Decimal
  import opened OrderCart

  /** An entry for `foodItem` loses `quantity`; any other entry is unchanged. */
  function Decremented(e: CartEntry, foodItem: string, quantity: int): CartEntry
  {
    if e.foodItem == foodItem then e.(quantity := e.quantity - quantity) else e
  }

  /** The cart with every entry decremented, before anything is dropped. */
  function DecrementAll(cart: seq<CartEntry>, foodItem: string, quantity: int): seq<CartEntry>
  {
    if cart == [] then []
    else DecrementAll(cart[..|cart| - 1], foodItem, quantity) + [Decremented(cart[|cart| - 1], foodItem, quantity)]
  }

  /** The decremented cart without the entries whose quantity is exactly zero. */
  function UpdatedCart(cart: seq<CartEntry>, foodItem: string, quantity: int): seq<CartEntry>
  {
    if cart == [] then []
    else
      var oc := Decremented(cart[|cart| - 1], foodItem, quantity);
      UpdatedCart(cart[..|cart| - 1], foodItem, quantity) + (if oc.quantity == 0 then [] else [oc])
  }

  /**
   * Every entry is visited: each entry for `foodItem` loses exactly `quantity`,
   * the others keep theirs, and names, prices and order stay as they were.
   */
  lemma {:induction false} DecrementAllAt(cart: seq<CartEntry>, foodItem: string, quantity: int, k: nat)
    requires k < |cart|
    ensures |DecrementAll(cart, foodItem, quantity)| == |cart|
    ensures var d := DecrementAll(cart, foodItem, quantity)[k];
            && d.foodItem == cart[k].foodItem
            && d.price == cart[k].price
            && d.quantity == if cart[k].foodItem == foodItem then cart[k].quantity - quantity else cart[k].quantity
  {
    var init := cart[..|cart| - 1];
    if k < |init| {
      DecrementAllAt(init, foodItem, quantity, k);
    } else {
      DecrementAllLength(init, foodItem, quantity);
    }
  }

  lemma {:induction false} DecrementAllLength(cart: seq<CartEntry>, foodItem: string, quantity: int)
    ensures |DecrementAll(cart, foodItem, quantity)| == |cart|
  {
    if cart != [] {
      DecrementAllLength(cart[..|cart| - 1], foodItem, quantity);
    }
  }

  /** An entry remains exactly when it is a decremented entry whose quantity is not zero. */
  lemma {:induction false} UpdatedCartExactly(cart: seq<CartEntry>, foodItem: string, quantity: int, e: CartEntry)
    ensures e in UpdatedCart(cart, foodItem, quantity) <==> e in DecrementAll(cart, foodItem, quantity) && e.quantity != 0
  {
    if cart != [] {
      UpdatedCartExactly(cart[..|cart| - 1], foodItem, quantity, e);
    }
  }

  /** The entries of `cart` whose quantity is not zero, in order. */
  function DropZeros(cart: seq<CartEntry>): seq<CartEntry>
  {
    if cart == [] then []
    else (if cart[0].quantity == 0 then [] else [cart[0]]) + DropZeros(cart[1..])
  }

  lemma {:induction false} DropZerosSnoc(cart: seq<CartEntry>, e: CartEntry)
    ensures DropZeros(cart + [e]) == DropZeros(cart) + (if e.quantity == 0 then [] else [e])
  {
    if cart == [] {
      assert [] + [e] == [e];
      assert [e][1..] == [];
    } else {
      assert (cart + [e])[1..] == cart[1..] + [e];
      DropZerosSnoc(cart[1..], e);
    }
  }

  /**
   * The updated cart is exactly the decremented cart with its zero-quantity
   * entries filtered out, so every duplicate that is not zero survives.
   */
  lemma {:induction false} UpdatedCartIsDropZeros(cart: seq<CartEntry>, foodItem: string, quantity: int)
    ensures UpdatedCart(cart, foodItem, quantity) == DropZeros(DecrementAll(cart, foodItem, quantity))
  {
    if cart != [] {
      UpdatedCartIsDropZeros(cart[..|cart| - 1], foodItem, quantity);
      DropZerosSnoc(DecrementAll(cart[..|cart| - 1], foodItem, quantity), Decremented(cart[|cart| - 1], foodItem, quantity));
    }
  }

  /** No entry left in the updated cart has quantity zero, whether or not it was for `foodItem`. */
  lemma NoZeroRemains(cart: seq<CartEntry>, foodItem: string, quantity: int)
    ensures forall e :: e in UpdatedCart(cart, foodItem, quantity) ==> e.quantity != 0
  {
  }

  /** Only an exact zero is dropped: the decremented `k`-th entry survives iff its quantity is not zero. */
  lemma OnlyExactZeroDropped(cart: seq<CartEntry>, foodItem: string, quantity: int, k: nat)
    requires k < |cart|
    ensures Decremented(cart[k], foodItem, quantity) in UpdatedCart(cart, foodItem, quantity)
            <==> Decremented(cart[k], foodItem, quantity).quantity != 0
  {
    DecrementAllAt(cart, foodItem, quantity, k);
    var d := DecrementAll(cart, foodItem, quantity);
    assert d[k] == Decremented(cart[k], foodItem, quantity);
    UpdatedCartExactly(cart, foodItem, quantity, d[k]);
  }

  /** The updated cart keeps the order of the decremented cart. */
  lemma {:induction false} UpdatedCartIsSubsequence(cart: seq<CartEntry>, foodItem: string, quantity: int)
    ensures IsSubsequence(UpdatedCart(cart, foodItem, quantity), DecrementAll(cart, foodItem, quantity))
  {
    if cart != [] {
      var init := cart[..|cart| - 1];
      var oc := Decremented(cart[|cart| - 1], foodItem, quantity);
      var u := UpdatedCart(init, foodItem, quantity);
      UpdatedCartIsSubsequence(init, foodItem, quantity);
      SubsequenceSnoc(u, DecrementAll(init, foodItem, quantity), oc, oc.quantity != 0);
      if oc.quantity == 0 {
        assert u + [] == u;
      }
    }
  }

  /**
   * Quantities are conserved: `item` loses `quantity` once per entry it had,
   * every other item keeps its total, and dropping zero entries changes no total.
   */
  lemma {:induction false} UpdatedCartQuantities(cart: seq<CartEntry>, foodItem: string, quantity: int, item: string)
    ensures ItemQuantity(UpdatedCart(cart, foodItem, quantity), item)
         == ItemQuantity(cart, item) - (if item == foodItem then quantity * MatchCount(cart, item) else 0)
  {
    if cart != [] {
      var init := cart[..|cart| - 1];
      var last := cart[|cart| - 1];
      var oc := Decremented(last, foodItem, quantity);
      var u := UpdatedCart(init, foodItem, quantity);
      UpdatedCartQuantities(init, foodItem, quantity, item);
      assert UpdatedCart(cart, foodItem, quantity) == u + (if oc.quantity == 0 then [] else [oc]);
      assert ItemQuantity(UpdatedCart(cart, foodItem, quantity), item)
          == ItemQuantity(u, item) + (if oc.foodItem == item then oc.quantity else 0) by {
        if oc.quantity != 0 {
          CountsConcat(u, [oc], item);
          assert [oc][..0] == [];
        } else {
          assert u + [] == u;
        }
      }
      var m := MatchCount(init, item);
      if item == foodItem && last.foodItem == item {
        assert MatchCount(cart, item) == m + 1;
        MulSucc(quantity, m);
      }
    }
  }

  lemma MulSucc(q: int, m: int)
    ensures q * (m + 1) == q * m + q
  {
  }

  /**
   * `remove_item`. For a present cart, the reply carries the updated cart; an
   * empty result also moves to the menu page.
   */
  method RemoveItem(parameters: SessionParameters) returns (r: Result<WebhookResponse, HandlerError>)
    ensures parameters.orderCart.None? ==> r == Failure(MissingParameter("order_cart"))
    ensures parameters.orderCart.Some? && parameters.foodItem.None? ==> r == Failure(MissingParameter("food_item"))
    ensures parameters.orderCart.Some? && parameters.foodItem.Some? && parameters.quantity.None? ==>
              r == Failure(MissingParameter("quantity"))
    ensures r.Success? <==> parameters.orderCart.Some? && parameters.foodItem.Some? && parameters.quantity.Some?
    ensures r.Success? ==>
              var updated := UpdatedCart(parameters.orderCart.value, parameters.foodItem.value, parameters.quantity.value);
              && r.value.orderCart == Some(updated)
              && (r.value.targetPage.Some? <==> updated == [])
              && (updated == [] ==>
                    && r.value.targetPage == Some(MENU_PAGE)
                    && r.value.messages == ["There is no item in yout cart, add items from our menu. Here is menu link."])
              && (updated != [] ==>
                    r.value.messages == [
                      "We have removed " + IntToString(parameters.quantity.value) + " number of "
                        + parameters.foodItem.value + ".",
                      "Do you want to remove another item?"])
  {
    if parameters.orderCart.None? {
      return Failure(MissingParameter("order_cart"));
    }
    if parameters.foodItem.None? {
      return Failure(MissingParameter("food_item"));
    }
    if parameters.quantity.None? {
      return Failure(MissingParameter("quantity"));
    }
    var orderCart := parameters.orderCart.value;
    var foodItem := parameters.foodItem.value;
    var quantity := parameters.quantity.value;

    var updatedOrderCart: seq<CartEntry> := [];
    for i := 0 to |orderCart|
      invariant updatedOrderCart == UpdatedCart(orderCart[..i], foodItem, quantity)
    {
      var oc := orderCart[i];
      if oc.foodItem == foodItem {
        oc := oc.(quantity := oc.quantity - quantity);
      }
      if oc.quantity != 0 {
        updatedOrderCart := updatedOrderCart + [oc];
      }
      assert orderCart[..i + 1][..i] == orderCart[..i];
    }
    assert orderCart[..|orderCart|] == orderCart;

    if |updatedOrderCart| == 0 {
      r := Success(WebhookResponse(
        ["There is no item in yout cart, add items from our menu. Here is menu link."],
        Some(updatedOrderCart),
        Some(MENU_PAGE)));
    } else {
      r := Success(WebhookResponse(
        [ "We have removed " + IntToString(quantity) + " number of " + foodItem + ".",
          "Do you want to remove another item?"],
        Some(updatedOrderCart),
        None));
    }
  }
}
