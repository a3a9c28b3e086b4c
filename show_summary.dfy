/** The handler that lists the cart with a line amount per entry and the total cost. */
module ShowSummary {
  import opened Wrappers
  import opened Decimal
  import opened OrderCart

  /** The amount of one cart line: quantity times price. */
  function LineAmount(e: CartEntry): int
  {
    e.quantity * e.price
  }

  /** The `i`-th summary line, `"{i}. {food_item} X {quantity} = {amount}"`. */
  function SummaryLine(i: int, e: CartEntry): string
  {
    IntToString(i) + ". " + e.foodItem + " X " + IntToString(e.quantity) + " = " + IntToString(LineAmount(e))
  }

  /** The sum of the line amounts of the cart. */
  function Total(cart: seq<CartEntry>): int
  {
    if cart == [] then 0 else Total(cart[..|cart| - 1]) + LineAmount(cart[|cart| - 1])
  }

  /** The lines joined with newlines, as `"\n".join(lines)`. */
  function JoinLines(lines: seq<string>): string
  {
    if |lines| == 0 then ""
    else if |lines| == 1 then lines[0]
    else lines[0] + "\n" + JoinLines(lines[1..])
  }

  /** The summary lines of a cart, numbered from 1. */
  function SummaryLines(cart: seq<CartEntry>): (lines: seq<string>)
    ensures |lines| == |cart|
    ensures forall k :: 0 <= k < |cart| ==> lines[k] == SummaryLine(k + 1, cart[k])
  {
    seq(|cart|, k requires 0 <= k < |cart| => SummaryLine(k + 1, cart[k]))
  }

  /** The total of two carts put together is the sum of their totals. */
  lemma {:induction false} TotalConcat(a: seq<CartEntry>, b: seq<CartEntry>)
    ensures Total(a + b) == Total(a) + Total(b)
    decreases |b|
  {
    if b == [] {
      assert a + b == a;
    } else {
      TotalConcat(a, b[..|b| - 1]);
      assert (a + b)[..|a + b| - 1] == a + b[..|b| - 1];
    }
  }

  /** With no negative quantity or price the total is not negative. */
  lemma {:induction false} TotalNonNegative(cart: seq<CartEntry>)
    requires forall k :: 0 <= k < |cart| ==> cart[k].quantity >= 0 && cart[k].price >= 0
    ensures Total(cart) >= 0
  {
    if cart != [] {
      TotalNonNegative(cart[..|cart| - 1]);
      var e := cart[|cart| - 1];
      assert e.quantity * e.price >= 0;
    }
  }

  lemma TotalOfPrefix(cart: seq<CartEntry>, n: nat)
    requires n < |cart|
    ensures Total(cart[..n + 1]) == Total(cart[..n]) + LineAmount(cart[n])
  {
    assert cart[..n + 1][..n] == cart[..n];
  }

  lemma LinesExtend(lines: seq<string>, cart: seq<CartEntry>, n: nat, line: string)
    requires n < |cart| && |lines| == n && line == SummaryLine(n + 1, cart[n])
    requires forall k :: 0 <= k < n ==> lines[k] == SummaryLine(k + 1, cart[k])
    ensures forall k :: 0 <= k < n + 1 ==> (lines + [line])[k] == SummaryLine(k + 1, cart[k])
  {
  }

  /** The loop over the cart: one numbered line per entry and the running total. */
  method FormatSummary(orderCart: seq<CartEntry>) returns (formattedOrderCart: seq<string>, totalPrice: int)
    ensures |formattedOrderCart| == |orderCart|
    ensures forall k :: 0 <= k < |orderCart| ==> formattedOrderCart[k] == SummaryLine(k + 1, orderCart[k])
    ensures totalPrice == Total(orderCart)
  {
    formattedOrderCart := [];
    totalPrice := 0;
    var i := 1;
    for n := 0 to |orderCart|
      invariant i == n + 1
      invariant |formattedOrderCart| == n
      invariant forall k :: 0 <= k < n ==> formattedOrderCart[k] == SummaryLine(k + 1, orderCart[k])
      invariant totalPrice == Total(orderCart[..n])
    {
      var oc := orderCart[n];
      var tempPrice := LineAmount(oc);
      var line := SummaryLine(i, oc);
      LinesExtend(formattedOrderCart, orderCart, n, line);
      formattedOrderCart := formattedOrderCart + [line];
      TotalOfPrefix(orderCart, n);
      totalPrice := totalPrice + tempPrice;
      i := i + 1;
    }
    assert orderCart[..|orderCart|] == orderCart;
  }

  /** `show_summary`: four messages in fixed order; the cart itself is not returned. */
  method ShowSummary(parameters: SessionParameters) returns (r: Result<WebhookResponse, HandlerError>)
    ensures parameters.orderCart.None? ==> r == Failure(MissingParameter("order_cart"))
    ensures parameters.orderCart.Some? ==>
              var cart := parameters.orderCart.value;
              r == Success(WebhookResponse(
                     [ "Here is your order summary:",
                       JoinLines(SummaryLines(cart)),
                       "Total cost: " + IntToString(Total(cart)),
                       "Do you confirm this summary?"],
                     None,
                     None))
  {
    if parameters.orderCart.None? {
      return Failure(MissingParameter("order_cart"));
    }
    var formattedOrderCart, totalPrice := FormatSummary(parameters.orderCart.value);
    assert formattedOrderCart == SummaryLines(parameters.orderCart.value);
    r := Success(WebhookResponse(
      [ "Here is your order summary:",
        JoinLines(formattedOrderCart),
        "Total cost: " + IntToString(totalPrice),
        "Do you confirm this summary?"],
      None,
      None));
  }
}
