/**
 * Session data of the food-ordering agent: the cart that travels in the
 * session parameters as a list of `{food_item, quantity, price}` entries, and
 * the webhook reply the handlers build.
 */
module OrderCart {
  import opened Wrappers

  /** One cart entry. Prices are whole currency units. */
  datatype CartEntry = CartEntry(foodItem: string, quantity: int, price: int)

  /** The session parameters the handlers read; a key absent from the request is None. */
  datatype SessionParameters = SessionParameters(
    foodItem: Option<string>,
    quantity: Option<int>,
    orderCart: Option<seq<CartEntry>>)

  /**
   * A reply: its text messages, the `order_cart` session parameter when the
   * reply carries session parameters, and the page to move to when one is set.
   */
  datatype WebhookResponse = WebhookResponse(
    messages: seq<string>,
    orderCart: Option<seq<CartEntry>>,
    targetPage: Option<string>)

  /** Indexing a session parameter the request lacks raises a KeyError. */
  datatype HandlerError = MissingParameter(key: string)

  /** The page that asks for an item again and shows the menu. */
  const MENU_PAGE: string := "projects/youtube-dialogflow-cx/locations/global/agents/d23c3df0-06ff-4e38-9ea3-469630288825/flows/f16497c9-3464-4505-8c09-901acd20897d/pages/44a51e5a-d7e9-4df9-b49d-1c94e04ee468"

  /** How many entries of `cart` are for `item`. */
  function MatchCount(cart: seq<CartEntry>, item: string): nat
  {
    if cart == [] then 0
    else MatchCount(cart[..|cart| - 1], item) + (if cart[|cart| - 1].foodItem == item then 1 else 0)
  }

  /** The quantity of `item` summed over all its entries. */
  function ItemQuantity(cart: seq<CartEntry>, item: string): int
  {
    if cart == [] then 0
    else ItemQuantity(cart[..|cart| - 1], item) + (if cart[|cart| - 1].foodItem == item then cart[|cart| - 1].quantity else 0)
  }

  /** Counts and quantities add up over concatenated carts. */
  lemma {:induction false} CountsConcat(a: seq<CartEntry>, b: seq<CartEntry>, item: string)
    ensures MatchCount(a + b, item) == MatchCount(a, item) + MatchCount(b, item)
    ensures ItemQuantity(a + b, item) == ItemQuantity(a, item) + ItemQuantity(b, item)
    decreases |b|
  {
    if b == [] {
      assert a + b == a;
    } else {
      var init := b[..|b| - 1];
      CountsConcat(a, init, item);
      assert (a + b)[..|a + b| - 1] == a + init;
    }
  }
}
