/** Orders: the order record, its two enumerations, and the trade record the
    book hands to the ledger. */
module Orders {

  /** A value that may be absent (used for the market price of an empty book). */
  datatype Option<T> = None | Some(value: T)

  datatype OrderType = Limit | Market

  datatype Side = Buy | Sell

  /** An order. Prices are integer ticks. The source copies orders by value
      (queues and the index hold copies), so an order is a value here and its
      two setters return the updated copy. */
  datatype Order = Order(id: int, kind: OrderType, side: Side, price: int, quantity: int, trader: string)
  {
    /** The fields that have no setter and so never change after construction. */
    predicate SameIdentity(other: Order)
    {
      other.id == id && other.kind == kind && other.side == side && other.trader == trader
    }

    /** `setQuantity`: only the quantity changes. */
    function WithQuantity(qty: int): (o: Order)
      ensures SameIdentity(o) && o.SameIdentity(this)
      ensures o.quantity == qty && o.price == price
    {
      this.(quantity := qty)
    }

    /** `setPrice`: only the price changes. */
    function WithPrice(newPrice: int): (o: Order)
      ensures SameIdentity(o) && o.SameIdentity(this)
      ensures o.price == newPrice && o.quantity == quantity
    {
      this.(price := newPrice)
    }
  }

  /** One execution: the two order ids, the two traders, how much and at what price. */
  datatype Trade = Trade(buyOrder: int, sellOrder: int, buyer: string, seller: string, quantity: int, price: int)

  function Min(a: int, b: int): (m: int)
    ensures m <= a && m <= b && (m == a || m == b)
  {
    if a < b then a else b
  }

  /** Total quantity executed by a sequence of trades. */
  function Volume(trades: seq<Trade>): int
  {
    if trades == [] then 0 else trades[0].quantity + Volume(trades[1..])
  }
}
