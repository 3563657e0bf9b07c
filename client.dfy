/** The broker account as the stop manager sees it through its trading client:
    the open orders, which it lists per symbol, and the submissions and
    cancellations it accepts or refuses. Whether the broker accepts a call is
    not known to the stop manager; each call takes it as an argument. */
module Client {
  import opened Types
  import opened Orders

  class Broker {
    var orders: seq<Order>
    var nextId: OrderId

    /** The account's open orders as a value. */
    function State(): Book
      reads this
    {
      Book(orders, nextId)
    }

    constructor (initial: Book)
      ensures State() == initial
    {
      orders := initial.orders;
      nextId := initial.nextId;
    }

    /** The open orders of one symbol, in the order the broker lists them. */
    function OpenOrders(symbol: string): (r: seq<Order>)
      reads this
      ensures forall o :: o in r <==> o in orders && o.symbol == symbol
    {
      OpenFor(orders, symbol)
    }

    /** Submits a SELL order; an accepted order is open under a fresh id. */
    method SubmitOrder(symbol: string, kind: OrderKind, qty: real, tif: TimeInForce, accepted: bool)
      returns (id: Option<OrderId>)
      modifies this
      ensures State() == Submit(old(State()), symbol, kind, qty, tif, accepted).0
      ensures id == Submit(old(State()), symbol, kind, qty, tif, accepted).1
    {
      if accepted {
        id := Some(nextId);
        orders := orders + [Order(nextId, symbol, Sell, kind, qty, tif)];
        nextId := nextId + 1;
      } else {
        id := None;
      }
    }

    /** Cancels the order with the given id; a refused cancellation changes
        nothing. */
    method CancelOrderById(id: OrderId, accepted: bool)
      modifies this
      ensures State() == Cancel(old(State()), id, accepted)
    {
      if accepted {
        orders := RemoveId(orders, id);
      }
    }
  }
}
