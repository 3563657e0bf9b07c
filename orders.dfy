/** Orders held by the broker and the queries and updates the stop manager
    performs on them. The broker's list of open orders is the only state the
    stop manager has; it keeps none of its own between runs. */
module Orders {
  import opened Types

  datatype Side = Buy | Sell

  /** The order type together with its own parameter. `Other` stands for every
      type the stop manager never inspects (market, limit, stop-limit, ...). */
  datatype OrderKind = Stop(stopPrice: real) | TrailingStop(trailPercent: real) | Other

  type OrderId = nat

  datatype Order = Order(id: OrderId, symbol: string, side: Side, kind: OrderKind, qty: real, tif: TimeInForce)

  /** The open orders of the account, in the order the broker lists them, and
      the id the broker assigns to the next accepted order. */
  datatype Book = Book(orders: seq<Order>, nextId: OrderId)

  /** Ids are unique and every id was handed out before `nextId`. */
  predicate WellFormed(b: Book)
  {
    && (forall i :: 0 <= i < |b.orders| ==> b.orders[i].id < b.nextId)
    && (forall i, j :: 0 <= i < j < |b.orders| ==> b.orders[i].id != b.orders[j].id)
  }

  /** A protective fixed stop: a SELL order of type STOP. */
  predicate IsFixedStop(o: Order)
  {
    o.side == Sell && o.kind.Stop?
  }

  /** A protective trailing stop: a SELL order of type TRAILING_STOP. */
  predicate IsTrailingStop(o: Order)
  {
    o.side == Sell && o.kind.TrailingStop?
  }

  /** The open orders of one symbol, in query order. */
  function OpenFor(orders: seq<Order>, symbol: string): (r: seq<Order>)
    ensures forall o :: o in r <==> o in orders && o.symbol == symbol
    ensures |r| <= |orders|
  {
    if orders == [] then []
    else (if orders[0].symbol == symbol then [orders[0]] else []) + OpenFor(orders[1..], symbol)
  }

  /** The id of the first fixed stop among `os`, if there is one. */
  function FirstFixedStop(os: seq<Order>): (r: Option<OrderId>)
    ensures r.None? <==> forall o :: o in os ==> !IsFixedStop(o)
    ensures r.Some? ==> exists i :: 0 <= i < |os| && os[i].id == r.value && IsFixedStop(os[i])
                                    && forall j :: 0 <= j < i ==> !IsFixedStop(os[j])
  {
    if os == [] then None
    else if IsFixedStop(os[0]) then Some(os[0].id)
    else
      var r := FirstFixedStop(os[1..]);
      assert forall o :: o in os <==> o == os[0] || o in os[1..];
      if r.Some? then
        var i :| 0 <= i < |os[1..]| && os[1..][i].id == r.value && IsFixedStop(os[1..][i])
                  && forall j :: 0 <= j < i ==> !IsFixedStop(os[1..][j]);
        assert os[i + 1] == os[1..][i];
        assert forall j :: 1 <= j <= i ==> os[j] == os[1..][j - 1];
        r
      else r
  }

  /** The first fixed stop is the one at the lowest index. */
  lemma {:induction false} FirstFixedStopAt(os: seq<Order>, i: nat)
    requires i < |os| && IsFixedStop(os[i])
    requires forall j :: 0 <= j < i ==> !IsFixedStop(os[j])
    ensures FirstFixedStop(os) == Some(os[i].id)
  {
    if i > 0 {
      assert forall j :: 0 <= j < i - 1 ==> os[1..][j] == os[j + 1];
      FirstFixedStopAt(os[1..], i - 1);
    }
  }

  /** Whether some order among `os` is a trailing stop. */
  predicate AnyTrailing(os: seq<Order>)
  {
    exists o :: o in os && IsTrailingStop(o)
  }

  /** The symbol is covered by at least one open protective order. */
  predicate Protected(orders: seq<Order>, symbol: string)
  {
    exists o :: o in OpenFor(orders, symbol) && (IsFixedStop(o) || IsTrailingStop(o))
  }

  /** The broker's answer to an order submission: when it accepts, the order is
      appended to the open orders under a fresh id; when it refuses, nothing
      changes and no id comes back. */
  function Submit(b: Book, symbol: string, kind: OrderKind, qty: real, tif: TimeInForce, accepted: bool)
    : (r: (Book, Option<OrderId>))
    ensures WellFormed(b) ==> WellFormed(r.0)
    ensures r.1.Some? <==> accepted
    ensures accepted ==> r.1.value == b.nextId && r.0.nextId > b.nextId
                         && r.0.orders == b.orders + [Order(b.nextId, symbol, Sell, kind, qty, tif)]
    ensures !accepted ==> r.0 == b
  {
    if accepted then (Book(b.orders + [Order(b.nextId, symbol, Sell, kind, qty, tif)], b.nextId + 1), Some(b.nextId))
    else (b, None)
  }

  /** The orders other than the one with id `id`, in their original order. */
  function RemoveId(orders: seq<Order>, id: OrderId): (r: seq<Order>)
    ensures forall o :: o in r <==> o in orders && o.id != id
    ensures |r| <= |orders|
  {
    if orders == [] then []
    else (if orders[0].id == id then [] else [orders[0]]) + RemoveId(orders[1..], id)
  }

  /** The broker's answer to a cancellation: when it succeeds the order is no
      longer open; when it fails nothing changes. */
  function Cancel(b: Book, id: OrderId, accepted: bool): (r: Book)
    ensures WellFormed(b) ==> WellFormed(r)
    ensures r.nextId == b.nextId
    ensures forall o :: o in r.orders <==> o in b.orders && (accepted ==> o.id != id)
    ensures !accepted ==> r == b
  {
    if accepted then
      var r := Book(RemoveId(b.orders, id), b.nextId);
      assert WellFormed(b) ==> WellFormed(r) by {
        if WellFormed(b) { RemoveIdKeepsDistinct(b.orders, id, b.nextId); }
      }
      r
    else b
  }

  lemma {:induction false} RemoveIdKeepsDistinct(orders: seq<Order>, id: OrderId, bound: OrderId)
    requires forall i :: 0 <= i < |orders| ==> orders[i].id < bound
    requires forall i, j :: 0 <= i < j < |orders| ==> orders[i].id != orders[j].id
    ensures WellFormed(Book(RemoveId(orders, id), bound))
  {
    if orders != [] {
      RemoveIdKeepsDistinct(orders[1..], id, bound);
      var rest := RemoveId(orders[1..], id);
      forall k | 0 <= k < |rest| ensures rest[k].id != orders[0].id
      {
        assert rest[k] in orders[1..];
      }
    }
  }

  /** Removing by id distributes over concatenation, so the orders that remain
      keep their relative order. */
  lemma {:induction false} RemoveIdAppend(xs: seq<Order>, ys: seq<Order>, id: OrderId)
    ensures RemoveId(xs + ys, id) == RemoveId(xs, id) + RemoveId(ys, id)
  {
    if xs != [] {
      assert (xs + ys)[1..] == xs[1..] + ys;
      RemoveIdAppend(xs[1..], ys, id);
    } else {
      assert xs + ys == ys;
    }
  }

  /** Removing an id that no order carries changes nothing. */
  lemma {:induction false} RemoveIdAbsent(orders: seq<Order>, id: OrderId)
    requires forall o :: o in orders ==> o.id != id
    ensures RemoveId(orders, id) == orders
  {
    if orders != [] {
      assert forall o :: o in orders[1..] ==> o in orders;
      RemoveIdAbsent(orders[1..], id);
    }
  }

  /** Removing the id of the order at index `i`, which no other order
      carries, takes out just that order and keeps the others in their order. */
  lemma {:induction false} RemoveIdAt(orders: seq<Order>, i: nat)
    requires i < |orders|
    requires forall j :: 0 <= j < |orders| && j != i ==> orders[j].id != orders[i].id
    ensures RemoveId(orders, orders[i].id) == orders[..i] + orders[i + 1..]
  {
    var id := orders[i].id;
    var rest := orders[1..];
    if i == 0 {
      forall o | o in rest ensures o.id != id
      {
        var k :| 0 <= k < |rest| && rest[k] == o;
        assert orders[k + 1] == o;
      }
      RemoveIdAbsent(rest, id);
    } else {
      assert rest[i - 1] == orders[i];
      forall j | 0 <= j < |rest| && j != i - 1 ensures rest[j].id != id
      {
        assert rest[j] == orders[j + 1];
      }
      RemoveIdAt(rest, i - 1);
      assert orders[..i] == [orders[0]] + rest[..i - 1];
      assert orders[i + 1..] == rest[i..];
    }
  }

  /** An accepted cancellation in a well-formed book removes the one order with
      that id and leaves the others in their order. */
  lemma CancelRemovesAt(b: Book, i: nat)
    requires WellFormed(b) && i < |b.orders|
    ensures Cancel(b, b.orders[i].id, true).orders == b.orders[..i] + b.orders[i + 1..]
  {
    forall j | 0 <= j < |b.orders| && j != i
      ensures b.orders[j].id != b.orders[i].id
    {
      if j < i {
        assert b.orders[j].id != b.orders[i].id;
      } else {
        assert b.orders[i].id != b.orders[j].id;
      }
    }
    RemoveIdAt(b.orders, i);
  }

  /** Removing an order of another symbol leaves a symbol's open orders, and
      their query order, as they were. */
  lemma {:induction false} RemoveIdOtherSymbol(orders: seq<Order>, id: OrderId, symbol: string)
    requires forall o :: o in orders && o.id == id ==> o.symbol != symbol
    ensures OpenFor(RemoveId(orders, id), symbol) == OpenFor(orders, symbol)
  {
    if orders != [] {
      RemoveIdOtherSymbol(orders[1..], id, symbol);
      var head := if orders[0].id == id then [] else [orders[0]];
      assert RemoveId(orders, id) == head + RemoveId(orders[1..], id);
      OpenForAppend(head, RemoveId(orders[1..], id), symbol);
    }
  }

  /** Selecting one symbol's orders distributes over concatenation. */
  lemma {:induction false} OpenForAppend(xs: seq<Order>, ys: seq<Order>, symbol: string)
    ensures OpenFor(xs + ys, symbol) == OpenFor(xs, symbol) + OpenFor(ys, symbol)
  {
    if xs != [] {
      assert (xs + ys)[1..] == xs[1..] + ys;
      OpenForAppend(xs[1..], ys, symbol);
    } else {
      assert xs + ys == ys;
    }
  }
}
