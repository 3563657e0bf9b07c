/** The stop manager's operations on the broker account: the searches over a
    symbol's open orders, the order submissions and the cancellation, each of
    which swallows a broker refusal, and the run over all positions. Each is
    proved to do what the functions of module Protection say. */
module ManageStops {
  import opened Types
  import opened Orders
  import opened Normalize
  import opened Protection
  import opened Client
  import opened ProtectionProperties

  /** Whether an open SELL TRAILING_STOP exists for the symbol; the search
      stops at the first one. */
  method HasTrailing(client: Broker, symbol: string) returns (found: bool)
    ensures found <==> AnyTrailing(OpenFor(client.orders, symbol))
  {
    var open := client.OpenOrders(symbol);
    var i := 0;
    while i < |open|
      invariant 0 <= i <= |open|
      invariant forall j :: 0 <= j < i ==> !IsTrailingStop(open[j])
    {
      if open[i].side == Sell && open[i].kind.TrailingStop? {
        return true;
      }
      i := i + 1;
    }
    return false;
  }

  /** The id of the first open SELL STOP of the symbol, in query order, if
      there is one. */
  method FixedStopId(client: Broker, symbol: string) returns (id: Option<OrderId>)
    ensures id == FirstFixedStop(OpenFor(client.orders, symbol))
    ensures id.None? <==> forall o :: o in OpenFor(client.orders, symbol) ==> !IsFixedStop(o)
  {
    var open := client.OpenOrders(symbol);
    var i := 0;
    while i < |open|
      invariant 0 <= i <= |open|
      invariant forall j :: 0 <= j < i ==> !IsFixedStop(open[j])
    {
      if open[i].side == Sell && open[i].kind.Stop? {
        FirstFixedStopAt(open, i);
        return Some(open[i].id);
      }
      i := i + 1;
    }
    return None;
  }

  /** Cancels an order; a refusal is swallowed and changes nothing. */
  method CancelOrder(client: Broker, id: OrderId, accepted: bool)
    modifies client
    ensures client.State() == Cancel(old(client.State()), id, accepted)
  {
    client.CancelOrderById(id, accepted);
  }

  /** Submits the fixed stop: full quantity, stop price rounded to cents,
      DAY for a fractional quantity and GTC otherwise. A refusal is
      swallowed. */
  method SendFixedStop(client: Broker, symbol: string, qty: real, stopPrice: real, accepted: bool)
    modifies client
    ensures client.State() == PlaceFixedStop(old(client.State()), symbol, qty, stopPrice, accepted)
  {
    var tif := TifForStop(qty);
    var _ := client.SubmitOrder(symbol, Stop(Round2(stopPrice)), qty, tif, accepted);
  }

  /** Submits the trailing stop for whole shares only: a fractional quantity
      is rounded down, and when that leaves no share nothing is submitted.
      Returns the id of the accepted order. */
  method SendTrailing(client: Broker, symbol: string, qty: real, trailPercent: real, accepted: bool)
    returns (id: Option<OrderId>)
    modifies client
    ensures client.State() == PlaceTrailing(old(client.State()), symbol, qty, trailPercent, accepted).0
    ensures id == PlaceTrailing(old(client.State()), symbol, qty, trailPercent, accepted).1
  {
    var q := qty;
    if IsFractional(q) {
      q := q.Floor as real;
      if q <= 0.0 {
        return None;
      }
    }
    id := client.SubmitOrder(symbol, TrailingStop(trailPercent), q, Gtc, accepted);
  }

  /** The first block of the run for one position: a fixed stop is submitted
      unless one is open for the symbol; the attempt counts as a new order. */
  method EnsureFixedStop(client: Broker, p: Position, accepted: bool) returns (added: nat)
    modifies client
    ensures client.State() == FixedPhase(old(client.State()), p, accepted).0
    ensures added == FixedPhase(old(client.State()), p, accepted).1
  {
    added := 0;
    var stopPrice := p.avgEntry * (1.0 - StopLossPct);
    var stopId := FixedStopId(client, p.symbol);
    if stopId.None? {
      SendFixedStop(client, p.symbol, p.qty, stopPrice, accepted);
      added := 1;
    }
  }

  /** The second block of the run for one position: once the gain is reached
      and no trailing stop is open, a trailing stop is submitted, and only
      after the broker accepts it is the first open fixed stop cancelled. */
  method SwapToTrailing(client: Broker, p: Position, o: Outcomes) returns (added: nat)
    modifies client
    ensures client.State() == TrailingPhase(old(client.State()), p, o).0
    ensures added == TrailingPhase(old(client.State()), p, o).1
  {
    added := 0;
    if p.plpc.Some? && p.plpc.value >= ActivationMinGain {
      var trailing := HasTrailing(client, p.symbol);
      if !trailing {
        ghost var before := client.State();
        var trId := SendTrailing(client, p.symbol, p.qty, TrailPercent, o.trailingAccepted);
        ghost var placed := PlaceTrailing(before, p.symbol, p.qty, TrailPercent, o.trailingAccepted);
        assert client.State() == placed.0 && trId == placed.1;
        if trId.Some? {
          added := 1;
          var sid := FixedStopId(client, p.symbol);
          if sid.Some? {
            CancelOrder(client, sid.value, o.cancelAccepted);
          }
        }
      }
    }
  }

  /** The body of the run for one position; returns how many new orders it
      counts. */
  method ProtectPosition(client: Broker, p: Position, o: Outcomes) returns (added: nat)
    modifies client
    ensures client.State() == Step(old(client.State()), p, o).0
    ensures added == Step(old(client.State()), p, o).1
  {
    if p.qty <= 0.0 {
      return 0;
    }
    // 1) the fixed stop, unless one is open
    var fixed := EnsureFixedStop(client, p, o.fixedAccepted);
    // 2) the trailing stop once the gain is reached, then the fixed stop goes
    var trailing := SwapToTrailing(client, p, o);
    added := fixed + trailing;
  }

  /** One run over all positions, in the order the broker lists them;
      returns the count of new orders. */
  method RunOnce(client: Broker, positions: seq<Position>, outcomes: seq<Outcomes>) returns (newOrders: nat)
    requires |outcomes| == |positions|
    modifies client
    ensures client.State() == Run(old(client.State()), positions, outcomes).0
    ensures newOrders == Run(old(client.State()), positions, outcomes).1
  {
    ghost var total := Run(client.State(), positions, outcomes);
    newOrders := 0;
    var i := 0;
    assert positions[0..] == positions && outcomes[0..] == outcomes;
    while i < |positions|
      invariant 0 <= i <= |positions|
      invariant Run(client.State(), positions[i..], outcomes[i..]).0 == total.0
      invariant newOrders + Run(client.State(), positions[i..], outcomes[i..]).1 == total.1
    {
      RunFrom(client.State(), positions, outcomes, i);
      var added := ProtectPosition(client, positions[i], outcomes[i]);
      newOrders := newOrders + added;
      i := i + 1;
    }
    assert positions[i..] == [];
  }
}
