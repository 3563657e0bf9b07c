/** What one run of the stop manager does to the broker's open orders, as
    functions of the book before the run. For every long position it makes sure
    a fixed stop-loss 10% under the average entry price is open; once the
    position is up 5% or more it places an 8% trailing stop and then cancels
    the fixed stop. Every broker call may fail: the `Outcomes` of a position
    say which of its calls the broker accepts. */
module Protection {
  import opened Types
  import opened Orders
  import opened Normalize

  /** Unrealized P/L fraction from which the trailing stop is placed (+5%). */
  const ActivationMinGain: real := 0.05
  /** Trail of the trailing stop, in percent. */
  const TrailPercent: real := 8.0
  /** Distance of the fixed stop under the average entry price (10%). */
  const StopLossPct: real := 0.10

  /** A broker position. `plpc` is the unrealized P/L as a fraction (0.05 is
      +5%); it is None when the broker gives none that reads as a number. */
  datatype Position = Position(symbol: string, qty: real, avgEntry: real, plpc: Option<real>)

  /** Whether the broker accepts, for one position, the fixed-stop submission,
      the trailing-stop submission and the cancellation, should they happen. */
  datatype Outcomes = Outcomes(fixedAccepted: bool, trailingAccepted: bool, cancelAccepted: bool)

  /** The unrounded fixed-stop price of a position. */
  function StopPriceFor(avgEntry: real): (r: real)
    ensures avgEntry >= 0.0 ==> r <= avgEntry
    ensures r == avgEntry - avgEntry / 10.0
  {
    avgEntry * (1.0 - StopLossPct)
  }

  /** Submitting a fixed stop: a SELL STOP for the given quantity, at the
      stop price rounded to cents, with the time in force the quantity calls
      for. A refusal is swallowed and leaves the book as it was. */
  function PlaceFixedStop(b: Book, symbol: string, qty: real, stopPrice: real, accepted: bool): (r: Book)
    ensures WellFormed(b) ==> WellFormed(r)
    ensures !accepted ==> r == b
    ensures accepted ==>
      && r.nextId > b.nextId
      && |r.orders| == |b.orders| + 1 && r.orders[..|b.orders|] == b.orders
      && var o := r.orders[|b.orders|];
         && o.id == b.nextId && o.symbol == symbol && IsFixedStop(o) && o.qty == qty
         && o.kind.stopPrice == Round2(stopPrice)
         && (o.tif == Day <==> !IsWhole(qty))
  {
    Submit(b, symbol, Stop(Round2(stopPrice)), qty, TifForStop(qty), accepted).0
  }

  /** Submitting a trailing stop. When the whole-share quantity is zero
      nothing is submitted; otherwise a SELL TRAILING_STOP, GTC, for that
      quantity and the given trail is submitted, and its id comes back when
      the broker accepts it. */
  function PlaceTrailing(b: Book, symbol: string, qty: real, trailPercent: real, accepted: bool)
    : (r: (Book, Option<OrderId>))
    ensures WellFormed(b) ==> WellFormed(r.0)
    ensures r.1.Some? <==> accepted && !(IsFractional(qty) && qty < 1.0)
    ensures r.1.None? ==> r.0 == b
    ensures r.1.Some? ==>
      && r.1.value == b.nextId && r.0.nextId > b.nextId
      && |r.0.orders| == |b.orders| + 1 && r.0.orders[..|b.orders|] == b.orders
      && var o := r.0.orders[|b.orders|];
         && o.id == b.nextId && o.symbol == symbol && IsTrailingStop(o)
         && o.kind.trailPercent == trailPercent && o.tif == Gtc
         && (IsWhole(qty) ==> o.qty == qty)
         && (!IsWhole(qty) ==> o.qty == qty.Floor as real)
  {
    match TrailingQty(qty)
    case None => (b, None)
    case Some(q) => Submit(b, symbol, TrailingStop(trailPercent), q, Gtc, accepted)
  }

  /** The trailing order `PlaceTrailing` appends for a position, when it does. */
  function TrailingOrder(b: Book, p: Position): Order
    requires TrailingQty(p.qty).Some?
  {
    Order(b.nextId, p.symbol, Sell, TrailingStop(TrailPercent), TrailingQty(p.qty).value, Gtc)
  }

  /** First step for a position: submit a fixed stop unless an open fixed stop
      for the symbol exists. The count of new orders goes up for the attempt,
      whether or not the broker accepts it. */
  function FixedPhase(b: Book, p: Position, accepted: bool): (r: (Book, nat))
    ensures WellFormed(b) ==> WellFormed(r.0)
    ensures r.1 == 1 <==> FirstFixedStop(OpenFor(b.orders, p.symbol)).None?
    ensures r.1 <= 1
    ensures FirstFixedStop(OpenFor(b.orders, p.symbol)).Some? || !accepted ==> r.0 == b
    ensures |r.0.orders| >= |b.orders| && r.0.orders[..|b.orders|] == b.orders
    ensures forall o :: o in r.0.orders[|b.orders|..] ==> IsFixedStop(o) && o.symbol == p.symbol
    ensures FirstFixedStop(OpenFor(b.orders, p.symbol)).None? && accepted ==>
      && |r.0.orders| == |b.orders| + 1
      && r.0.orders[|b.orders|]
         == Order(b.nextId, p.symbol, Sell, Stop(Round2(StopPriceFor(p.avgEntry))), p.qty, TifForStop(p.qty))
  {
    if FirstFixedStop(OpenFor(b.orders, p.symbol)).None? then
      (PlaceFixedStop(b, p.symbol, p.qty, StopPriceFor(p.avgEntry), accepted), 1)
    else (b, 0)
  }

  /** The trailing step is entered when the P/L fraction is known, has reached
      the activation gain, and no trailing stop is open for the symbol. */
  predicate TrailingEligible(b: Book, p: Position)
  {
    p.plpc.Some? && p.plpc.value >= ActivationMinGain && !AnyTrailing(OpenFor(b.orders, p.symbol))
  }

  /** Second step for a position: place the trailing stop and, only once the
      broker has accepted it, cancel the first open fixed stop of the symbol. */
  function TrailingPhase(b: Book, p: Position, o: Outcomes): (r: (Book, nat))
    ensures WellFormed(b) ==> WellFormed(r.0)
    ensures r.1 <= 1
    ensures r.1 == 1 <==> TrailingEligible(b, p) && TrailingQty(p.qty).Some? && o.trailingAccepted
    ensures r.1 == 0 ==> r.0 == b
    ensures r.1 == 1 && !o.cancelAccepted ==>
      TrailingQty(p.qty).Some? && r.0.orders == b.orders + [TrailingOrder(b, p)]
  {
    if !TrailingEligible(b, p) then (b, 0)
    else
      var placed := PlaceTrailing(b, p.symbol, p.qty, TrailPercent, o.trailingAccepted);
      if placed.1.None? then (placed.0, 0)
      else match FirstFixedStop(OpenFor(placed.0.orders, p.symbol))
        case None => (placed.0, 1)
        case Some(sid) => (Cancel(placed.0, sid, o.cancelAccepted), 1)
  }

  /** Everything the run does for one position, and how many new orders it
      counts for it. */
  function Step(b: Book, p: Position, o: Outcomes): (r: (Book, nat))
    ensures WellFormed(b) ==> WellFormed(r.0)
    ensures p.qty <= 0.0 ==> r.0 == b && r.1 == 0
    ensures r.1 <= 2
  {
    if p.qty <= 0.0 then (b, 0)
    else
      var first := FixedPhase(b, p, o.fixedAccepted);
      var second := TrailingPhase(first.0, p, o);
      (second.0, first.1 + second.1)
  }

  /** A whole run over the positions in the order the broker lists them. */
  function Run(b: Book, ps: seq<Position>, os: seq<Outcomes>): (r: (Book, nat))
    requires |os| == |ps|
    ensures WellFormed(b) ==> WellFormed(r.0)
    ensures r.1 <= 2 * |ps|
    decreases |ps|
  {
    if ps == [] then (b, 0)
    else
      var head := Step(b, ps[0], os[0]);
      var rest := Run(head.0, ps[1..], os[1..]);
      (rest.0, head.1 + rest.1)
  }
}
