/** Properties of one position's step and of a whole run of the stop manager:
    how the new-order count moves, which orders survive, that a long position
    keeps a protective order, that other symbols are left alone, and that a
    second run after a successful swap is not a no-op. */
module ProtectionProperties {
  import opened Types
  import opened Orders
  import opened Normalize
  import opened Protection

  /** In a well-formed book an id names at most one order. */
  lemma SameIdSameOrder(b: Book, x: Order, y: Order)
    requires WellFormed(b) && x in b.orders && y in b.orders && x.id == y.id
    ensures x == y
  {
    var i :| 0 <= i < |b.orders| && b.orders[i] == x;
    var j :| 0 <= j < |b.orders| && b.orders[j] == y;
    assert i == j;
  }

  /** A symbol none of whose orders are in `os` has no open orders there. */
  lemma OpenForNone(os: seq<Order>, symbol: string)
    requires forall o :: o in os ==> o.symbol != symbol
    ensures OpenFor(os, symbol) == []
  {
  }

  /** The fixed stop found first for a symbol is an open order of that symbol. */
  lemma FirstFixedStopInBook(b: Book, symbol: string)
    requires WellFormed(b)
    requires FirstFixedStop(OpenFor(b.orders, symbol)).Some?
    ensures var sid := FirstFixedStop(OpenFor(b.orders, symbol)).value;
            && sid < b.nextId
            && forall x :: x in b.orders && x.id == sid ==> x.symbol == symbol && IsFixedStop(x)
  {
    var open := OpenFor(b.orders, symbol);
    var sid := FirstFixedStop(open).value;
    var i :| 0 <= i < |open| && open[i].id == sid && IsFixedStop(open[i]);
    assert open[i] in open;
    forall x | x in b.orders && x.id == sid
      ensures x.symbol == symbol && IsFixedStop(x)
    {
      SameIdSameOrder(b, x, open[i]);
    }
  }

  /** Appending an order that is not a fixed stop does not change which fixed
      stop is found first. */
  lemma {:induction false} FirstFixedStopAppend(xs: seq<Order>, t: Order)
    requires !IsFixedStop(t)
    ensures FirstFixedStop(xs + [t]) == FirstFixedStop(xs)
  {
    if xs != [] {
      assert (xs + [t])[1..] == xs[1..] + [t];
      FirstFixedStopAppend(xs[1..], t);
    }
  }

  /** The fixed-stop step only appends fixed stops of the position's symbol,
      so the trailing decision that follows sees the same open trailing stops
      as before it. */
  lemma FixedPhaseKeepsEligibility(b: Book, p: Position, accepted: bool)
    ensures TrailingEligible(FixedPhase(b, p, accepted).0, p) == TrailingEligible(b, p)
  {
    var b1 := FixedPhase(b, p, accepted).0;
    assert b1.orders == b.orders + b1.orders[|b.orders|..];
  }

  /** After the fixed-stop step a position is protected when it was before,
      or when the broker accepts the fixed stop. */
  lemma FixedPhaseProtects(b: Book, p: Position, accepted: bool)
    requires Protected(b.orders, p.symbol) || accepted
    ensures Protected(FixedPhase(b, p, accepted).0.orders, p.symbol)
  {
    var b1 := FixedPhase(b, p, accepted).0;
    var open := OpenFor(b.orders, p.symbol);
    if FirstFixedStop(open).Some? {
      var i :| 0 <= i < |open| && IsFixedStop(open[i]);
      assert open[i] in open;
    } else if accepted {
      var n := b1.orders[|b.orders|];
      assert n in b1.orders;
      assert n in OpenFor(b1.orders, p.symbol);
    }
  }

  /** The fixed-stop step changes no existing order: what it adds carries a
      fresh id. */
  lemma FixedPhaseOnlyAdds(b: Book, p: Position, accepted: bool)
    ensures var r := FixedPhase(b, p, accepted).0;
            && r.nextId >= b.nextId
            && forall x :: x in r.orders ==> x in b.orders || x.id >= b.nextId
  {
    var b1 := FixedPhase(b, p, accepted).0;
    if b1 != b {
      assert b1.orders == b.orders + [b1.orders[|b.orders|]];
    }
  }

  /** The fixed-stop step leaves every other symbol's open orders as they
      were. */
  lemma FixedPhaseFrame(b: Book, p: Position, accepted: bool, s: string)
    requires s != p.symbol
    ensures OpenFor(FixedPhase(b, p, accepted).0.orders, s) == OpenFor(b.orders, s)
  {
    var b1 := FixedPhase(b, p, accepted).0;
    var tail := b1.orders[|b.orders|..];
    assert b1.orders == b.orders + tail;
    OpenForAppend(b.orders, tail, s);
    OpenForNone(tail, s);
  }

  /** Once the broker has accepted the trailing stop, the orders open after the
      trailing step are the trailing stop and those open before it, less the
      first open fixed stop of the symbol when the cancellation succeeds. */
  lemma TrailingPhaseOrders(b: Book, p: Position, o: Outcomes)
    requires WellFormed(b)
    requires TrailingPhase(b, p, o).1 == 1
    ensures TrailingQty(p.qty).Some?
    ensures forall x :: x in TrailingPhase(b, p, o).0.orders <==>
      x == TrailingOrder(b, p)
      || (x in b.orders && (o.cancelAccepted ==> Some(x.id) != FirstFixedStop(OpenFor(b.orders, p.symbol))))
  {
    var tr := TrailingOrder(b, p);
    var placed := PlaceTrailing(b, p.symbol, p.qty, TrailPercent, o.trailingAccepted);
    assert placed.1.Some?;
    assert placed.0.orders == b.orders + [tr];
    var open := OpenFor(b.orders, p.symbol);
    OpenForAppend(b.orders, [tr], p.symbol);
    assert OpenFor(placed.0.orders, p.symbol) == open + [tr];
    FirstFixedStopAppend(open, tr);
    assert forall x :: x in placed.0.orders <==> x in b.orders || x == tr;
    var first := FirstFixedStop(open);
    if first.Some? && o.cancelAccepted {
      var sid := first.value;
      var after := Cancel(placed.0, sid, true);
      assert TrailingPhase(b, p, o).0 == after;
      FirstFixedStopInBook(b, p.symbol);
      assert tr.id != sid;
      forall x ensures x in after.orders <==> x == tr || (x in b.orders && x.id != sid)
      {
        assert x in after.orders <==> x in placed.0.orders && x.id != sid;
      }
    } else if first.Some? {
      assert TrailingPhase(b, p, o).0 == Cancel(placed.0, first.value, false);
    } else {
      assert TrailingPhase(b, p, o).0 == placed.0;
    }
  }

  /** The trailing step cancels nothing but a fixed stop of the position's
      own symbol. */
  lemma TrailingPhaseKeepsOthers(b: Book, p: Position, o: Outcomes)
    requires WellFormed(b)
    ensures forall x :: x in b.orders && !(IsFixedStop(x) && x.symbol == p.symbol) ==> x in TrailingPhase(b, p, o).0.orders
  {
    if TrailingPhase(b, p, o).1 == 1 {
      TrailingPhaseOrders(b, p, o);
      if FirstFixedStop(OpenFor(b.orders, p.symbol)).Some? {
        FirstFixedStopInBook(b, p.symbol);
      }
    }
  }

  /** The trailing step changes no existing order: what it adds carries a
      fresh id. */
  lemma TrailingPhaseOnlyAdds(b: Book, p: Position, o: Outcomes)
    requires WellFormed(b)
    ensures var r := TrailingPhase(b, p, o).0;
            && r.nextId >= b.nextId
            && forall x :: x in r.orders ==> x in b.orders || x.id >= b.nextId
  {
    if TrailingPhase(b, p, o).1 == 1 {
      TrailingPhaseOrders(b, p, o);
      var placed := PlaceTrailing(b, p.symbol, p.qty, TrailPercent, o.trailingAccepted);
      var first := FirstFixedStop(OpenFor(placed.0.orders, p.symbol));
      assert TrailingPhase(b, p, o).0.nextId == placed.0.nextId;
    }
  }

  /** The trailing step keeps a protected position protected. */
  lemma TrailingPhaseKeepsProtection(b: Book, p: Position, o: Outcomes)
    requires WellFormed(b) && Protected(b.orders, p.symbol)
    ensures Protected(TrailingPhase(b, p, o).0.orders, p.symbol)
  {
    var t := TrailingPhase(b, p, o);
    if t.1 == 1 {
      TrailingPhaseOrders(b, p, o);
      var tr := TrailingOrder(b, p);
      assert tr in t.0.orders;
      assert tr in OpenFor(t.0.orders, p.symbol);
    }
  }

  /** The trailing step leaves every other symbol's open orders as they were. */
  lemma TrailingPhaseFrame(b: Book, p: Position, o: Outcomes, s: string)
    requires WellFormed(b) && s != p.symbol
    ensures OpenFor(TrailingPhase(b, p, o).0.orders, s) == OpenFor(b.orders, s)
  {
    if TrailingEligible(b, p) {
      var placed := PlaceTrailing(b, p.symbol, p.qty, TrailPercent, o.trailingAccepted);
      if placed.1.Some? {
        var tr := placed.0.orders[|b.orders|];
        assert placed.0.orders == b.orders + [tr];
        OpenForAppend(b.orders, [tr], s);
        OpenForNone([tr], s);
        var first := FirstFixedStop(OpenFor(placed.0.orders, p.symbol));
        if first.Some? && o.cancelAccepted {
          FirstFixedStopInBook(placed.0, p.symbol);
          RemoveIdOtherSymbol(placed.0.orders, first.value, s);
        }
      }
    }
  }

  /** The new-order count of one position: nothing for a position that is not
      long; otherwise one for a fixed-stop attempt, made exactly when no fixed
      stop is open, plus one when the broker accepts a trailing stop. */
  lemma StepCount(b: Book, p: Position, o: Outcomes)
    ensures Step(b, p, o).1 ==
      if p.qty <= 0.0 then 0
      else (if FirstFixedStop(OpenFor(b.orders, p.symbol)).None? then 1 else 0)
           + (if TrailingEligible(b, p) && TrailingQty(p.qty).Some? && o.trailingAccepted then 1 else 0)
  {
    if p.qty > 0.0 {
      FixedPhaseKeepsEligibility(b, p, o.fixedAccepted);
    }
  }

  /** A position with an open fixed stop and no trailing stop placed for it
      this run is left exactly as it is: the fixed stop is never replaced or
      repriced, and nothing is cancelled. */
  lemma StepLeavesFixedStopAlone(b: Book, p: Position, o: Outcomes)
    requires FirstFixedStop(OpenFor(b.orders, p.symbol)).Some?
    requires !(TrailingEligible(b, p) && TrailingQty(p.qty).Some? && o.trailingAccepted)
    ensures Step(b, p, o).0 == b && Step(b, p, o).1 == 0
  {
    if p.qty > 0.0 {
      assert FixedPhase(b, p, o.fixedAccepted).0 == b;
      assert TrailingPhase(b, p, o).1 == 0;
    }
  }

  /** One position's step never changes an existing order: every order open
      afterwards was open before or is new. */
  lemma StepOnlyAddsOrders(b: Book, p: Position, o: Outcomes)
    requires WellFormed(b)
    ensures forall x :: x in Step(b, p, o).0.orders ==> x in b.orders || x.id >= b.nextId
  {
    if p.qty > 0.0 {
      FixedPhaseOnlyAdds(b, p, o.fixedAccepted);
      TrailingPhaseOnlyAdds(FixedPhase(b, p, o.fixedAccepted).0, p, o);
    }
  }

  /** Every order open before one position's step is still open after it,
      unless it is a fixed stop of the position's own symbol. */
  lemma StepKeepsOtherOrders(b: Book, p: Position, o: Outcomes)
    requires WellFormed(b)
    ensures forall x :: x in b.orders && !(IsFixedStop(x) && x.symbol == p.symbol) ==> x in Step(b, p, o).0.orders
  {
    if p.qty > 0.0 {
      var b1 := FixedPhase(b, p, o.fixedAccepted).0;
      assert b1.orders == b.orders + b1.orders[|b.orders|..];
      TrailingPhaseKeepsOthers(b1, p, o);
    }
  }

  /** A long position that is protected before its step, or whose fixed-stop
      submission the broker would accept, is protected after its step. */
  lemma StepProtects(b: Book, p: Position, o: Outcomes)
    requires WellFormed(b) && p.qty > 0.0
    requires Protected(b.orders, p.symbol) || o.fixedAccepted
    ensures Protected(Step(b, p, o).0.orders, p.symbol)
  {
    var b1 := FixedPhase(b, p, o.fixedAccepted).0;
    FixedPhaseProtects(b, p, o.fixedAccepted);
    TrailingPhaseKeepsProtection(b1, p, o);
  }

  /** One position's step leaves the open orders of every other symbol, in
      their query order, as they were. */
  lemma StepFrame(b: Book, p: Position, o: Outcomes, s: string)
    requires WellFormed(b) && s != p.symbol
    ensures OpenFor(Step(b, p, o).0.orders, s) == OpenFor(b.orders, s)
  {
    if p.qty > 0.0 {
      FixedPhaseFrame(b, p, o.fixedAccepted, s);
      TrailingPhaseFrame(FixedPhase(b, p, o.fixedAccepted).0, p, o, s);
    }
  }

  /** A run leaves the open orders of a symbol that no position has as they
      were. */
  lemma {:induction false} RunFrame(b: Book, ps: seq<Position>, os: seq<Outcomes>, s: string)
    requires WellFormed(b) && |os| == |ps|
    requires forall i :: 0 <= i < |ps| ==> ps[i].symbol != s
    decreases |ps|
    ensures OpenFor(Run(b, ps, os).0.orders, s) == OpenFor(b.orders, s)
  {
    if ps != [] {
      StepFrame(b, ps[0], os[0], s);
      RunFrame(Step(b, ps[0], os[0]).0, ps[1..], os[1..], s);
    }
  }

  /** Protection invariant of a run: when each symbol has one position, every
      long position that was protected before the run, or whose fixed-stop
      submission the broker would accept, is protected after the run. */
  lemma {:induction false} RunProtects(b: Book, ps: seq<Position>, os: seq<Outcomes>)
    requires WellFormed(b) && |os| == |ps|
    requires forall i, j :: 0 <= i < j < |ps| ==> ps[i].symbol != ps[j].symbol
    ensures forall i :: 0 <= i < |ps| && ps[i].qty > 0.0 && (Protected(b.orders, ps[i].symbol) || os[i].fixedAccepted)
                        ==> Protected(Run(b, ps, os).0.orders, ps[i].symbol)
    decreases |ps|
  {
    if ps != [] {
      var b1 := Step(b, ps[0], os[0]).0;
      RunProtects(b1, ps[1..], os[1..]);
      forall i | 0 <= i < |ps| && ps[i].qty > 0.0 && (Protected(b.orders, ps[i].symbol) || os[i].fixedAccepted)
        ensures Protected(Run(b, ps, os).0.orders, ps[i].symbol)
      {
        if i == 0 {
          StepProtects(b, ps[0], os[0]);
          RunFrame(b1, ps[1..], os[1..], ps[0].symbol);
        } else {
          StepFrame(b, ps[0], os[0], ps[i].symbol);
          assert ps[1..][i - 1] == ps[i] && os[1..][i - 1] == os[i];
        }
      }
    }
  }

  /** A run from position `i` on is that position's step followed by the run
      from the next position on. */
  lemma RunFrom(b: Book, ps: seq<Position>, os: seq<Outcomes>, i: nat)
    requires |os| == |ps| && i < |ps|
    ensures var step := Step(b, ps[i], os[i]);
            && Run(b, ps[i..], os[i..]).0 == Run(step.0, ps[i + 1..], os[i + 1..]).0
            && Run(b, ps[i..], os[i..]).1 == step.1 + Run(step.0, ps[i + 1..], os[i + 1..]).1
  {
    assert ps[i..][1..] == ps[i + 1..] && os[i..][1..] == os[i + 1..];
  }

  /** A run over one position is that position's step. */
  lemma RunSingle(b: Book, p: Position, o: Outcomes)
    ensures Run(b, [p], [o]).0 == Step(b, p, o).0 && Run(b, [p], [o]).1 == Step(b, p, o).1
  {
    assert [p][1..] == [] && [o][1..] == [];
  }

  /** The first run over a long position of at least one share that is up 5%
      or more and has no open orders, with every call accepted, counts two new
      orders, and afterwards the only open order of the symbol is the trailing
      stop it placed: the fixed stop it placed is cancelled again. */
  lemma SwapFromNothing(b: Book, p: Position)
    requires WellFormed(b)
    requires p.qty >= 1.0 && p.plpc.Some? && p.plpc.value >= ActivationMinGain
    requires OpenFor(b.orders, p.symbol) == []
    ensures TrailingQty(p.qty).Some?
    ensures var r := Step(b, p, Outcomes(true, true, true));
            && r.1 == 2 && WellFormed(r.0)
            && forall x :: x in OpenFor(r.0.orders, p.symbol) <==> x == TrailingOrder(FixedPhase(b, p, true).0, p)
  {
    var all := Outcomes(true, true, true);
    var f := FixedPhase(b, p, true).0;
    var n := f.orders[|b.orders|];
    assert f.orders == b.orders + [n];
    OpenForAppend(b.orders, [n], p.symbol);
    assert OpenFor([n], p.symbol) == [n];
    assert OpenFor(f.orders, p.symbol) == [n];
    assert TrailingEligible(f, p);
    assert TrailingPhase(f, p, all).1 == 1;
    TrailingPhaseOrders(f, p, all);
    var after := Step(b, p, all).0;
    assert after == TrailingPhase(f, p, all).0;
    var tr := TrailingOrder(f, p);
    forall x ensures x in OpenFor(after.orders, p.symbol) <==> x == tr
    {
      if x in f.orders && x.symbol == p.symbol {
        assert x in OpenFor(f.orders, p.symbol);
      }
    }
  }

  /** The first run of `SwapFromNothing` over a fractional quantity leaves the
      fractional rest of the position without a protective order: the only
      protective order of the symbol is the trailing stop, for the whole shares
      under the quantity. */
  lemma RemainderUnprotected(b: Book, p: Position)
    requires WellFormed(b)
    requires p.qty >= 1.0 && p.plpc.Some? && p.plpc.value >= ActivationMinGain
    requires OpenFor(b.orders, p.symbol) == []
    requires !IsWhole(p.qty)
    ensures forall x :: x in OpenFor(Step(b, p, Outcomes(true, true, true)).0.orders, p.symbol)
                        && (IsFixedStop(x) || IsTrailingStop(x))
                        ==> x.qty == p.qty.Floor as real && x.qty < p.qty
  {
    SwapFromNothing(b, p);
  }

  /** The first run of `SwapFromNothing` leaves a trailing stop and no fixed
      stop open for the symbol. */
  lemma SwapLeavesTrailingOnly(b: Book, p: Position)
    requires WellFormed(b)
    requires p.qty >= 1.0 && p.plpc.Some? && p.plpc.value >= ActivationMinGain
    requires OpenFor(b.orders, p.symbol) == []
    ensures var r := Step(b, p, Outcomes(true, true, true));
            && (exists y :: y in OpenFor(r.0.orders, p.symbol) && IsTrailingStop(y))
            && (forall x :: x in OpenFor(r.0.orders, p.symbol) ==> !IsFixedStop(x))
  {
    SwapFromNothing(b, p);
    assert TrailingOrder(FixedPhase(b, p, true).0, p) in OpenFor(Step(b, p, Outcomes(true, true, true)).0.orders, p.symbol);
  }

  /** A symbol protected only by a trailing stop gets a new fixed stop on every
      run: the fixed stop is looked for and not found, so one is submitted
      beside the trailing stop, and no second trailing stop is placed. */
  lemma TrailingOnlyGetsFixedStop(b: Book, p: Position, o: Outcomes)
    requires p.qty > 0.0 && o.fixedAccepted
    requires AnyTrailing(OpenFor(b.orders, p.symbol))
    requires forall x :: x in OpenFor(b.orders, p.symbol) ==> !IsFixedStop(x)
    ensures var r := Step(b, p, o);
            && r.1 == 1
            && (exists x :: x in OpenFor(r.0.orders, p.symbol) && IsFixedStop(x))
            && (exists y :: y in OpenFor(r.0.orders, p.symbol) && IsTrailingStop(y))
  {
    var f := FixedPhase(b, p, true).0;
    var n := f.orders[|b.orders|];
    assert f.orders == b.orders + [n];
    assert n in f.orders && n in OpenFor(f.orders, p.symbol);
    assert !TrailingEligible(b, p);
    FixedPhaseKeepsEligibility(b, p, true);
    assert Step(b, p, o).0 == f;
    var y :| y in OpenFor(b.orders, p.symbol) && IsTrailingStop(y);
    assert y in f.orders && y in OpenFor(f.orders, p.symbol);
  }

  /** A run is not idempotent. Take a long position of at least one share that
      is up 5% or more and has no open orders, and let the broker accept every
      call: the first run places a fixed stop, places a trailing stop and
      cancels the fixed stop (two new orders). The second run finds no fixed
      stop, so it places another one beside the trailing stop (one new order)
      and leaves the symbol with both a fixed and a trailing stop open. */
  lemma NotIdempotent(b: Book, p: Position)
    requires WellFormed(b)
    requires p.qty >= 1.0 && p.plpc.Some? && p.plpc.value >= ActivationMinGain
    requires OpenFor(b.orders, p.symbol) == []
    ensures var all := Outcomes(true, true, true);
            var first := Run(b, [p], [all]);
            var second := Run(first.0, [p], [all]);
            && first.1 == 2 && second.1 == 1
            && (exists x :: x in OpenFor(second.0.orders, p.symbol) && IsFixedStop(x))
            && (exists y :: y in OpenFor(second.0.orders, p.symbol) && IsTrailingStop(y))
  {
    var all := Outcomes(true, true, true);
    RunSingle(b, p, all);
    SwapFromNothing(b, p);
    SwapLeavesTrailingOnly(b, p);
    var b1 := Step(b, p, all).0;
    RunSingle(b1, p, all);
    TrailingOnlyGetsFixedStop(b1, p, all);
  }
}
