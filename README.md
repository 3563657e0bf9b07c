# Stop manager for a broker account, modelled in Dafny

`manage_stops.py` is a script that runs once over all positions of a broker
account. For each long position it makes sure a protective order is open:

- If no fixed stop-loss (a SELL STOP) is open for the symbol, it submits one
  10% under the average entry price, rounded to cents.
  - A fractional quantity gets a DAY order and a whole one a GTC order.
- Once the unrealized P/L reaches +5% and no trailing stop is open for the
  symbol, it submits an 8% SELL TRAILING_STOP.
  - The trailing stop is for whole shares only: a fractional quantity is
    rounded down, and nothing is sent when that leaves no share.
  - Only after the broker has accepted the trailing stop does the script
    cancel the first open fixed stop of the symbol.

A submission or a cancellation may fail. Each such failure is swallowed, and
the run goes on. The two listings behave differently: the positions
(line 119) and a symbol's open orders (line 46) are read outside any `try`,
so a failure there ends the run.

The run counts its new orders as follows:
- Every fixed-stop attempt counts, whether or not the broker accepts it.
- A trailing stop counts only when the broker accepts it.

The script keeps no state of its own between runs.

The model has seven modules:

- `Types` (`types.dfy`): the option type and the time in force, shared by the
  modules below.
- `Orders` (`orders.dfy`): orders and the open-order book. It holds the
  per-symbol query, the search for the first fixed stop, and what the broker
  does on a submission or a cancellation.
- `Normalize` (`normalize.dfy`): the helpers `_round2`, `es_fraccional` and
  `tif_para_stop`, and the whole-share quantity of a trailing stop.
- `Protection` (`protection.dfy`): the constants, and one position's step and
  a whole run as pure functions of the book. These functions are the
  reference definition the methods are proved against.
- `ProtectionProperties` (`protection_properties.dfy`): lemmas about steps
  and runs. They cover:
  - the new-order count;
  - which orders survive;
  - that a long position stays protected, where "protected" means that some
    SELL STOP or SELL TRAILING_STOP is open for the symbol, whatever its
    quantity;
  - that other symbols are untouched;
  - that a run is not idempotent.
- `Client` (`client.dfy`): the trading client as a class whose fields are
  the account's open orders. Each submission and cancellation takes the
  broker's answer (accepted or not) as an argument.
- `ManageStops` (`manage_stops.dfy`): the script's functions and the
  per-position loop of `main` as methods on that client.
  - The two searches, `HasTrailing` and `FixedStopId`, change nothing. Each is
    proved to return what `Orders.AnyTrailing` or `Orders.FirstFixedStop`
    gives for the symbol's open orders.
  - `CancelOrder` is proved to change the account as `Orders.Cancel` says.
  - Every other method is proved to change the account, and to return the
    count or id, exactly as the matching function of `Protection` says.

The code does several things that differ from a stricter design of the same
tool. The model follows the code:

- A swap has no rollback.
- The trailing stop is submitted before the fixed stop is cancelled.
- Nothing cleans up a fixed stop that sits beside a trailing stop.
- The script's own comment at line 88 says that the fractional rest of a
  position stays covered by the fixed stop. The code does not keep that
  promise, because it cancels the fixed stop once the whole-share trailing
  stop is accepted (lines 148-153). `ProtectionProperties.RemainderUnprotected`
  shows the result: after the first swap of a position of, say, 2.7 shares,
  the only protective order of the symbol is a trailing stop for 2 shares.
- A run is not idempotent. `ProtectionProperties.NotIdempotent` shows a second
  run that adds a fixed stop beside the trailing stop that the first run
  placed. After that run the symbol holds both kinds of stop.

## Model

| member | source | states |
|---|---|---|
| Normalize.Round2 | manage_stops.py:34-35 | the result is a whole number of cents at most half a cent from the input; a result exactly half a cent away lies further from zero (ROUND_HALF_UP) |
| Normalize.RoundCents | manage_stops.py:35 | the number of cents is within half a cent of the amount, with ties away from zero |
| Normalize.Round2Unique | manage_stops.py:34-35 | any whole number of cents that meets Round2's rounding rule equals Round2, so the contract fixes the rounding |
| Normalize.Round2Examples | manage_stops.py:34-35 | 19.995 rounds to 20.00, 19.994 to 19.99, -19.995 to -20.00 and 90 to 90.00 |
| Normalize.Trunc | manage_stops.py:38 | `int()` drops the fractional part towards zero: the magnitude is at most the input's, within one of it, and has the same sign |
| Normalize.TruncExact | manage_stops.py:38 | truncation leaves a number unchanged exactly when it is whole |
| Normalize.IsFractional | manage_stops.py:37-38 | a quantity is fractional if and only if it is not a whole number |
| Normalize.TifForStop | manage_stops.py:40-42 | DAY exactly for a fractional quantity, GTC exactly for a whole one |
| Normalize.TrailingQty | manage_stops.py:90-100 | a whole quantity is kept; a fractional one becomes the whole number just under it; there is no trailing quantity exactly when a fractional quantity is under one share |
| Orders.OpenFor | manage_stops.py:44-46 | the open orders of a symbol are exactly the account's orders with that symbol, in the broker's order |
| Orders.FirstFixedStop | manage_stops.py:54-58 | None exactly when no SELL STOP is among the orders; otherwise the id of the SELL STOP at the lowest index |
| Orders.FirstFixedStopAt | manage_stops.py:54-58 | a SELL STOP with no SELL STOP before it is the one found |
| Orders.Submit | manage_stops.py:78 | an accepted submission appends a SELL order under a fresh id and returns that id; a refused one changes nothing and returns none; ids stay unique |
| Orders.Cancel | manage_stops.py:62 | an accepted cancellation removes exactly the order with that id; a refused one leaves the book, including its order, exactly as it was; ids stay unique |
| Orders.RemoveId | manage_stops.py:62 | the remaining orders are exactly those whose id differs |
| Orders.RemoveIdAppend | manage_stops.py:62 | removing by id distributes over concatenation, so the remaining orders keep their relative order |
| Orders.RemoveIdAbsent | manage_stops.py:62 | removing an id that no order carries changes nothing |
| Orders.RemoveIdAt | manage_stops.py:62 | removing the id of the order at index i, which no other order carries, leaves exactly the orders before and after it, in their order |
| Orders.CancelRemovesAt | manage_stops.py:60-65 | an accepted cancellation in a well-formed book leaves exactly the other orders, in their order |
| Orders.RemoveIdKeepsDistinct | manage_stops.py:62 | removing an order keeps ids unique and below the next id |
| Orders.RemoveIdOtherSymbol | manage_stops.py:62 | removing an order of another symbol leaves a symbol's open orders and their order as they were |
| Orders.OpenForAppend | manage_stops.py:44-46 | the per-symbol query distributes over concatenation |
| Client.Broker.OpenOrders | manage_stops.py:44-46 | the open orders listed for a symbol are exactly the account's orders of that symbol |
| Client.Broker.SubmitOrder | manage_stops.py:78 | the account's new orders and the returned id are those of `Orders.Submit` |
| Client.Broker.CancelOrderById | manage_stops.py:62 | the account's new orders are those of `Orders.Cancel` |
| ManageStops.HasTrailing | manage_stops.py:48-52 | true exactly when some open order of the symbol is a SELL TRAILING_STOP |
| ManageStops.FixedStopId | manage_stops.py:54-58 | the id of the first open SELL STOP of the symbol; none exactly when the symbol has no open SELL STOP |
| ManageStops.CancelOrder | manage_stops.py:60-65 | the account changes as `Orders.Cancel` says, and a refusal changes nothing |
| ManageStops.SendFixedStop | manage_stops.py:68-81 | the account changes as `Protection.PlaceFixedStop` says |
| ManageStops.SendTrailing | manage_stops.py:83-115 | the account and the returned id are those of `Protection.PlaceTrailing` |
| ManageStops.EnsureFixedStop | manage_stops.py:131-137 | the account and the count are those of `Protection.FixedPhase` |
| ManageStops.SwapToTrailing | manage_stops.py:139-160 | the account and the count are those of `Protection.TrailingPhase` |
| ManageStops.ProtectPosition | manage_stops.py:123-160 | the account and the count are those of `Protection.Step` |
| ManageStops.RunOnce | manage_stops.py:118-162 | the account and the count of new orders are those of `Protection.Run` over the positions in the broker's order |
| Protection.StopPriceFor | manage_stops.py:129 | the fixed-stop price is the average entry less a tenth of it, and is not above a non-negative entry |
| Protection.PlaceFixedStop | manage_stops.py:68-81 | when accepted, one SELL STOP is appended for the symbol: its quantity is the full quantity, its price is the stop price rounded to cents, and it is DAY exactly for a fractional quantity; when refused, nothing changes |
| Protection.PlaceTrailing | manage_stops.py:83-115 | an id comes back exactly when the broker accepts and the quantity is not a fraction under one share; then one GTC SELL TRAILING_STOP with the given trail is appended for the quantity, rounded down when fractional; otherwise nothing changes |
| Protection.FixedPhase | manage_stops.py:129-137 | counts one attempt exactly when no fixed stop is open; leaves the book as it is when one is open or the broker refuses; otherwise appends exactly one SELL STOP under the next id, for the full position quantity, at the stop price 10% under the average entry rounded to cents, with the time in force `TifForStop` gives for that quantity |
| Protection.TrailingPhase | manage_stops.py:139-160 | counts one order exactly when the P/L reaches +5%, no trailing stop is open, a whole share remains and the broker accepts; counts nothing and changes nothing otherwise; with a refused cancellation the only change is the appended trailing stop |
| Protection.Step | manage_stops.py:122-160 | a position that is not long is skipped with no change; ids stay unique; at most two new orders are counted |
| Protection.Run | manage_stops.py:118-162 | ids stay unique; at most two new orders are counted per position |
| ProtectionProperties.SameIdSameOrder | manage_stops.py:57 | in a well-formed book an id names one order |
| ProtectionProperties.OpenForNone | manage_stops.py:44-46 | a symbol with no orders has an empty query |
| ProtectionProperties.FirstFixedStopInBook | manage_stops.py:151-153 | the id found is below the next id, and every order with it is a fixed stop of the symbol |
| ProtectionProperties.FirstFixedStopAppend | manage_stops.py:147-151 | appending an order that is not a fixed stop does not change which fixed stop is found first |
| ProtectionProperties.FixedPhaseKeepsEligibility | manage_stops.py:131-146 | the fixed-stop block does not change whether the trailing block is entered |
| ProtectionProperties.FixedPhaseProtects | manage_stops.py:131-137 | after the fixed-stop block a position is protected if it was before or if the broker accepts the stop |
| ProtectionProperties.FixedPhaseOnlyAdds | manage_stops.py:131-137 | the fixed-stop block changes no existing order, and what it adds has a fresh id |
| ProtectionProperties.FixedPhaseFrame | manage_stops.py:131-137 | the fixed-stop block leaves other symbols' open orders as they were |
| ProtectionProperties.TrailingPhaseOrders | manage_stops.py:145-153 | after an accepted trailing stop, the open orders are the trailing stop plus the earlier orders, less the first fixed stop of the symbol when the cancellation succeeds |
| ProtectionProperties.TrailingPhaseKeepsOthers | manage_stops.py:145-153 | the trailing block removes nothing but a fixed stop of the position's own symbol |
| ProtectionProperties.TrailingPhaseOnlyAdds | manage_stops.py:145-153 | the trailing block changes no existing order, and what it adds has a fresh id |
| ProtectionProperties.TrailingPhaseKeepsProtection | manage_stops.py:145-153 | the trailing block never leaves a protected position unprotected, because the trailing stop is in place before the fixed stop is cancelled |
| ProtectionProperties.TrailingPhaseFrame | manage_stops.py:145-153 | the trailing block leaves other symbols' open orders as they were |
| ProtectionProperties.StepCount | manage_stops.py:120-149 | the count for one position: zero if it is not long; otherwise one when no fixed stop is open, plus one when the broker accepts a trailing stop |
| ProtectionProperties.StepLeavesFixedStopAlone | manage_stops.py:132-137 | an open fixed stop is never repriced or replaced: with no trailing stop placed, the step changes nothing and counts nothing |
| ProtectionProperties.StepOnlyAddsOrders | manage_stops.py:122-160 | every order open after a step was open before or is new |
| ProtectionProperties.StepKeepsOtherOrders | manage_stops.py:122-160 | every earlier order survives a step unless it is a fixed stop of the position's symbol |
| ProtectionProperties.StepProtects | manage_stops.py:122-160 | a long position that was protected, or whose fixed stop the broker accepts, is protected after its step |
| ProtectionProperties.StepFrame | manage_stops.py:122-160 | a step leaves other symbols' open orders and their order as they were |
| ProtectionProperties.RunFrame | manage_stops.py:122-160 | a run leaves the open orders of a symbol that no position has as they were |
| ProtectionProperties.RunProtects | manage_stops.py:118-162 | with one position per symbol, every long position that was protected, or whose fixed stop the broker accepts, is protected after the run |
| ProtectionProperties.RunFrom | manage_stops.py:122 | a run from one position on is that position's step followed by the run from the next position on |
| ProtectionProperties.RunSingle | manage_stops.py:122 | a run over one position is that position's step |
| ProtectionProperties.SwapFromNothing | manage_stops.py:131-153 | for a position of at least one share up 5% or more with no open orders, when every call is accepted the first run counts two orders, and afterwards the only open order of the symbol is the trailing stop it placed |
| ProtectionProperties.SwapLeavesTrailingOnly | manage_stops.py:131-153 | after that first run the symbol has a trailing stop and no fixed stop open |
| ProtectionProperties.RemainderUnprotected | manage_stops.py:148-153 | after that first run for a fractional quantity, every protective order of the symbol is for the whole shares under the quantity, so the fractional rest has no protective order |
| ProtectionProperties.TrailingOnlyGetsFixedStop | manage_stops.py:131-155 | a symbol protected only by a trailing stop gets a new fixed stop beside it on every run, counted as one new order |
| ProtectionProperties.NotIdempotent | manage_stops.py:118-162 | two runs in a row with every call accepted count two and then one new order, and leave both a fixed and a trailing stop open |

## Left out

- The trading client's network calls, credentials and paper-trading setup are left out. The open orders are a field of `Client.Broker`, and whether the broker accepts each call is an argument.
- The printed log lines and the final printed total are left out; `RunOnce` returns the total instead.
- Floating point is not modelled: prices and quantities are exact rationals. Binary-float artefacts are therefore absent, such as `Decimal(x)` of a float sitting just under a half cent, or `avg_entry * 0.9` being inexact.
- The three switches at lines 23-26 are constant True, so only their True branches are modelled. The branch at lines 98-100, which skips fractional trailing stops, is dead code and is left out.
- The broker is assumed to list open orders in the order they were placed and to append a new order at the end. The real listing order and the broker's eventual consistency are not modelled.
- Order ids are modelled as numbers that are always present. The truthiness tests at lines 148 and 152 are therefore modelled as "an id came back".
- A P/L that does not read as a number is the position's `plpc` being None. Parsing the broker's text is not modelled.
- The listing of positions (line 119) is the input sequence of `RunOnce`. Each position has one `Outcomes` value, which says whether the broker accepts its fixed-stop submission, its trailing-stop submission and its cancellation.
- Failure of the position listing and the open-order queries themselves is not modelled. The code does not catch it, so such a failure ends the run.
- A submission or cancellation that raises is assumed to leave the account unchanged. An order the broker placed or cancelled whose answer was then lost is not modelled. Each of `Orders.Submit`, `Orders.Cancel`, `Protection.TrailingPhase` and `Protection.FixedPhase` relies on this when it says that a refusal changes nothing.
- build_dashboard.py is not part of this model.
