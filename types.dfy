/** Small value types shared by the order book and the price and quantity
    helpers. */
module Types {

  datatype Option<T> = None | Some(value: T)

  /** Time in force: DAY orders expire at the end of the session, GTC orders
      stay until filled or cancelled. */
  datatype TimeInForce = Day | Gtc
}
