/** Orders, trades and market events: the values the engine passes around. */
module Types {

  const U32: nat := 0x1_0000_0000
  const U63: int := 0x8000_0000_0000_0000
  const U64: nat := 0x1_0000_0000_0000_0000

  datatype Option<+T> = None | Some(value: T)

  datatype Side = Buy | Sell {
    function Opposite(): Side { if Buy? then Sell else Buy }
  }

  datatype OrderType = Market | Limit | Ioc | Fok

  /** Self-trade prevention policy. */
  datatype StpPolicy = NoStp | CancelNewest | CancelOldest | CancelBoth

  /** Prices are ticks of 1e-6. */
  datatype Order = Order(
    id: nat, trader: nat, symbol: nat, side: Side, kind: OrderType,
    price: int, quantity: nat, remaining: nat, priority: nat)

  /** One execution against a resting order, as that order stood just before it. */
  datatype Fill = Fill(resting: Order, quantity: nat)

  datatype Trade = Trade(
    tradeId: nat, buyId: nat, sellId: nat, buyTrader: nat, sellTrader: nat,
    price: int, quantity: nat)

  /** What is published to subscribers; `Rejected` is never journaled. */
  datatype Event =
    | Accepted(time: nat, sequence: nat, id: nat, symbol: nat, trader: nat, isBuy: bool,
               ticks: int, quantity: nat, remaining: nat, kind: OrderType, priority: nat)
    | Traded(time: nat, sequence: nat, restingId: nat, aggressorId: nat, symbol: nat, trader: nat,
             quantity: nat, ticks: int, aggressorIsBuy: bool)
    | Cancelled(time: nat, sequence: nat, id: nat, symbol: nat, trader: nat, quantity: nat)
    | Rejected(time: nat, sequence: nat, id: nat, symbol: nat, trader: nat)

  function Min(a: nat, b: nat): nat { if a <= b then a else b }
}
