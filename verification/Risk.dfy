/** Pre-trade risk: reservations per order, working totals and net position per trader and symbol. */
module Risk {
  import opened Types

  datatype Key = Key(trader: nat, symbol: nat)
  datatype Position = Position(net: int, buy: nat, sell: nat)
  datatype Reservation = Reservation(trader: nat, symbol: nat, side: Side, quantity: nat)

  datatype Reason =
    | NoReason | InvalidSymbol | InvalidQuantity | OrderTooLarge | PositionLimitExceeded | PriceBandViolation
    | InvalidPrice | StateViolation | StateCorrupt

  datatype Risk = Risk(positions: map<Key, Position>, orders: map<nat, Reservation>,
                       maxOrder: nat, maxPosition: nat, corrupt: bool)

  const FLAT: Position := Position(0, 0, 0)

  function KeyOf(v: Reservation): Key { Key(v.trader, v.symbol) }

  function At(r: Risk, k: Key): Position { if k in r.positions then r.positions[k] else FLAT }

  function Working(p: Position, side: Side): nat { if side.Buy? then p.buy else p.sell }

  function WithWorking(p: Position, side: Side, n: nat): Position {
    if side.Buy? then p.(buy := n) else p.(sell := n)
  }

  // ----- checked 64-bit arithmetic ------------------------------------------------------------------------

  predicate IsI64(v: int) { -U63 <= v < U63 }

  function AddI64(a: int, b: int): Option<int> { if IsI64(a + b) then Some(a + b) else None }

  function AddU64(a: nat, b: nat): Option<nat> { if a + b < U64 then Some(a + b) else None }

  /** Conversion of an unsigned to a signed 64-bit integer wraps. */
  function AsI64(u: nat): int { if u < U63 then u else u - U64 }

  /** The guards of the checked addition are exact: it refuses just the sums that do not fit. */
  method CanAddSigned(a: int, b: int) returns (r: Option<int>)
    requires IsI64(a) && IsI64(b)
    ensures r == AddI64(a, b)
  {
    if b > 0 && a > U63 - 1 - b {
      return None;
    }
    if b < 0 && a < -U63 - b {
      return None;
    }
    return Some(a + b);
  }

  method CanSubSigned(a: int, b: int) returns (r: Option<int>)
    requires IsI64(a) && IsI64(b)
    ensures r == AddI64(a, -b)
  {
    if b > 0 && a < -U63 + b {
      return None;
    }
    if b < 0 && a > U63 - 1 + b {
      return None;
    }
    return Some(a - b);
  }

  // ----- admission ------------------------------------------------------------------------------------------

  /** `market` is the verdict of the symbol and price checks, which look at neither positions nor reservations. */
  function CheckFields(maxOrder: nat, o: Order, market: Reason): Reason {
    if o.quantity == 0 then InvalidQuantity else if o.quantity > maxOrder then OrderTooLarge else market
  }

  /** The signed exposure `net ± working ± more` stays within the limit, in 64-bit arithmetic. */
  predicate Projects(net: int, working: int, side: Side, more: nat, limit: int) {
    var sign := if side.Buy? then 1 else -1;
    var a := AddI64(net, sign * working);
    a.Some? && var b := AddI64(a.value, sign * more);
    b.Some? && (if side.Buy? then b.value <= limit else b.value >= -limit)
  }

  function Validate(r: Risk, o: Order, market: Reason): Reason {
    if r.corrupt then StateCorrupt
    else if CheckFields(r.maxOrder, o, market) != NoReason then CheckFields(r.maxOrder, o, market)
    else
      var p := At(r, Key(o.trader, o.symbol));
      if Projects(p.net, AsI64(Working(p, o.side)), o.side, o.quantity, r.maxPosition) then NoReason
      else PositionLimitExceeded
  }

  function ValidateReplace(r: Risk, id: nat, o: Order, market: Reason): Reason {
    if r.corrupt then StateCorrupt
    else if CheckFields(r.maxOrder, o, market) != NoReason then CheckFields(r.maxOrder, o, market)
    else if id !in r.orders then StateViolation
    else
      var v := r.orders[id];
      if v.trader != o.trader || v.symbol != o.symbol || v.side != o.side then StateViolation
      else
        var p := At(r, Key(o.trader, o.symbol));
        var w := Working(p, o.side);
        if v.quantity > w then StateCorrupt
        else
          var projected := AddU64(w - v.quantity, o.quantity);
          if projected.Some? && Projects(p.net, AsI64(projected.value), o.side, 0, r.maxPosition) then NoReason
          else PositionLimitExceeded
  }

  // ----- transitions ----------------------------------------------------------------------------------------

  predicate CanReserve(r: Risk, o: Order, remaining: nat, enforce: bool) {
    && !r.corrupt && 0 < remaining <= o.quantity && o.kind.Limit? && o.id !in r.orders
    && var w := AddU64(Working(At(r, Key(o.trader, o.symbol)), o.side), remaining);
       w.Some? && (enforce ==> w.value <= r.maxPosition)
  }

  function Reserve(r: Risk, o: Order, remaining: nat): Risk {
    var k := Key(o.trader, o.symbol);
    var p := At(r, k);
    r.(orders := r.orders[o.id := Reservation(o.trader, o.symbol, o.side, remaining)],
       positions := r.positions[k := WithWorking(p, o.side, Working(p, o.side) + remaining)])
  }

  /** Entries that have become flat are dropped. */
  function SetPosition(ps: map<Key, Position>, k: Key, p: Position): map<Key, Position> {
    if p == FLAT then ps - {k} else ps[k := p]
  }

  function SetReserved(os: map<nat, Reservation>, id: nat, v: Reservation): map<nat, Reservation> {
    if v.quantity == 0 then os - {id} else os[id := v]
  }

  /** Takes `n` out of a reservation, moving the net position by `moved`. */
  function Release(r: Risk, id: nat, n: nat, moved: int): Risk
    requires id in r.orders && n <= r.orders[id].quantity && n <= Working(At(r, KeyOf(r.orders[id])), r.orders[id].side)
  {
    var v := r.orders[id];
    var p := At(r, KeyOf(v));
    r.(orders := SetReserved(r.orders, id, v.(quantity := v.quantity - n)),
       positions := SetPosition(r.positions, KeyOf(v),
                                WithWorking(p, v.side, Working(p, v.side) - n).(net := p.net + moved)))
  }

  predicate CanRelease(r: Risk, id: nat, n: nat) { !r.corrupt && n > 0 && id in r.orders && n <= r.orders[id].quantity }

  function FillMove(v: Reservation, n: nat): int { if v.side.Buy? then n else 0 - n }

  predicate CanFill(r: Risk, id: nat, n: nat) {
    CanRelease(r, id, n) && IsI64(At(r, KeyOf(r.orders[id])).net + FillMove(r.orders[id], n))
  }

  // ----- the two maps agree ------------------------------------------------------------------------------------

  function Weight(v: Reservation, k: Key, side: Side): nat {
    if KeyOf(v) == k && v.side == side then v.quantity else 0
  }

  /** Total reserved for a key and side. */
  ghost function Reserved(os: map<nat, Reservation>, k: Key, side: Side): nat
    decreases |os|
  {
    if os == map[] then 0
    else
      var id :| id in os;
      Weight(os[id], k, side) + Reserved(os - {id}, k, side)
  }

  /** Working totals are the sums of the reservations, no flat entry survives, and everything is in range. */
  ghost predicate Consistent(r: Risk) {
    && (forall k: Key, side: Side :: Working(At(r, k), side) == Reserved(r.orders, k, side) < U64)
    && (forall k <- r.positions :: r.positions[k] != FLAT && IsI64(r.positions[k].net))
    && (forall id <- r.orders :: 0 < r.orders[id].quantity < U32)
  }

  lemma {:induction false} ReservedSplit(os: map<nat, Reservation>, id: nat, k: Key, side: Side)
    requires id in os
    ensures Reserved(os, k, side) == Weight(os[id], k, side) + Reserved(os - {id}, k, side)
    decreases |os|
  {
    var x :| x in os && Reserved(os, k, side) == Weight(os[x], k, side) + Reserved(os - {x}, k, side);
    if x != id {
      ReservedSplit(os - {x}, id, k, side);
      ReservedSplit(os - {id}, x, k, side);
      assert os - {x} - {id} == os - {id} - {x};
    }
  }

  lemma ReservedInsert(os: map<nat, Reservation>, id: nat, v: Reservation, k: Key, side: Side)
    requires id !in os
    ensures Reserved(os[id := v], k, side) == Weight(v, k, side) + Reserved(os, k, side)
  {
    ReservedSplit(os[id := v], id, k, side);
    assert os[id := v] - {id} == os;
  }

  lemma ReservedSet(os: map<nat, Reservation>, id: nat, v: Reservation, k: Key, side: Side)
    requires id in os
    ensures Reserved(SetReserved(os, id, v), k, side)
            == Reserved(os, k, side) - Weight(os[id], k, side) + Weight(v, k, side)
  {
    ReservedSplit(os, id, k, side);
    if v.quantity > 0 {
      ReservedSplit(os[id := v], id, k, side);
      assert os[id := v] - {id} == os - {id};
    }
  }

  /** A reservation is part of the working total it was counted in. */
  lemma ReservedCovers(r: Risk, id: nat)
    requires Consistent(r) && id in r.orders
    ensures var v := r.orders[id];
            v.quantity <= Working(At(r, KeyOf(v)), v.side) && KeyOf(v) in r.positions
  {
    var v := r.orders[id];
    ReservedSplit(r.orders, id, KeyOf(v), v.side);
  }

  // ----- every transition keeps the maps in agreement ----------------------------------------------------------

  lemma ReserveKeeps(r: Risk, o: Order, remaining: nat, enforce: bool)
    requires Consistent(r) && CanReserve(r, o, remaining, enforce) && remaining < U32
    ensures Consistent(Reserve(r, o, remaining))
  {
    var r' := Reserve(r, o, remaining);
    var v := Reservation(o.trader, o.symbol, o.side, remaining);
    forall k: Key, side: Side ensures Working(At(r', k), side) == Reserved(r'.orders, k, side) < U64 {
      ReservedInsert(r.orders, o.id, v, k, side);
      assert Working(At(r, k), side) == Reserved(r.orders, k, side) < U64;
    }
  }

  lemma ReleaseKeeps(r: Risk, id: nat, n: nat, moved: int)
    requires Consistent(r) && CanRelease(r, id, n) && IsI64(At(r, KeyOf(r.orders[id])).net + moved)
    ensures n <= Working(At(r, KeyOf(r.orders[id])), r.orders[id].side)
    ensures Consistent(Release(r, id, n, moved))
  {
    ReservedCovers(r, id);
    var r', v := Release(r, id, n, moved), r.orders[id];
    forall k: Key, side: Side ensures Working(At(r', k), side) == Reserved(r'.orders, k, side) < U64 {
      ReservedSet(r.orders, id, v.(quantity := v.quantity - n), k, side);
      assert Working(At(r, k), side) == Reserved(r.orders, k, side) < U64;
    }
  }

  // ----- live operation ------------------------------------------------------------------------------------------

  function Resting(r: Risk, o: Order, remaining: nat, enforce: bool): Risk {
    if CanReserve(r, o, remaining, enforce) then Reserve(r, o, remaining) else r
  }

  function Fill(r: Risk, id: nat, n: nat): Risk {
    if CanFill(r, id, n) && n <= Working(At(r, KeyOf(r.orders[id])), r.orders[id].side)
    then Release(r, id, n, FillMove(r.orders[id], n)) else r
  }

  function Cancel(r: Risk, id: nat, n: nat): Risk {
    if CanRelease(r, id, n) && n <= Working(At(r, KeyOf(r.orders[id])), r.orders[id].side)
    then Release(r, id, n, 0) else r
  }

  lemma FillKeeps(r: Risk, id: nat, n: nat)
    requires Consistent(r)
    ensures Consistent(Fill(r, id, n))
  {
    if CanFill(r, id, n) { ReleaseKeeps(r, id, n, FillMove(r.orders[id], n)); }
  }

  lemma CancelKeeps(r: Risk, id: nat, n: nat)
    requires Consistent(r)
    ensures Consistent(Cancel(r, id, n))
  {
    if CanRelease(r, id, n) {
      ReservedCovers(r, id);
      ReleaseKeeps(r, id, n, 0);
    }
  }

  // ----- what each transition does, entry by entry ---------------------------------------------------------------

  function Signed(side: Side, n: nat): int { if side == Buy then n else 0 - n }

  /** The reservation and its totals cover the fill, and the new position fits in 64 bits. */
  predicate FillAccepted(r: Risk, id: nat, n: nat) {
    && CancelAccepted(r, id, n)
    && -U63 <= At(r, Key(r.orders[id].trader, r.orders[id].symbol)).net + Signed(r.orders[id].side, n) < U63
  }

  predicate CancelAccepted(r: Risk, id: nat, n: nat) {
    && !r.corrupt && id in r.orders && 0 < n <= r.orders[id].quantity
    && n <= Working(At(r, Key(r.orders[id].trader, r.orders[id].symbol)), r.orders[id].side)
  }

  /** `r'` differs from `r` in the reservation `id`, now `left`, and in one key, whose net has moved by `net` and whose
      working total on one side by `working`. */
  ghost predicate Moved(r: Risk, r': Risk, id: nat, v: Reservation, left: int, net: int, working: int) {
    && r'.maxOrder == r.maxOrder && r'.maxPosition == r.maxPosition && r'.corrupt == r.corrupt
    && (forall x :: x != id ==> (x in r'.orders <==> x in r.orders) && (x in r.orders ==> r'.orders[x] == r.orders[x]))
    && (id in r'.orders <==> left > 0) && (left > 0 ==> r'.orders[id] == Reservation(v.trader, v.symbol, v.side, left))
    && (forall k: Key ::
          var here := k == Key(v.trader, v.symbol);
          && At(r', k).net == At(r, k).net + (if here then net else 0)
          && At(r', k).buy == At(r, k).buy + (if here && v.side == Buy then working else 0)
          && At(r', k).sell == At(r, k).sell + (if here && v.side == Sell then working else 0))
  }

  /** A fill moves the position by the signed quantity and releases as much; refused, it changes nothing. */
  lemma FillIs(r: Risk, id: nat, n: nat)
    ensures var r' := Fill(r, id, n);
            if FillAccepted(r, id, n) then
              var v := r.orders[id]; Moved(r, r', id, v, v.quantity - n, Signed(v.side, n), 0 - n)
            else r' == r
  {}

  /** A cancellation releases as much and leaves the position alone. */
  lemma CancelIs(r: Risk, id: nat, n: nat)
    ensures var r' := Cancel(r, id, n);
            if CancelAccepted(r, id, n) then
              var v := r.orders[id]; Moved(r, r', id, v, v.quantity - n, 0, 0 - n)
            else r' == r
  {}

  /** A LIMIT order not yet tracked is reserved for what remains of it, on the live path within the limit. */
  lemma RestingIs(r: Risk, o: Order, remaining: nat, enforce: bool)
    ensures var r' := Resting(r, o, remaining, enforce);
            var total := Working(At(r, Key(o.trader, o.symbol)), o.side) + remaining;
            if !r.corrupt && 0 < remaining <= o.quantity && o.kind == Limit && o.id !in r.orders && total < U64
               && (enforce ==> total <= r.maxPosition)
            then Moved(r, r', o.id, Reservation(o.trader, o.symbol, o.side, remaining), remaining, 0, remaining)
            else r' == r
  {}

  // ----- runs, live or restored ------------------------------------------------------------------------------

  datatype Move =
    | Rested(order: Order, n: nat, live: bool)
    | Filled(id: nat, n: nat, live: bool)
    | Cancelled(id: nat, n: nat, live: bool)
    | MaxPosition(limit: nat)

  /** Quantities are 32-bit. */
  predicate Sized(m: Move) { m.MaxPosition? || m.n < U32 }

  /** A live call that is refused changes nothing; a refused restore closes the engine. */
  function Apply(r: Risk, m: Move): Risk {
    match m
    case Rested(o, n, live) =>
      if live || CanReserve(r, o, n, false) then Resting(r, o, n, live) else r.(corrupt := true)
    case Filled(id, n, live) => if live || CanFill(r, id, n) then Fill(r, id, n) else r.(corrupt := true)
    case Cancelled(id, n, live) => if live || CanRelease(r, id, n) then Cancel(r, id, n) else r.(corrupt := true)
    case MaxPosition(n) =>
      if n < U63 then r.(maxPosition := n, maxOrder := if r.maxOrder > n then n else r.maxOrder) else r
  }

  function ApplyAll(r: Risk, ms: seq<Move>): Risk {
    if ms == [] then r else Apply(ApplyAll(r, ms[..|ms| - 1]), ms[|ms| - 1])
  }

  lemma ApplyKeeps(r: Risk, m: Move)
    requires Consistent(r) && Sized(m)
    ensures Consistent(Apply(r, m))
  {
    match m
    case Rested(o, n, live) => if CanReserve(r, o, n, live) { ReserveKeeps(r, o, n, live); }
    case Filled(id, n, _) => FillKeeps(r, id, n);
    case Cancelled(id, n, _) => CancelKeeps(r, id, n);
    case MaxPosition(_) =>
  }

  /** After any run from an empty engine, live, restored or mixed, the two maps agree, no flat entry survives, and no
      release can fail for a missing position or a working total that is too small. */
  lemma {:induction false} RunsConsistent(maxOrder: nat, maxPosition: nat, ms: seq<Move>)
    requires forall m <- ms :: Sized(m)
    ensures var r := ApplyAll(Risk(map[], map[], maxOrder, maxPosition, false), ms);
            && Consistent(r)
            && forall id <- r.orders :: var v := r.orders[id];
                 KeyOf(v) in r.positions && v.quantity <= Working(r.positions[KeyOf(v)], v.side)
  {
    var r0 := Risk(map[], map[], maxOrder, maxPosition, false);
    if ms != [] {
      var n := |ms| - 1;
      RunsConsistent(maxOrder, maxPosition, ms[..n]);
      ApplyKeeps(ApplyAll(r0, ms[..n]), ms[n]);
    }
    var r := ApplyAll(r0, ms);
    forall id <- r.orders ensures var v := r.orders[id];
                            KeyOf(v) in r.positions && v.quantity <= Working(r.positions[KeyOf(v)], v.side)
    {
      ReservedCovers(r, id);
    }
  }

  // ----- exposure ------------------------------------------------------------------------------------------------

  /** Whatever order resting orders fill in, the position stays within the limit. */
  ghost predicate Bounded(r: Risk) {
    forall k: Key :: var p := At(r, k);
      && p.net + p.buy <= r.maxPosition && p.net - p.sell >= -(r.maxPosition as int)
      && p.buy <= r.maxPosition && p.sell <= r.maxPosition
  }

  /** The order can rest in full without exceeding the limit. */
  ghost predicate Admitted(r: Risk, o: Order) {
    var p := At(r, Key(o.trader, o.symbol));
    if o.side.Buy? then p.net + p.buy + o.quantity <= r.maxPosition
    else p.net - p.sell - o.quantity >= -(r.maxPosition as int)
  }

  /** The limit leaves room for one 32-bit quantity below the largest signed 64-bit integer. */
  predicate LimitOk(r: Risk) { r.maxPosition + U32 <= U63 }

  lemma ValidateAdmits(r: Risk, o: Order, market: Reason)
    requires Working(At(r, Key(o.trader, o.symbol)), o.side) < U63 && Validate(r, o, market) == NoReason
    ensures Admitted(r, o)
  {}

  /** Validation accepts exactly the good orders: with totals that fit, the 64-bit test is the exact one. */
  lemma ValidateIff(r: Risk, o: Order, market: Reason)
    requires Working(At(r, Key(o.trader, o.symbol)), o.side) < U63 && r.maxPosition < U63
    requires -U63 <= At(r, Key(o.trader, o.symbol)).net < U63
    ensures Validate(r, o, market) ==
            if r.corrupt then StateCorrupt
            else if o.quantity == 0 then InvalidQuantity
            else if o.quantity > r.maxOrder then OrderTooLarge
            else if market != NoReason then market
            else if Admitted(r, o) then NoReason else PositionLimitExceeded
  {}

  /** The replacement fits where the old order's quantity has been given back. */
  ghost predicate Replaceable(r: Risk, v: Reservation, o: Order) {
    var p := At(r, Key(o.trader, o.symbol));
    if o.side.Buy? then p.net + p.buy - v.quantity + o.quantity <= r.maxPosition
    else p.net - p.sell + v.quantity - o.quantity >= -(r.maxPosition as int)
  }

  /** So does the validation of a replacement, for a consistent engine. */
  lemma ValidateReplaceIff(r: Risk, id: nat, o: Order, market: Reason)
    requires Consistent(r) && r.maxPosition < U63
    requires id in r.orders ==>
               Working(At(r, Key(o.trader, o.symbol)), o.side) - r.orders[id].quantity + o.quantity < U63
    ensures ValidateReplace(r, id, o, market) ==
            if r.corrupt then StateCorrupt
            else if o.quantity == 0 then InvalidQuantity
            else if o.quantity > r.maxOrder then OrderTooLarge
            else if market != NoReason then market
            else if id !in r.orders || r.orders[id].trader != o.trader || r.orders[id].symbol != o.symbol
                    || r.orders[id].side != o.side then StateViolation
            else if Replaceable(r, r.orders[id], o) then NoReason else PositionLimitExceeded
  {
    hide Reserved;
    if id in r.orders {
      ReservedCovers(r, id);
      var p := At(r, Key(o.trader, o.symbol));
      assert Working(p, Buy) < U64 && Working(p, Sell) < U64 by { TotalsFit(r, Key(o.trader, o.symbol)); }
    }
  }

  lemma TotalsFit(r: Risk, k: Key)
    requires Consistent(r)
    ensures At(r, k).buy < U64 && At(r, k).sell < U64
  {
    assert Working(At(r, k), Buy) == Reserved(r.orders, k, Buy);
    assert Working(At(r, k), Sell) == Reserved(r.orders, k, Sell);
  }

  /** A replace admitted for the new quantity, once the old order is cancelled. */
  lemma ReplaceAdmits(r: Risk, id: nat, o: Order, market: Reason)
    requires Consistent(r) && ValidateReplace(r, id, o, market) == NoReason
    requires Working(At(r, Key(o.trader, o.symbol)), o.side) - r.orders[id].quantity + o.quantity < U63
    ensures Admitted(Cancel(r, id, r.orders[id].quantity), o)
  {}

  lemma ReserveBounded(r: Risk, o: Order, remaining: nat)
    requires Bounded(r) && Admitted(r, o) && CanReserve(r, o, remaining, true)
    ensures Bounded(Reserve(r, o, remaining))
  {
    var r' := Reserve(r, o, remaining);
    forall k: Key ensures var p := At(r', k);
                          && p.net + p.buy <= r.maxPosition && p.net - p.sell >= -(r.maxPosition as int)
                          && p.buy <= r.maxPosition && p.sell <= r.maxPosition
    {
      assert At(r, k).buy <= r.maxPosition;
    }
  }

  /** Fills and cancellations only ever use up exposure that was already counted. */
  lemma ReleaseBounded(r: Risk, id: nat, n: nat, moved: int)
    requires Bounded(r) && CanRelease(r, id, n) && n <= Working(At(r, KeyOf(r.orders[id])), r.orders[id].side)
    requires moved == 0 || moved == FillMove(r.orders[id], n)
    ensures Bounded(Release(r, id, n, moved))
    ensures forall o: Order :: Admitted(r, o) ==> Admitted(Release(r, id, n, moved), o)
  {
    var r', v := Release(r, id, n, moved), r.orders[id];
    assert forall k: Key :: k != KeyOf(v) ==> At(r', k) == At(r, k);
    assert At(r', KeyOf(v)) == WithWorking(At(r, KeyOf(v)), v.side, Working(At(r, KeyOf(v)), v.side) - n)
                               .(net := At(r, KeyOf(v)).net + moved);
    forall k: Key ensures var p := At(r', k);
                          && p.net + p.buy <= r.maxPosition && p.net - p.sell >= -(r.maxPosition as int)
                          && p.buy <= r.maxPosition && p.sell <= r.maxPosition
    {
      assert At(r, k).buy <= r.maxPosition;
    }
  }

  // ----- runs ----------------------------------------------------------------------------------------------------

  /** `pending` is the order that passed validation and has not rested yet. */
  datatype Desk = Desk(risk: Risk, pending: Option<Order>)

  datatype Act =
    | Submit(order: Order, market: Reason)              // validate
    | Amend(id: nat, order: Order, market: Reason)      // validateReplace, then cancel the old order
    | Rest(remaining: nat)                              // onOrderResting for what is left of the pending order
    | Aggress(n: nat)                                   // the pending order trades on entry; no call is made for it
    | Forget                                            // the pending order traded in full or was dropped
    | OnFill(id: nat, n: nat)
    | OnCancel(id: nat, n: nat)

  predicate Aggresses(d: Desk, n: nat) { d.pending.Some? && n <= d.pending.value.remaining }

  function Step(d: Desk, a: Act): Desk {
    match a
    case Submit(o, market) =>
      if o.quantity < U32 && Validate(d.risk, o, market) == NoReason then d.(pending := Some(o)) else d
    case Amend(id, o, market) =>
      if o.quantity < U32 && ValidateReplace(d.risk, id, o, market) == NoReason && id in d.risk.orders
      then Desk(Cancel(d.risk, id, d.risk.orders[id].quantity), Some(o)) else d
    case Rest(n) => if d.pending.Some? then Desk(Resting(d.risk, d.pending.value, n, true), None) else d
    case Aggress(n) =>
      if Aggresses(d, n) then d.(pending := Some(d.pending.value.(remaining := d.pending.value.remaining - n))) else d
    case Forget => d.(pending := None)
    case OnFill(id, n) => d.(risk := Fill(d.risk, id, n))
    case OnCancel(id, n) => d.(risk := Cancel(d.risk, id, n))
  }

  function Run(d: Desk, acts: seq<Act>): Desk
    decreases |acts|
  {
    if acts == [] then d else Run(Step(d, acts[0]), acts[1..])
  }

  ghost predicate DeskOk(d: Desk) {
    && Consistent(d.risk) && Bounded(d.risk) && LimitOk(d.risk)
    && (d.pending.Some? ==> Admitted(d.risk, d.pending.value) && d.pending.value.quantity < U32)
  }

  lemma CancelBounded(r: Risk, id: nat, n: nat)
    requires Consistent(r) && Bounded(r) && LimitOk(r)
    ensures var r' := Cancel(r, id, n);
            Consistent(r') && Bounded(r') && LimitOk(r') && forall o: Order :: Admitted(r, o) ==> Admitted(r', o)
  {
    CancelKeeps(r, id, n);
    if CanRelease(r, id, n) {
      ReservedCovers(r, id);
      ReleaseBounded(r, id, n, 0);
    }
  }

  lemma FillBounded(r: Risk, id: nat, n: nat)
    requires Consistent(r) && Bounded(r) && LimitOk(r)
    ensures var r' := Fill(r, id, n);
            Consistent(r') && Bounded(r') && LimitOk(r') && forall o: Order :: Admitted(r, o) ==> Admitted(r', o)
  {
    FillKeeps(r, id, n);
    if CanFill(r, id, n) {
      ReservedCovers(r, id);
      ReleaseBounded(r, id, n, FillMove(r.orders[id], n));
    }
  }

  lemma StepKeeps(d: Desk, a: Act)
    requires DeskOk(d)
    ensures DeskOk(Step(d, a))
  {
    match a
    case Submit(o, market) =>
      if Validate(d.risk, o, market) == NoReason {
        assert At(d.risk, Key(o.trader, o.symbol)).buy <= d.risk.maxPosition;
        ValidateAdmits(d.risk, o, market);
      }
    case Amend(id, o, market) =>
      if o.quantity < U32 && ValidateReplace(d.risk, id, o, market) == NoReason {
        assert At(d.risk, Key(o.trader, o.symbol)).buy <= d.risk.maxPosition;
        ReplaceAdmits(d.risk, id, o, market);
        CancelBounded(d.risk, id, d.risk.orders[id].quantity);
      }
    case Rest(n) =>
      if d.pending.Some? && CanReserve(d.risk, d.pending.value, n, true) {
        ReserveKeeps(d.risk, d.pending.value, n, true);
        ReserveBounded(d.risk, d.pending.value, n);
      }
    case Aggress(_) =>
    case Forget =>
    case OnFill(id, n) => FillBounded(d.risk, id, n);
    case OnCancel(id, n) => CancelBounded(d.risk, id, n);
  }

  /** In every state of every run, no recorded position can end up beyond the limit in any symbol, whichever resting
      orders fill. */
  lemma {:induction false} PositionsBounded(d: Desk, acts: seq<Act>, k: Key)
    requires DeskOk(d)
    ensures var r := Run(d, acts).risk;
            var p := At(r, k);
            && DeskOk(Run(d, acts))
            && p.net + p.buy <= r.maxPosition && p.net - p.sell >= -(r.maxPosition as int)
            && -(r.maxPosition as int) <= p.net <= r.maxPosition
    decreases |acts|
  {
    if acts == [] {
      assert At(d.risk, k).buy <= d.risk.maxPosition;
    } else {
      StepKeeps(d, acts[0]);
      PositionsBounded(Step(d, acts[0]), acts[1..], k);
    }
  }

  function NewDesk(maxOrder: nat, maxPosition: nat): Desk {
    Desk(Risk(map[], map[], maxOrder, maxPosition, false), None)
  }

  /** The same from a new engine. */
  lemma NewPositionsBounded(maxOrder: nat, maxPosition: nat, acts: seq<Act>, k: Key)
    requires maxPosition + U32 <= U63
    ensures var p := At(Run(NewDesk(maxOrder, maxPosition), acts).risk, k);
            && p.net + p.buy <= maxPosition && p.net - p.sell >= -(maxPosition as int)
            && -(maxPosition as int) <= p.net <= maxPosition
  {
    EmptyDesk(maxOrder, maxPosition);
    PositionsBounded(NewDesk(maxOrder, maxPosition), acts, k);
    LimitFixed(NewDesk(maxOrder, maxPosition), acts);
  }

  lemma EmptyDesk(maxOrder: nat, maxPosition: nat)
    requires maxPosition + U32 <= U63
    ensures DeskOk(NewDesk(maxOrder, maxPosition))
  {}

  lemma {:induction false} LimitFixed(d: Desk, acts: seq<Act>)
    ensures Run(d, acts).risk.maxPosition == d.risk.maxPosition
    decreases |acts|
  {
    if acts != [] { LimitFixed(Step(d, acts[0]), acts[1..]); }
  }

  // ----- what is recorded and what was executed ------------------------------------------------------------------

  /** What one act executes for a key: fills of its resting orders, and what its incoming orders trade on entry. */
  function Filled1(d: Desk, a: Act, k: Key): int {
    if a.OnFill? && FillAccepted(d.risk, a.id, a.n) && KeyOf(d.risk.orders[a.id]) == k
    then Signed(d.risk.orders[a.id].side, a.n) else 0
  }

  function Aggressed1(d: Desk, a: Act, k: Key): int {
    if a.Aggress? && Aggresses(d, a.n) && Key(d.pending.value.trader, d.pending.value.symbol) == k
    then Signed(d.pending.value.side, a.n) else 0
  }

  /** Net quantity executed for a key over a run. */
  function Executed(d: Desk, acts: seq<Act>, k: Key): int
    decreases |acts|
  {
    if acts == [] then 0
    else Filled1(d, acts[0], k) + Aggressed1(d, acts[0], k) + Executed(Step(d, acts[0]), acts[1..], k)
  }

  /** Net quantity that its incoming orders traded on entry. */
  function Aggressed(d: Desk, acts: seq<Act>, k: Key): int
    decreases |acts|
  {
    if acts == [] then 0 else Aggressed1(d, acts[0], k) + Aggressed(Step(d, acts[0]), acts[1..], k)
  }

  lemma StepRecords(d: Desk, a: Act, k: Key)
    ensures At(Step(d, a).risk, k).net == At(d.risk, k).net + Filled1(d, a, k)
  {
    match a
    case OnFill(id, n) =>
      if CanFill(d.risk, id, n) && n <= Working(At(d.risk, KeyOf(d.risk.orders[id])), d.risk.orders[id].side) {
        ReleaseRecords(d.risk, id, n, FillMove(d.risk.orders[id], n), k);
      }
    case OnCancel(id, n) =>
      if CanRelease(d.risk, id, n) && n <= Working(At(d.risk, KeyOf(d.risk.orders[id])), d.risk.orders[id].side) {
        ReleaseRecords(d.risk, id, n, 0, k);
      }
    case Amend(id, o, market) =>
      if id in d.risk.orders {
        var n := d.risk.orders[id].quantity;
        if CanRelease(d.risk, id, n) && n <= Working(At(d.risk, KeyOf(d.risk.orders[id])), d.risk.orders[id].side) {
          ReleaseRecords(d.risk, id, n, 0, k);
        }
      }
    case _ =>
  }

  lemma ReleaseRecords(r: Risk, id: nat, n: nat, moved: int, k: Key)
    requires id in r.orders && 0 < n <= r.orders[id].quantity
             && n <= Working(At(r, KeyOf(r.orders[id])), r.orders[id].side)
    ensures At(Release(r, id, n, moved), k).net == At(r, k).net + (if KeyOf(r.orders[id]) == k then moved else 0)
  {}

  /** The recorded position misses exactly what the trader's incoming orders traded on entry. */
  lemma {:induction false} RecordedMisses(d: Desk, acts: seq<Act>, k: Key)
    ensures At(Run(d, acts).risk, k).net == At(d.risk, k).net + Executed(d, acts, k) - Aggressed(d, acts, k)
    decreases |acts|
  {
    if acts != [] {
      StepRecords(d, acts[0], k);
      hide Step, Filled1, Aggressed1;
      RecordedMisses(Step(d, acts[0]), acts[1..], k);
    }
  }

  /** The trader was the aggressor in some trade of the run. */
  ghost predicate WasAggressor(d: Desk, acts: seq<Act>, k: Key) {
    exists i :: 0 <= i < |acts| && Aggressed1(Run(d, acts[..i]), acts[i], k) != 0
  }

  lemma {:induction false} AggressedSnoc(d: Desk, acts: seq<Act>, i: nat, k: Key)
    requires i < |acts|
    ensures Aggressed(d, acts[..i + 1], k) == Aggressed(d, acts[..i], k) + Aggressed1(Run(d, acts[..i]), acts[i], k)
    decreases |acts|
  {
    hide Step, Aggressed1;
    var a := acts[..i + 1];
    if i == 0 {
      assert a[1..] == [] && acts[..0] == [];
    } else {
      assert a[1..] == acts[1..][..i] && acts[..i][1..] == acts[1..][..i - 1];
      AggressedSnoc(Step(d, acts[0]), acts[1..], i - 1, k);
    }
  }

  lemma {:induction false} NeverAggressed(d: Desk, acts: seq<Act>, i: nat, k: Key)
    requires i <= |acts| && !WasAggressor(d, acts, k)
    ensures Aggressed(d, acts[..i], k) == 0
  {
    if i > 0 {
      NeverAggressed(d, acts, i - 1, k);
      AggressedSnoc(d, acts, i - 1, k);
    }
  }

  /** The recorded position is the executed one throughout a run if and only if the trader was never the aggressor. */
  lemma RecordedIff(d: Desk, acts: seq<Act>, k: Key)
    ensures (forall i :: 0 <= i <= |acts| ==>
               At(Run(d, acts[..i]).risk, k).net == At(d.risk, k).net + Executed(d, acts[..i], k))
            <==> !WasAggressor(d, acts, k)
  {
    hide Run, Executed, Aggressed, Aggressed1;
    forall i | 0 <= i <= |acts|
      ensures At(Run(d, acts[..i]).risk, k).net
              == At(d.risk, k).net + Executed(d, acts[..i], k) - Aggressed(d, acts[..i], k)
    {
      RecordedMisses(d, acts[..i], k);
    }
    if !WasAggressor(d, acts, k) {
      forall i | 0 <= i <= |acts| ensures Aggressed(d, acts[..i], k) == 0 { NeverAggressed(d, acts, i, k); }
    } else {
      var i :| 0 <= i < |acts| && Aggressed1(Run(d, acts[..i]), acts[i], k) != 0;
      AggressedSnoc(d, acts, i, k);
    }
  }

  /** So a trader who is never the aggressor stays within the limit in what is really executed. */
  lemma ExecutedBounded(maxOrder: nat, maxPosition: nat, acts: seq<Act>, k: Key)
    requires maxPosition + U32 <= U63 && !WasAggressor(NewDesk(maxOrder, maxPosition), acts, k)
    ensures -(maxPosition as int) <= Executed(NewDesk(maxOrder, maxPosition), acts, k) <= maxPosition
  {
    hide Run, Executed;
    RecordedIff(NewDesk(maxOrder, maxPosition), acts, k);
    NewPositionsBounded(maxOrder, maxPosition, acts, k);
    assert acts[..|acts|] == acts;
  }

  /** Two IOC orders of ten under a limit of ten: both pass validation and trade, twenty are executed, nothing is
      recorded. */
  lemma TwoIocExample()
    ensures var o := Order(1, 1, 0, Buy, Ioc, 100, 10, 10, 0);
            var once := [Submit(o, NoReason), Aggress(10), Forget];
            var d := NewDesk(10, 10);
            && Executed(d, once + once, Key(1, 0)) == 20 && At(Run(d, once + once).risk, Key(1, 0)).net == 0
  {
    var o := Order(1, 1, 0, Buy, Ioc, 100, 10, 10, 0);
    var d, k := NewDesk(10, 10), Key(1, 0);
    var a := [Submit(o, NoReason), Aggress(10), Forget, Submit(o, NoReason), Aggress(10), Forget];
    assert [Submit(o, NoReason), Aggress(10), Forget] + [Submit(o, NoReason), Aggress(10), Forget] == a;
    IocTradesUnseen(d, o, a[3..], k);
    assert a == [Submit(o, NoReason), Aggress(10), Forget] + a[3..];
    IocTradesUnseen(d, o, [], k);
    assert a[3..] == [Submit(o, NoReason), Aggress(10), Forget] + [];
  }

  /** An order accepted into an idle desk that trades in full on entry leaves no trace in it. */
  lemma IocTradesUnseen(d: Desk, o: Order, rest: seq<Act>, k: Key)
    requires d.pending.None? && o.remaining == o.quantity < U32 && Validate(d.risk, o, NoReason) == NoReason
    requires k == Key(o.trader, o.symbol)
    ensures var acts := [Submit(o, NoReason), Aggress(o.quantity), Forget] + rest;
            && Run(d, acts) == Run(d, rest) && Executed(d, acts, k) == Signed(o.side, o.quantity) + Executed(d, rest, k)
  {
    var acts := [Submit(o, NoReason), Aggress(o.quantity), Forget] + rest;
    var d1 := Step(d, acts[0]);
    var d2 := Step(d1, acts[1]);
    assert acts[1..][0] == acts[1] && acts[1..][1..] == acts[2..] && acts[2..][0] == acts[2] && acts[2..][1..] == rest;
    assert Run(d, acts) == Run(d1, acts[1..]) && Run(d1, acts[1..]) == Run(d2, acts[2..]);
    assert Executed(d2, acts[2..], k) == Executed(d, rest, k);
    assert Executed(d1, acts[1..], k) == Signed(o.side, o.quantity) + Executed(d2, acts[2..], k);
  }

  // ----- resting a validated order -------------------------------------------------------------------------------

  /** Validation does not promise that the order can rest: a working total that only the opposite position offsets
      is accepted by `validate` and refused by `onOrderResting`. A trader sells 10 and fills, then bids 5, then 6 more,
      under a limit of 10. */
  lemma ValidatedButCannotRest()
    ensures var sell := Order(6, 1, 0, Sell, Limit, 100, 10, 10, 0);
            var bid := Order(7, 1, 0, Buy, Limit, 100, 5, 5, 1);
            var o := Order(8, 1, 0, Buy, Limit, 100, 6, 6, 2);
            var r := Run(NewDesk(100, 10),
                         [Submit(sell, NoReason), Rest(10), OnFill(6, 10), Submit(bid, NoReason), Rest(5)]).risk;
            Validate(r, o, NoReason) == NoReason && !CanReserve(r, o, 6, true)
  {
    var sell := Order(6, 1, 0, Sell, Limit, 100, 10, 10, 0);
    var bid := Order(7, 1, 0, Buy, Limit, 100, 5, 5, 1);
    var acts := [Submit(sell, NoReason), Rest(10), OnFill(6, 10), Submit(bid, NoReason), Rest(5)];
    SoldTen();
    BidFive();
    assert Validate(SHORT_AND_BIDDING, Order(8, 1, 0, Buy, Limit, 100, 6, 6, 2), NoReason) == NoReason;
    hide Step;
    FiveSteps(NewDesk(100, 10), acts);
  }

  const SHORT: Risk := Risk(map[Key(1, 0) := Position(-10, 0, 0)], map[], 100, 10, false)
  const SHORT_AND_BIDDING: Risk :=
    Risk(map[Key(1, 0) := Position(-10, 5, 0)], map[7 := Reservation(1, 0, Buy, 5)], 100, 10, false)

  lemma SoldTen()
    ensures var o := Order(6, 1, 0, Sell, Limit, 100, 10, 10, 0);
            Step(Step(Step(NewDesk(100, 10), Submit(o, NoReason)), Rest(10)), OnFill(6, 10)) == Desk(SHORT, None)
  {
    var o := Order(6, 1, 0, Sell, Limit, 100, 10, 10, 0);
    var d1 := NewDesk(100, 10).(pending := Some(o));
    assert Step(NewDesk(100, 10), Submit(o, NoReason)) == d1;
    var r2 := Risk(map[Key(1, 0) := Position(0, 0, 10)], map[6 := Reservation(1, 0, Sell, 10)], 100, 10, false);
    assert Step(d1, Rest(10)) == Desk(r2, None);
    assert Fill(r2, 6, 10) == SHORT;
  }

  lemma BidFive()
    ensures var o := Order(7, 1, 0, Buy, Limit, 100, 5, 5, 1);
            Step(Step(Desk(SHORT, None), Submit(o, NoReason)), Rest(5)) == Desk(SHORT_AND_BIDDING, None)
  {
    var o := Order(7, 1, 0, Buy, Limit, 100, 5, 5, 1);
    assert Step(Desk(SHORT, None), Submit(o, NoReason)) == Desk(SHORT, Some(o));
  }

  lemma FiveSteps(d: Desk, acts: seq<Act>)
    requires |acts| == 5
    ensures Run(d, acts) == Step(Step(Step(Step(Step(d, acts[0]), acts[1]), acts[2]), acts[3]), acts[4])
  {
    hide Step;
    assert acts[1..][1..] == acts[2..] && acts[2..][1..] == acts[3..] && acts[3..][1..] == acts[4..]
           && acts[4..][1..] == [];
    var d1 := Step(d, acts[0]);
    var d2 := Step(d1, acts[1]);
    assert Run(d, acts) == Run(d1, acts[1..]) && Run(d1, acts[1..]) == Run(d2, acts[2..]);
    var d3 := Step(d2, acts[2]);
    var d4 := Step(d3, acts[3]);
    assert Run(d2, acts[2..]) == Run(d3, acts[3..]) && Run(d3, acts[3..]) == Run(d4, acts[4..]);
    assert Run(d4, acts[4..]) == Run(Step(d4, acts[4]), []);
  }

  /** After a restart under a tighter limit the working total alone can be too large: with a limit of 10, a sell of 10,
      its fill and a buy of 15 are restored, and then a buy of 3 is validated and cannot rest. */
  lemma RestoredButCannotRest()
    ensures var sell := Order(6, 1, 0, Sell, Limit, 100, 10, 10, 0);
            var bid := Order(7, 1, 0, Buy, Limit, 100, 15, 15, 1);
            var o := Order(8, 1, 0, Buy, Limit, 100, 3, 3, 2);
            var r := ApplyAll(Risk(map[], map[], 100, 1000, false),
                              [MaxPosition(10), Rested(sell, 10, false), Filled(6, 10, false), Rested(bid, 15, false)]);
            Validate(r, o, NoReason) == NoReason && !CanReserve(r, o, 3, true)
  {
    var sell, bid := Order(6, 1, 0, Sell, Limit, 100, 10, 10, 0), Order(7, 1, 0, Buy, Limit, 100, 15, 15, 1);
    var ms := [MaxPosition(10), Rested(sell, 10, false), Filled(6, 10, false), Rested(bid, 15, false)];
    RestoredSale(sell);
    RestoredBid(bid);
    LongBid();
    hide Apply, Validate, CanReserve;
    FourMoves(Risk(map[], map[], 100, 1000, false), ms);
  }

  const RESTORED_SHORT: Risk := Risk(map[Key(1, 0) := Position(-10, 0, 0)], map[], 10, 10, false)
  const RESTORED_BID: Risk :=
    Risk(map[Key(1, 0) := Position(-10, 15, 0)], map[7 := Reservation(1, 0, Buy, 15)], 10, 10, false)

  lemma RestoredSale(o: Order)
    requires o == Order(6, 1, 0, Sell, Limit, 100, 10, 10, 0)
    ensures Apply(Apply(Apply(Risk(map[], map[], 100, 1000, false), MaxPosition(10)), Rested(o, 10, false)),
                  Filled(6, 10, false)) == RESTORED_SHORT
  {
    var r1 := Risk(map[], map[], 10, 10, false);
    var r2 := Risk(map[Key(1, 0) := Position(0, 0, 10)], map[6 := Reservation(1, 0, Sell, 10)], 10, 10, false);
    assert Apply(Risk(map[], map[], 100, 1000, false), MaxPosition(10)) == r1;
    assert Apply(r1, Rested(o, 10, false)) == r2;
    assert Fill(r2, 6, 10) == RESTORED_SHORT;
  }

  lemma RestoredBid(o: Order)
    requires o == Order(7, 1, 0, Buy, Limit, 100, 15, 15, 1)
    ensures Apply(RESTORED_SHORT, Rested(o, 15, false)) == RESTORED_BID
  {}

  lemma LongBid()
    ensures var o := Order(8, 1, 0, Buy, Limit, 100, 3, 3, 2);
            Validate(RESTORED_BID, o, NoReason) == NoReason && !CanReserve(RESTORED_BID, o, 3, true)
  {}

  lemma FourMoves(r: Risk, ms: seq<Move>)
    requires |ms| == 4
    ensures ApplyAll(r, ms) == Apply(Apply(Apply(Apply(r, ms[0]), ms[1]), ms[2]), ms[3])
  {
    hide Apply;
    assert ms[..3][..2] == ms[..2] && ms[..2][..1] == ms[..1] && ms[..1][..0] == [];
    assert ApplyAll(r, ms[..1]) == Apply(ApplyAll(r, ms[..1][..0]), ms[0]);
    assert ApplyAll(r, ms[..2]) == Apply(ApplyAll(r, ms[..1]), ms[1]);
    assert ApplyAll(r, ms[..3]) == Apply(ApplyAll(r, ms[..2]), ms[2]);
  }

  /** Exactly when what is left of a validated LIMIT order can rest, in any state, restored or live. */
  lemma CanRestIff(r: Risk, o: Order, remaining: nat, market: Reason)
    requires r.maxPosition < U64 && Validate(r, o, market) == NoReason && o.kind.Limit? && 0 < remaining <= o.quantity
    ensures CanReserve(r, o, remaining, true) <==>
            o.id !in r.orders && Working(At(r, Key(o.trader, o.symbol)), o.side) + remaining <= r.maxPosition
  {}
}
