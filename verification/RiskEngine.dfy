/** The risk engine object, method by method, against module `Risk`; and its audit of the order book. */
module RiskEngine {
  import opened Types
  import opened Risk
  import R = Risk
  import B = Book
  import P = PriorityList
  import MatchLaws
  import O = OrderBook

  class RiskEngine {
    var positions: map<Key, Position>
    var orders: map<nat, Reservation>
    var maxOrder: nat
    var maxPosition: nat
    var corrupt: bool

    ghost function View(): Risk
      reads this
    {
      Risk(positions, orders, maxOrder, maxPosition, corrupt)
    }

    /** Every field fits its machine type. */
    ghost predicate Typed()
      reads this
    {
      && (forall k <- positions :: IsI64(positions[k].net) && positions[k].buy < U64 && positions[k].sell < U64)
      && (forall id <- orders :: orders[id].quantity < U32)
      && maxPosition < U63
    }

    constructor ()
      ensures View() == Risk(map[], map[], 1_000_000, 10_000_000, false) && Typed() && Consistent(View())
    {
      positions, orders, corrupt := map[], map[], false;
      maxOrder, maxPosition := 1_000_000, 10_000_000;
    }

    /** The order-size ceiling never exceeds the position ceiling. */
    method SetMaxPosition(limit: nat)
      requires Typed()
      modifies this
      ensures Typed()
      ensures View() == if limit >= U63 then old(View())
                        else old(View()).(maxPosition := limit, maxOrder := Min(old(maxOrder), limit))
    {
      if limit >= U63 {
        return;
      }
      maxPosition := limit;
      if maxOrder > maxPosition {
        maxOrder := maxPosition;
      }
    }

    // ----- validation -----------------------------------------------------------------------------------

    /** Two checked additions and the comparison with the limit. */
    method Project(net: int, working: int, side: Side, more: nat) returns (ok: bool)
      requires IsI64(net) && IsI64(working) && IsI64(more) && maxPosition < U63
      ensures ok <==> Projects(net, working, side, more, maxPosition)
    {
      if side.Buy? {
        var a := CanAddSigned(net, working);
        if a.None? {
          return false;
        }
        var b := CanAddSigned(a.value, more);
        return b.Some? && b.value <= maxPosition;
      } else {
        var a := CanSubSigned(net, working);
        if a.None? {
          return false;
        }
        var b := CanSubSigned(a.value, more);
        return b.Some? && b.value >= -(maxPosition as int);
      }
    }

    method ValidateOrder(o: Order, market: Reason) returns (reason: Reason)
      requires Typed() && o.quantity < U32
      ensures reason == Validate(View(), o, market)
    {
      if corrupt {
        return StateCorrupt;
      }
      if CheckFields(maxOrder, o, market) != NoReason {
        return CheckFields(maxOrder, o, market);
      }
      var k := Key(o.trader, o.symbol);
      var p := if k in positions then positions[k] else FLAT;
      var ok := Project(p.net, AsI64(Working(p, o.side)), o.side, o.quantity);
      return if ok then NoReason else PositionLimitExceeded;
    }

    method ValidateAmend(id: nat, o: Order, market: Reason) returns (reason: Reason)
      requires Typed() && o.quantity < U32
      ensures reason == ValidateReplace(View(), id, o, market)
    {
      if corrupt {
        return StateCorrupt;
      }
      if CheckFields(maxOrder, o, market) != NoReason {
        return CheckFields(maxOrder, o, market);
      }
      if id !in orders {
        return StateViolation;
      }
      var v := orders[id];
      if v.trader != o.trader || v.symbol != o.symbol || v.side != o.side {
        return StateViolation;
      }
      var k := Key(o.trader, o.symbol);
      var p := if k in positions then positions[k] else FLAT;
      var w := Working(p, o.side);
      if v.quantity > w {
        return StateCorrupt;
      }
      var projected := AddU64(w - v.quantity, o.quantity);
      if projected.None? {
        return PositionLimitExceeded;
      }
      var ok := Project(p.net, AsI64(projected.value), o.side, 0);
      return if ok then NoReason else PositionLimitExceeded;
    }

    // ----- transitions ------------------------------------------------------------------------------------

    /** Reserves `remaining` for a LIMIT order not yet tracked; the limit binds only on the live path. */
    method ApplyResting(o: Order, remaining: nat, enforce: bool) returns (ok: bool)
      requires Typed() && remaining < U32
      modifies this
      ensures Typed()
      ensures ok <==> CanReserve(old(View()), o, remaining, enforce)
      ensures View() == Resting(old(View()), o, remaining, enforce)
    {
      if corrupt || remaining == 0 || remaining > o.quantity || !o.kind.Limit? || o.id in orders {
        return false;
      }
      var k := Key(o.trader, o.symbol);
      var p := if k in positions then positions[k] else FLAT;
      var w := AddU64(Working(p, o.side), remaining);
      if w.None? || (enforce && w.value > maxPosition) {
        return false;
      }
      orders := orders[o.id := Reservation(o.trader, o.symbol, o.side, remaining)];
      positions := positions[k := WithWorking(p, o.side, w.value)];
      return true;
    }

    /** Moves `n` from the working total to the net position. */
    method ApplyFill(id: nat, n: nat) returns (ok: bool)
      requires Typed() && n < U32
      modifies this
      ensures Typed()
      ensures ok <==> FillAccepted(old(View()), id, n)
      ensures View() == R.Fill(old(View()), id, n)
    {
      if corrupt || n == 0 || id !in orders {
        return false;
      }
      var v := orders[id];
      if n > v.quantity || KeyOf(v) !in positions {
        return false;
      }
      var p := positions[KeyOf(v)];
      if n > Working(p, v.side) {
        return false;
      }
      var net;
      if v.side.Buy? { net := CanAddSigned(p.net, n); } else { net := CanSubSigned(p.net, n); }
      if net.None? {
        return false;
      }
      Commit(id, v.(quantity := v.quantity - n), WithWorking(p, v.side, Working(p, v.side) - n).(net := net.value));
      return true;
    }

    method ApplyCancelled(id: nat, n: nat) returns (ok: bool)
      requires Typed() && n < U32
      modifies this
      ensures Typed()
      ensures ok <==> CancelAccepted(old(View()), id, n)
      ensures View() == R.Cancel(old(View()), id, n)
    {
      if corrupt || n == 0 || id !in orders {
        return false;
      }
      var v := orders[id];
      if n > v.quantity || KeyOf(v) !in positions {
        return false;
      }
      var p := positions[KeyOf(v)];
      if n > Working(p, v.side) {
        return false;
      }
      Commit(id, v.(quantity := v.quantity - n), WithWorking(p, v.side, Working(p, v.side) - n));
      return true;
    }

    /** Writes both entries back, dropping a reservation at zero and a position that has become flat. */
    method Commit(id: nat, v: Reservation, p: Position)
      requires Typed() && v.quantity < U32 && IsI64(p.net) && p.buy < U64 && p.sell < U64
      modifies this
      ensures Typed()
      ensures View() == old(View()).(orders := SetReserved(old(orders), id, v),
                                     positions := SetPosition(old(positions), KeyOf(v), p))
    {
      if v.quantity == 0 {
        orders := orders - {id};
      } else {
        orders := orders[id := v];
      }
      if p.net == 0 && p.buy == 0 && p.sell == 0 {
        positions := positions - {KeyOf(v)};
      } else {
        positions := positions[KeyOf(v) := p];
      }
    }

    /** On the recovery path the limit does not bind, and any inconsistency closes the engine for good. */
    method RestoreAccepted(o: Order, remaining: nat)
      requires Typed() && remaining < U32
      modifies this
      ensures Typed()
      ensures View() == if CanReserve(old(View()), o, remaining, false) then Reserve(old(View()), o, remaining)
                        else old(View()).(corrupt := true)
    {
      var ok := ApplyResting(o, remaining, false);
      if !ok {
        corrupt := true;
      }
    }

    method RestoreFill(id: nat, n: nat)
      requires Typed() && n < U32
      modifies this
      ensures Typed()
      ensures View() == if FillAccepted(old(View()), id, n) then R.Fill(old(View()), id, n)
                        else old(View()).(corrupt := true)
    {
      var ok := ApplyFill(id, n);
      if !ok {
        corrupt := true;
      }
    }

    method RestoreCancelled(id: nat, n: nat)
      requires Typed() && n < U32
      modifies this
      ensures Typed()
      ensures View() == if CancelAccepted(old(View()), id, n) then R.Cancel(old(View()), id, n)
                        else old(View()).(corrupt := true)
    {
      var ok := ApplyCancelled(id, n);
      if !ok {
        corrupt := true;
      }
    }

    /** In a consistent engine the missing-position and working-underflow failures are out of reach. */
    lemma AlwaysCovered(id: nat, n: nat)
      requires Consistent(View())
      ensures CancelAccepted(View(), id, n) <==> CanRelease(View(), id, n)
      ensures FillAccepted(View(), id, n) <==> CanFill(View(), id, n)
    {
      if id in orders { ReservedCovers(View(), id); }
    }

    // ----- audit --------------------------------------------------------------------------------------------

    /** Per-order fields agree with the book. */
    method CheckOrders(book: O.OrderBook) returns (ok: bool)
      requires book.Valid()
      ensures ok <==> forall id <- orders :: Agrees(orders[id], id, book.View())
    {
      var todo := orders.Keys;
      while todo != {}
        invariant todo <= orders.Keys && book.Valid()
        invariant forall id <- orders :: id !in todo ==> Agrees(orders[id], id, book.View())
      {
        var id :| id in todo;
        var found := book.GetOrder(id);
        if orders[id].quantity == 0 || found.None? || found.value.trader != orders[id].trader
           || found.value.symbol != orders[id].symbol || found.value.side != orders[id].side
           || found.value.remaining != orders[id].quantity
        {
          return false;
        }
        todo := todo - {id};
      }
      return true;
    }

    /** Sums the reservations per key and side, in 64 bits, with an entry for each key that has one and no other. */
    method Derive(side: Side) returns (totals: map<Key, nat>)
      ensures Derived(totals, orders, side)
    {
      hide Totals, Reserved, Derived;
      totals := map[];
      ghost var exact: map<Key, nat> := map[];
      var todo := orders;
      TotalsStart(orders, side);
      while todo != map[]
        invariant Totals(exact, orders, todo, side) && Wrapped(totals, exact)
        decreases |todo|
      {
        var id :| id in todo;
        var v := todo[id];
        TotalsStep(exact, orders, todo, side, id);
        if v.side == side {
          totals := totals[KeyOf(v) := (Total(totals, KeyOf(v)) + v.quantity) % U64];
          exact := exact[KeyOf(v) := Total(exact, KeyOf(v)) + v.quantity];
        }
        todo := todo - {id};
      }
      TotalsAre(orders, totals, exact, side);
    }

    /** Every position entry carries the derived totals. */
    method CheckPositions(buys: map<Key, nat>, sells: map<Key, nat>) returns (ok: bool)
      ensures ok <==> forall k <- positions ::
                        positions[k].buy == Total(buys, k) && positions[k].sell == Total(sells, k)
    {
      var todo := positions.Keys;
      while todo != {}
        invariant todo <= positions.Keys
        invariant forall k <- positions :: k !in todo ==>
                    positions[k].buy == Total(buys, k) && positions[k].sell == Total(sells, k)
      {
        var k :| k in todo;
        if positions[k].buy != Total(buys, k) || positions[k].sell != Total(sells, k) {
          return false;
        }
        todo := todo - {k};
      }
      return true;
    }

    /** No derived key is without a position entry. */
    method CheckOrphans(totals: map<Key, nat>) returns (ok: bool)
      ensures ok <==> forall k <- totals :: k in positions
    {
      var todo := totals.Keys;
      while todo != {}
        invariant todo <= totals.Keys && forall k <- totals :: k !in todo ==> k in positions
      {
        var k :| k in todo;
        if k !in positions {
          return false;
        }
        todo := todo - {k};
      }
      return true;
    }

    method CheckInvariant(book: O.OrderBook) returns (ok: bool)
      requires book.Valid()
      ensures ok <==> Audit(View(), book.View())
    {
      hide Derived, Reserved, Agrees, AggregatesAgree;
      if corrupt {
        return false;
      }
      var count := book.OrderCount();
      if count != |orders| {
        return false;
      }
      ok := CheckOrders(book);
      if !ok {
        return;
      }
      var buys := Derive(Buy);
      var sells := Derive(Sell);
      TotalsDecide(View(), buys, sells);
      ok := CheckPositions(buys, sells);
      if !ok {
        return;
      }
      ok := CheckOrphans(buys);
      if ok {
        ok := CheckOrphans(sells);
      }
    }
  }

  function Total(totals: map<Key, nat>, k: Key): nat { if k in totals then totals[k] else 0 }

  predicate Counts(v: Reservation, k: Key, side: Side) { KeyOf(v) == k && v.side == side }

  /** `totals` sums every reservation of `os` but those of `todo`, and holds a key for each of them and no other. */
  ghost predicate Totals(totals: map<Key, nat>, os: map<nat, Reservation>, todo: map<nat, Reservation>, side: Side) {
    && (forall id <- todo :: id in os && todo[id] == os[id])
    && (forall k: Key :: Total(totals, k) + Reserved(todo, k, side) == Reserved(os, k, side))
    && (forall id <- os :: id in todo || os[id].side != side || KeyOf(os[id]) in totals)
    && (forall k <- totals :: exists id <- os :: Counts(os[id], k, side))
  }

  /** 64-bit sums of all reservations of a side. */
  ghost predicate Derived(totals: map<Key, nat>, os: map<nat, Reservation>, side: Side) {
    && (forall k: Key :: Total(totals, k) == Reserved(os, k, side) % U64)
    && (forall id <- os :: os[id].side == side ==> KeyOf(os[id]) in totals)
    && (forall k <- totals :: exists id <- os :: Counts(os[id], k, side))
  }

  /** 64-bit sums of the exact ones. */
  ghost predicate Wrapped(totals: map<Key, nat>, exact: map<Key, nat>) {
    totals.Keys == exact.Keys && forall k <- totals :: totals[k] == exact[k] % U64
  }

  lemma TotalsStart(os: map<nat, Reservation>, side: Side)
    ensures Totals(map[], os, os, side)
  {}

  lemma TotalsStep(totals: map<Key, nat>, os: map<nat, Reservation>, todo: map<nat, Reservation>, side: Side, id: nat)
    requires Totals(totals, os, todo, side) && id in todo
    ensures var v := todo[id];
            Totals(if v.side == side then totals[KeyOf(v) := Total(totals, KeyOf(v)) + v.quantity] else totals,
                   os, todo - {id}, side)
  {
    hide Reserved;
    var v := todo[id];
    forall k: Key ensures Reserved(todo, k, side) == Weight(v, k, side) + Reserved(todo - {id}, k, side) {
      ReservedSplit(todo, id, k, side);
    }
    assert Counts(os[id], KeyOf(v), v.side);
  }

  lemma NoneReserved(side: Side)
    ensures forall k: Key :: Reserved(map[], k, side) == 0
  {}

  /** Comparing entries with the derived totals and looking for orphans decides whether the aggregates agree. */
  lemma TotalsDecide(r: Risk, buys: map<Key, nat>, sells: map<Key, nat>)
    requires Derived(buys, r.orders, Buy) && Derived(sells, r.orders, Sell)
    ensures AggregatesAgree(r) <==>
            && (forall k <- r.positions ::
                  r.positions[k].buy == Total(buys, k) && r.positions[k].sell == Total(sells, k))
            && (forall k <- buys :: k in r.positions)
            && (forall k <- sells :: k in r.positions)
  {
    hide Reserved;
    EntriesDecide(r, buys, sells);
    NoOrphans(r, buys, sells);
    hide Total, Working;
  }

  lemma EntriesDecide(r: Risk, buys: map<Key, nat>, sells: map<Key, nat>)
    requires forall k: Key :: Total(buys, k) == Reserved(r.orders, k, Buy) % U64
    requires forall k: Key :: Total(sells, k) == Reserved(r.orders, k, Sell) % U64
    ensures (forall k <- r.positions, side: Side ::
               Working(r.positions[k], side) == Reserved(r.orders, k, side) % U64) <==>
            (forall k <- r.positions :: r.positions[k].buy == Total(buys, k) && r.positions[k].sell == Total(sells, k))
  {
    hide Reserved;
    if forall k <- r.positions, side: Side :: Working(r.positions[k], side) == Reserved(r.orders, k, side) % U64 {
      forall k <- r.positions ensures r.positions[k].buy == Total(buys, k) && r.positions[k].sell == Total(sells, k) {
        assert Working(r.positions[k], Buy) == Reserved(r.orders, k, Buy) % U64;
        assert Working(r.positions[k], Sell) == Reserved(r.orders, k, Sell) % U64;
      }
    }
  }

  lemma NoOrphans(r: Risk, buys: map<Key, nat>, sells: map<Key, nat>)
    requires forall id <- r.orders :: KeyOf(r.orders[id]) in (if r.orders[id].side.Buy? then buys else sells)
    requires forall k <- buys :: exists id <- r.orders :: Counts(r.orders[id], k, Buy)
    requires forall k <- sells :: exists id <- r.orders :: Counts(r.orders[id], k, Sell)
    ensures (forall id <- r.orders :: KeyOf(r.orders[id]) in r.positions) <==>
            (forall k <- buys :: k in r.positions) && (forall k <- sells :: k in r.positions)
  {}

  lemma TotalsAre(os: map<nat, Reservation>, totals: map<Key, nat>, exact: map<Key, nat>, side: Side)
    requires Totals(exact, os, map[], side) && Wrapped(totals, exact)
    ensures Derived(totals, os, side)
  {
    hide Reserved;
    NoneReserved(side);
  }

  predicate Agrees(v: Reservation, id: nat, b: B.Book) {
    && v.quantity > 0 && b.Contains(id)
    && var o := b.Lookup(id);
       o.trader == v.trader && o.symbol == v.symbol && o.side == v.side && o.remaining == v.quantity
  }

  /** What `checkInvariant` looks at; its sums are 64-bit. */
  ghost predicate Audit(r: Risk, b: B.Book) {
    && !r.corrupt && b.Count() == |r.orders|
    && (forall id <- r.orders :: Agrees(r.orders[id], id, b))
    && AggregatesAgree(r)
  }

  ghost predicate AggregatesAgree(r: Risk) {
    && (forall k <- r.positions, side: Side :: Working(r.positions[k], side) == Reserved(r.orders, k, side) % U64)
    && (forall id <- r.orders :: KeyOf(r.orders[id]) in r.positions)
  }

  // ----- what a passed audit means --------------------------------------------------------------------------

  /** Every resting order is reserved for exactly what remains of it, which is something, and nothing else is
      reserved. */
  ghost predicate OneToOne(r: Risk, b: B.Book) {
    && (forall o <- b.bids + b.asks ::
          && o.id in r.orders && r.orders[o.id] == Reservation(o.trader, o.symbol, o.side, o.remaining)
          && o.remaining > 0)
    && (forall id <- r.orders :: exists o <- b.bids + b.asks :: o.id == id)
  }

  lemma OneToOneAgrees(r: Risk, b: B.Book)
    requires P.DistinctIds(b.bids) && P.DistinctIds(b.asks) && B.Separate(b)
    ensures OneToOne(r, b) <==> (forall id <- r.orders :: Agrees(r.orders[id], id, b))
                                && (forall o <- b.bids + b.asks :: o.id in r.orders)
  {
    if OneToOne(r, b) {
      forall id <- r.orders ensures Agrees(r.orders[id], id, b) {
        var o :| o in b.bids + b.asks && o.id == id;
        MatchLaws.OnlyOne(b, o);
      }
    }
    if (forall id <- r.orders :: Agrees(r.orders[id], id, b)) && (forall o <- b.bids + b.asks :: o.id in r.orders) {
      forall o <- b.bids + b.asks
        ensures r.orders[o.id] == Reservation(o.trader, o.symbol, o.side, o.remaining) && o.remaining > 0
      {
        MatchLaws.OnlyOne(b, o);
        assert Agrees(r.orders[o.id], o.id, b);
      }
      forall id <- r.orders ensures exists o <- b.bids + b.asks :: o.id == id {
        assert Agrees(r.orders[id], id, b);
        MatchLaws.Looked(b, id);
      }
    }
  }

  function Ids(q: seq<Order>): set<nat> { set o <- q :: o.id }

  lemma {:induction false} IdsCount(q: seq<Order>)
    requires P.DistinctIds(q)
    ensures |Ids(q)| == |q|
  {
    if q != [] {
      var n := |q| - 1;
      assert Ids(q) == Ids(q[..n]) + {q[n].id};
      assert q[n].id !in Ids(q[..n]);
      IdsCount(q[..n]);
    }
  }

  lemma BookIdsCount(b: B.Book)
    requires P.DistinctIds(b.bids) && P.DistinctIds(b.asks) && B.Separate(b)
    ensures |Ids(b.bids + b.asks)| == b.Count()
  {
    IdsCount(b.bids);
    IdsCount(b.asks);
    assert Ids(b.bids + b.asks) == Ids(b.bids) + Ids(b.asks);
    forall id | id in Ids(b.bids) && id in Ids(b.asks) ensures false {
      assert P.Has(b.bids, id) && P.Has(b.asks, id);
    }
  }

  lemma SubsetSize<T>(a: set<T>, b: set<T>)
    requires a <= b
    ensures |a| == |b| <==> a == b
  {
    assert b == a + (b - a);
  }

  /** A consistent engine always passes the aggregate part of the audit. */
  lemma ConsistentAggregates(r: Risk)
    requires Consistent(r)
    ensures AggregatesAgree(r)
  {
    forall id <- r.orders ensures KeyOf(r.orders[id]) in r.positions {
      ReservedCovers(r, id);
    }
    forall k <- r.positions, side: Side ensures Working(r.positions[k], side) == Reserved(r.orders, k, side) % U64 {
      assert Working(At(r, k), side) == Reserved(r.orders, k, side);
    }
  }

  lemma Pigeonhole(os: map<nat, Reservation>, b: B.Book)
    requires P.DistinctIds(b.bids) && P.DistinctIds(b.asks) && B.Separate(b)
    requires forall id <- os :: b.Contains(id)
    ensures b.Count() == |os| <==> forall o <- b.bids + b.asks :: o.id in os
  {
    var ids := Ids(b.bids + b.asks);
    BookIdsCount(b);
    forall id <- os ensures id in ids {
      assert b.Contains(id);
      var o :| o in b.bids + b.asks && o.id == id;
    }
    SubsetSize(os.Keys, ids);
    assert |os| == |os.Keys|;
    assert ids <= os.Keys <==> forall o <- b.bids + b.asks :: o.id in os;
  }

  /** No reservation of the key counts anything. */
  lemma {:induction false} NothingReserved(os: map<nat, Reservation>, k: Key, side: Side)
    requires forall id <- os :: KeyOf(os[id]) != k
    ensures Reserved(os, k, side) == 0
    decreases |os|
  {
    if os != map[] {
      var id :| id in os;
      ReservedSplit(os, id, k, side);
      NothingReserved(os - {id}, k, side);
    }
  }

  /** The true totals: each entry, present or not, holds what is reserved for its key. */
  ghost predicate TotalsTrue(r: Risk) {
    forall k: Key, side: Side :: Working(At(r, k), side) == Reserved(r.orders, k, side)
  }

  lemma AggregatesIff(r: Risk)
    requires forall k: Key, side: Side :: Reserved(r.orders, k, side) < U64
    requires forall id <- r.orders :: r.orders[id].quantity > 0
    ensures AggregatesAgree(r) <==> TotalsTrue(r)
  {
    hide Reserved;
    if AggregatesAgree(r) {
      forall k: Key, side: Side ensures Working(At(r, k), side) == Reserved(r.orders, k, side) {
        if k !in r.positions { NothingReserved(r.orders, k, side); }
        else { assert Working(r.positions[k], side) == Reserved(r.orders, k, side) % U64; }
      }
    }
    if TotalsTrue(r) {
      forall id <- r.orders ensures KeyOf(r.orders[id]) in r.positions {
        var v := r.orders[id];
        ReservedSplit(r.orders, id, KeyOf(v), v.side);
        assert Working(At(r, KeyOf(v)), v.side) == Reserved(r.orders, KeyOf(v), v.side);
      }
      forall k <- r.positions, side: Side ensures Working(r.positions[k], side) == Reserved(r.orders, k, side) % U64 {
        assert Working(At(r, k), side) == Reserved(r.orders, k, side);
      }
    }
  }

  /** The audit finds every fault: for any engine, however its maps came about, whose sums fit in 64 bits, and any book
      with unique ids, it passes exactly when the engine is not corrupt, reservations and resting orders correspond one
      to one, and every working total is the sum of its reservations. */
  lemma AuditExact(r: Risk, b: B.Book)
    requires P.DistinctIds(b.bids) && P.DistinctIds(b.asks) && B.Separate(b)
    requires forall k: Key, side: Side :: Reserved(r.orders, k, side) < U64
    ensures Audit(r, b) <==> !r.corrupt && OneToOne(r, b) && TotalsTrue(r)
  {
    OneToOneAgrees(r, b);
    if forall id <- r.orders :: Agrees(r.orders[id], id, b) {
      AggregatesIff(r);
      hide Agrees, OneToOne, AggregatesAgree, TotalsTrue;
      AgreesContained(r, b);
      Pigeonhole(r.orders, b);
    }
  }

  lemma AgreesContained(r: Risk, b: B.Book)
    requires forall id <- r.orders :: Agrees(r.orders[id], id, b)
    ensures forall id <- r.orders :: b.Contains(id)
  {}

  /** The counting argument is sound: for a consistent engine and any book with unique ids, sorted and uncrossed or not,
      the audit passes exactly when the two sides correspond one to one. */
  lemma AuditIff(r: Risk, b: B.Book)
    requires Consistent(r) && !r.corrupt && P.DistinctIds(b.bids) && P.DistinctIds(b.asks) && B.Separate(b)
    ensures Audit(r, b) <==> OneToOne(r, b)
  {
    ConsistentAggregates(r);
    OneToOneAgrees(r, b);
    hide Agrees, OneToOne, AggregatesAgree, Consistent;
    if forall id <- r.orders :: Agrees(r.orders[id], id, b) { Pigeonhole(r.orders, b); }
  }
}
