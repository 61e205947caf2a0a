/** The order book as the program keeps it: sorted price levels whose queues hold pool slots. Every method is
    proved against the flat book of module `Book`. */
module OrderBook {
  import opened Types
  import opened PriorityList
  import opened Book
  import Flat = Book
  import opened LevelStore
  import opened OrderPool
  import opened SweepLaws
  import opened Thinning

  function TradeOf(inc: Order, f: Fill, id: nat): Trade {
    if inc.side.Buy? then Trade(id, inc.id, f.resting.id, inc.trader, f.resting.trader, f.resting.price, f.quantity)
    else Trade(id, f.resting.id, inc.id, f.resting.trader, inc.trader, f.resting.price, f.quantity)
  }

  /** The trades reported for a sequence of fills, numbered consecutively. */
  function TradesOf(inc: Order, fs: seq<Fill>, id: nat): seq<Trade> {
    seq(|fs|, i requires 0 <= i < |fs| => TradeOf(inc, fs[i], id + i))
  }

  lemma TradesSnoc(inc: Order, fs: seq<Fill>, f: Fill, id: nat)
    ensures TradesOf(inc, fs + [f], id) == TradesOf(inc, fs, id) + [TradeOf(inc, f, id + |fs|)]
  {}

  lemma NoTrades(inc: Order, id: nat)
    ensures TradesOf(inc, [], id) == []
  {}

  /** What the self-trade policy leaves of a queue. */
  function Dropped(q: seq<Order>, inc: Order, all: bool): seq<Order> {
    if all then DropAllOwn(q, inc) else DropFirstOwn(q, inc)
  }

  /** The first `k` orders of `q` are settled; dropping own orders from the rest gives `target`. */
  ghost predicate Settled(q: seq<Order>, k: nat, inc: Order, all: bool, target: seq<Order>) {
    k <= |q| && target == q[..k] + Dropped(q[k..], inc, all)
  }

  lemma SettledStart(q: seq<Order>, inc: Order, all: bool)
    ensures Settled(q, 0, inc, all, Dropped(q, inc, all))
  {}

  lemma SettledStep(q: seq<Order>, k: nat, inc: Order, all: bool, target: seq<Order>)
    requires Settled(q, k, inc, all, target) && k < |q| && Crosses(inc, q[k].price)
    ensures if !Own(inc, q[k]) then Settled(q, k + 1, inc, all, target)
            else if all then Settled(RemoveAt(q, k), k, inc, all, target) else RemoveAt(q, k) == target
  {}

  lemma SettledStop(q: seq<Order>, k: nat, inc: Order, all: bool, target: seq<Order>)
    requires Settled(q, k, inc, all, target) && (k < |q| ==> !Crosses(inc, q[k].price))
    ensures q == target
  {}

  /** The first `k` orders offer `available`, which is not yet enough. */
  ghost predicate Summed(q: seq<Order>, inc: Order, k: nat, available: nat) {
    && k <= |q| && Depth(q, inc) == available + Depth(q[k..], inc)
    && (k > 0 ==> available < inc.remaining && Crosses(inc, q[0].price))
  }

  lemma SummedStart(q: seq<Order>, inc: Order)
    ensures Summed(q, inc, 0, 0)
  {}

  lemma SummedStep(q: seq<Order>, inc: Order, k: nat, available: nat)
    requires Summed(q, inc, k, available) && k < |q| && Crosses(inc, q[k].price)
    ensures if inc.remaining <= available + q[k].remaining then CanFullyFill(q, inc)
            else Summed(q, inc, k + 1, available + q[k].remaining)
  {}

  lemma SummedStop(q: seq<Order>, inc: Order, k: nat, available: nat)
    requires Summed(q, inc, k, available) && (k < |q| ==> !Crosses(inc, q[k].price))
    ensures !CanFullyFill(q, inc)
  {}

  /** The first `k` orders do not decide whether `inc` would trade with its own trader; `need` is what is left then. */
  ghost predicate Undecided(q: seq<Order>, inc: Order, k: nat, need: nat) {
    k <= |q| && WouldSelfTrade(q, inc, inc.remaining) == WouldSelfTrade(q[k..], inc, need)
  }

  lemma UndecidedStart(q: seq<Order>, inc: Order)
    ensures Undecided(q, inc, 0, inc.remaining)
  {}

  lemma UndecidedStep(q: seq<Order>, inc: Order, k: nat, need: nat)
    requires Undecided(q, inc, k, need) && k < |q| && Crosses(inc, q[k].price)
    ensures if q[k].remaining == 0 then Undecided(q, inc, k + 1, need)
            else if q[k].trader == inc.trader then WouldSelfTrade(q, inc, inc.remaining)
            else if need <= q[k].remaining then !WouldSelfTrade(q, inc, inc.remaining)
            else Undecided(q, inc, k + 1, need - q[k].remaining)
  {}

  lemma UndecidedStop(q: seq<Order>, inc: Order, k: nat, need: nat)
    requires Undecided(q, inc, k, need) && (k < |q| ==> !Crosses(inc, q[k].price))
    ensures !WouldSelfTrade(q, inc, inc.remaining)
  {}

  /** Sweeping `q0` has produced `fs` and come down to sweeping `q` with `left` to go. */
  ghost predicate SweptTo(q0: seq<Order>, inc: Order, fs: seq<Fill>, q: seq<Order>, left: nat) {
    var t := Sweep(q, inc, left);
    Sweep(q0, inc, inc.remaining) == Outcome(fs + t.fills, t.rest, t.left)
  }

  lemma SweptDead(q0: seq<Order>, inc: Order, fs: seq<Fill>, q: seq<Order>, left: nat)
    requires SweptTo(q0, inc, fs, q, left) && left > 0 && q != [] && Crosses(inc, q[0].price) && q[0].remaining == 0
    ensures SweptTo(q0, inc, fs, RemoveAt(q, 0), left)
  {
    assert RemoveAt(q, 0) == q[1..];
  }

  /** One round of the sweep at a live front order. */
  lemma SweepTrade(q: seq<Order>, inc: Order, left: nat)
    requires left > 0 && q != [] && Crosses(inc, q[0].price) && q[0].remaining > 0
    ensures var n := Min(left, q[0].remaining);
            var t := Sweep(if n == q[0].remaining then RemoveAt(q, 0)
                           else q[0 := q[0].(remaining := q[0].remaining - n)], inc, left - n);
            Sweep(q, inc, left) == Outcome([Fill(q[0], n)] + t.fills, t.rest, t.left)
  {
    var n := Min(left, q[0].remaining);
    if n == q[0].remaining {
      assert RemoveAt(q, 0) == q[1..];
    } else {
      var o := q[0].(remaining := q[0].remaining - n);
      assert [o] + q[1..] == q[0 := o];
      NothingLeft(q[0 := o], inc);
    }
  }

  lemma NothingLeft(q: seq<Order>, inc: Order)
    ensures Sweep(q, inc, 0) == Outcome([], q, 0)
  {}

  lemma SweptTrade(q0: seq<Order>, inc: Order, fs: seq<Fill>, q: seq<Order>, left: nat)
    requires SweptTo(q0, inc, fs, q, left) && left > 0 && q != [] && Crosses(inc, q[0].price) && q[0].remaining > 0
    ensures var n := Min(left, q[0].remaining);
            SweptTo(q0, inc, fs + [Fill(q[0], n)],
                    if n == q[0].remaining then RemoveAt(q, 0)
                    else q[0 := q[0].(remaining := q[0].remaining - n)], left - n)
  {
    hide Sweep, RemoveAt;
    SweepTrade(q, inc, left);
    var n := Min(left, q[0].remaining);
    var q' := if n == q[0].remaining then RemoveAt(q, 0) else q[0 := q[0].(remaining := q[0].remaining - n)];
    var t := Sweep(q', inc, left - n);
    assert fs + ([Fill(q[0], n)] + t.fills) == fs + [Fill(q[0], n)] + t.fills;
  }

  lemma SweptDone(q0: seq<Order>, inc: Order, fs: seq<Fill>, q: seq<Order>, left: nat)
    requires SweptTo(q0, inc, fs, q, left) && (left == 0 || q == [] || !Crosses(inc, q[0].price))
    ensures Sweep(q0, inc, inc.remaining) == Outcome(fs, q, left)
  {}

  class OrderBook {
    var bids: seq<Level>
    var asks: seq<Level>
    var nextTradeId: nat
    var policy: StpPolicy
    const pool: OrderPool

    function Levels(side: Side): seq<Level>
      reads this
    {
      if side.Buy? then bids else asks
    }

    ghost function Repr(): set<object> { {this, pool, pool.storage, pool.freeList, pool.inUse} }

    /** Slots in use are exactly those the queues hold, each once; levels are in order. */
    ghost predicate Valid()
      reads Repr()
    {
      pool.Valid() && Kept(Buy, bids, asks, pool.storage[..], pool.used)
    }

    /** The flat book this object stands for. */
    ghost function View(): Book
      reads Repr()
      requires Valid()
    {
      Book(Orders(Slots(bids), pool.storage[..]), Orders(Slots(asks), pool.storage[..]))
    }

    ghost function Capacity(): nat { pool.storage.Length }

    constructor (capacity: nat)
      ensures Valid() && View() == EMPTY && Capacity() == capacity && nextTradeId == 1 && policy == NoStp
              && fresh(Repr())
    {
      bids, asks := [], [];
      nextTradeId := 1;
      policy := NoStp;
      pool := new OrderPool(capacity);
    }

    /** Slots are neither leaked nor shared: the pool's free count is what the book does not hold. */
    lemma SlotsConserved()
      requires Valid()
      ensures View().Count() == |pool.used| <= Capacity()
    {
      HeldOnce(Slots(bids), Slots(asks), pool.used);
    }

    method OrderCount() returns (n: nat)
      requires Valid()
      ensures n == View().Count() == |pool.used|
    {
      n := 0;
      for i := 0 to |bids|
        invariant n == |Slots(bids[..i])|
      {
        NextPlace(bids, i);
        n := n + |bids[i].slots|;
      }
      assert bids[..|bids|] == bids;
      for i := 0 to |asks|
        invariant n == |Slots(bids)| + |Slots(asks[..i])|
      {
        NextPlace(asks, i);
        n := n + |asks[i].slots|;
      }
      assert asks[..|asks|] == asks;
      SlotsConserved();
    }

    // ----- storage primitives -----------------------------------------------------------------------

    /** Binary search for the level of `price`. */
    method FindLevel(side: Side, price: int) returns (low: nat)
      requires Valid()
      ensures IsLevelIndex(side, Levels(side), price, low)
    {
      var levels := Levels(side);
      assert Ranked(side, levels);
      low := 0;
      var high := |levels|;
      while low < high
        invariant low <= high <= |levels|
        invariant forall n :: 0 <= n < low ==> Better(side, levels[n].price, price)
        invariant forall n :: high <= n < |levels| ==> !Better(side, levels[n].price, price)
      {
        var mid := low + (high - low) / 2;
        if Better(side, levels[mid].price, price) {
          low := mid + 1;
        } else {
          high := mid;
        }
      }
    }

    /** Gives the slot back to the pool; an emptied level is erased. */
    method EraseAt(side: Side, i: nat, j: nat)
      requires Valid() && i < |Levels(side)| && j < |Levels(side)[i].slots|
      modifies Repr()
      ensures Valid() && nextTradeId == old(nextTradeId) && policy == old(policy)
      ensures Levels(side) == Erase(old(Levels(side)), i, j) && Levels(side.Opposite()) == old(Levels(side.Opposite()))
      ensures Place(old(Levels(side)), i, j) < |old(View()).Queue(side)|
      ensures View() == old(View()).With(side, RemoveAt(old(View()).Queue(side), Place(old(Levels(side)), i, j)))
    {
      hide Kept, Slots, Orders, InStore, Erase;
      ghost var levels, other := Levels(side), Levels(side.Opposite());
      ghost var st, used := pool.storage[..], pool.used;
      if side.Sell? { KeptSwap(Buy, bids, asks, st, used); }
      KeptErase(side, levels, other, st, used, i, j);
      var r := pool.Deallocate(Levels(side)[i].slots[j]);
      assert r.Released?;
      if side.Buy? { bids := Erase(bids, i, j); } else { asks := Erase(asks, i, j); }
      assert pool.storage[..] == st;
      if side.Sell? { KeptSwap(Sell, asks, bids, st, pool.used); }
    }

    /** Overwrites one order in place, at its price. */
    method Overwrite(side: Side, i: nat, j: nat, o: Order)
      requires Valid() && i < |Levels(side)| && j < |Levels(side)[i].slots| && o.price == Levels(side)[i].price
      modifies pool.storage
      ensures Valid() && pool.used == old(pool.used)
      ensures Place(Levels(side), i, j) < |old(View()).Queue(side)|
      ensures View() == old(View()).With(side, old(View()).Queue(side)[Place(Levels(side), i, j) := o])
    {
      hide Kept, Slots, Orders, InStore;
      ghost var levels, other := Levels(side), Levels(side.Opposite());
      ghost var st, used := pool.storage[..], pool.used;
      if side.Sell? { KeptSwap(Buy, bids, asks, st, used); }
      KeptOverwrite(side, levels, other, st, used, i, j, o);
      var slot := Levels(side)[i].slots[j];
      pool.storage[slot] := o;
      assert pool.storage[..] == st[slot := o];
      if side.Sell? { KeptSwap(Sell, asks, bids, pool.storage[..], used); }
    }

    // ----- resting ----------------------------------------------------------------------------------

    /** Draws a slot for the order and enters it in level `i`, opening the level if needed. */
    method Enter(o: Order, i: nat) returns (ok: bool)
      requires Valid() && i <= |Levels(o.side)| && IsLevelIndex(o.side, Levels(o.side), o.price, i)
      modifies Repr()
      ensures Valid() && nextTradeId == old(nextTradeId) && policy == old(policy)
      ensures ok <==> |old(pool.used)| < Capacity()
      ensures View() == if ok then old(View()).With(o.side, Insert(o.side, old(View()).Queue(o.side), o))
                        else old(View())
    {
      hide Kept, Slots, Orders, InStore, Placed, Insert, IsLevelIndex;
      ghost var levels, other := Levels(o.side), Levels(o.side.Opposite());
      ghost var st, used := pool.storage[..], pool.used;
      if o.side.Sell? { KeptSwap(Buy, bids, asks, st, used); }
      var slot := pool.Store(o);
      if slot.None? {
        return false;
      }
      KeptStore(o.side, levels, other, st, used, slot.value, o);
      KeptPlace(o.side, levels, other, pool.storage[..], used, i, slot.value);
      if o.side.Buy? {
        bids := Placed(bids, i, o.price, slot.value);
      } else {
        asks := Placed(asks, i, o.price, slot.value);
        KeptSwap(Sell, asks, bids, pool.storage[..], pool.used);
      }
      return true;
    }

    /** Rests the order behind everyone at its price; fails, changing nothing, on a zero quantity or a full pool. */
    method AddOrder(o: Order) returns (ok: bool)
      requires Valid()
      modifies Repr()
      ensures Valid() && nextTradeId == old(nextTradeId) && policy == old(policy)
      ensures ok <==> CanRest(old(View()), o, Capacity())
      ensures View() == Flat.AddOrder(old(View()), o, Capacity())
    {
      SlotsConserved();
      if o.quantity == 0 || o.remaining == 0 {
        return false;
      }
      hide Kept, Slots, Orders, InStore, Insert;
      var i := FindLevel(o.side, o.price);
      ok := Enter(o, i);
    }

    // ----- searching by id ----------------------------------------------------------------------------

    /** The order at place (i, j) is the one the flat list has there. */
    lemma OrderAt(side: Side, i: nat, j: nat)
      requires Valid() && i < |Levels(side)| && j < |Levels(side)[i].slots|
      ensures var s, k := Levels(side)[i].slots[j], Place(Levels(side), i, j);
              && s < pool.storage.Length && k < |View().Queue(side)| && View().Queue(side)[k] == pool.storage[s]
              && pool.storage[s].price == Levels(side)[i].price
    {
      SlotAt(Levels(side), i, j);
      assert LevelOk(Levels(side)[i], pool.storage[..]);
    }

    /** Scans the levels from the best price, each from the front. */
    method FindIn(side: Side, id: nat) returns (found: bool, i: nat, j: nat)
      requires Valid()
      ensures found <==> Has(View().Queue(side), id)
      ensures found ==> i < |Levels(side)| && j < |Levels(side)[i].slots|
                        && Place(Levels(side), i, j) == Position(View().Queue(side), id)
    {
      hide Kept, Slots, Orders, InStore;
      ghost var q := View().Queue(side);
      i, j := 0, 0;
      PlaceBounds(side);
      while i < |Levels(side)|
        invariant i <= |Levels(side)| && Place(Levels(side), i, 0) <= |q|
        invariant i == |Levels(side)| ==> Place(Levels(side), i, 0) == |q|
        invariant forall n :: 0 <= n < Place(Levels(side), i, 0) ==> q[n].id != id
      {
        j := 0;
        while j < |Levels(side)[i].slots|
          invariant j <= |Levels(side)[i].slots| && Place(Levels(side), i, j) <= |q|
          invariant forall n :: 0 <= n < Place(Levels(side), i, j) ==> q[n].id != id
        {
          OrderAt(side, i, j);
          if pool.storage[Levels(side)[i].slots[j]].id == id {
            assert q[Place(Levels(side), i, j)].id == id;
            return true, i, j;
          }
          j := j + 1;
        }
        StepLevel(side, i);
        i := i + 1;
      }
      return false, 0, 0;
    }

    lemma PlaceBounds(side: Side)
      requires Valid()
      ensures Place(Levels(side), 0, 0) == 0
      ensures Levels(side) == [] ==> View().Queue(side) == []
    {}

    lemma StepLevel(side: Side, i: nat)
      requires Valid() && i < |Levels(side)|
      ensures Place(Levels(side), i + 1, 0) == Place(Levels(side), i, |Levels(side)[i].slots|) <= |View().Queue(side)|
      ensures i + 1 == |Levels(side)| ==> Place(Levels(side), i + 1, 0) == |View().Queue(side)|
    {
      NextPlace(Levels(side), i);
      assert Levels(side)[..|Levels(side)|] == Levels(side);
    }

    /** Bids are searched before asks. */
    method Find(id: nat) returns (found: bool, side: Side, i: nat, j: nat)
      requires Valid()
      ensures found <==> View().Contains(id)
      ensures found ==> side == View().SideOf(id) && i < |Levels(side)| && j < |Levels(side)[i].slots|
                        && Place(Levels(side), i, j) == Position(View().Queue(side), id)
    {
      hide Kept, Slots, Orders, InStore;
      side := Buy;
      found, i, j := FindIn(Buy, id);
      if !found {
        side := Sell;
        found, i, j := FindIn(Sell, id);
      }
    }

    method GetOrder(id: nat) returns (r: Option<Order>)
      requires Valid()
      ensures r == if View().Contains(id) then Some(View().Lookup(id)) else None
    {
      hide Kept, Slots, Orders, InStore;
      var found, side, i, j := Find(id);
      if !found {
        return None;
      }
      OrderAt(side, i, j);
      return Some(pool.storage[Levels(side)[i].slots[j]]);
    }

    // ----- edits by id ----------------------------------------------------------------------------------

    method CancelOrder(id: nat) returns (ok: bool)
      requires Valid()
      modifies Repr()
      ensures Valid() && nextTradeId == old(nextTradeId) && policy == old(policy)
      ensures ok <==> old(View()).Contains(id)
      ensures View() == Flat.CancelOrder(old(View()), id)
    {
      hide Kept, Slots, Orders, InStore;
      var side, i, j;
      ok, side, i, j := Find(id);
      if ok {
        EraseAt(side, i, j);
      }
    }

    /** Reduces the order, removing it at zero; refuses zero and anything beyond what remains. */
    method ApplyFill(id: nat, quantity: nat) returns (ok: bool)
      requires Valid()
      modifies Repr()
      ensures Valid() && nextTradeId == old(nextTradeId) && policy == old(policy)
      ensures ok <==> CanFill(old(View()), id, quantity)
      ensures View() == Flat.ApplyFill(old(View()), id, quantity)
    {
      hide Kept, Slots, Orders, InStore, FillAt, Has;
      if quantity == 0 {
        return false;
      }
      var found, side, i, j := Find(id);
      if !found {
        return false;
      }
      ok := Reduce(side, i, j, quantity);
    }

    method Reduce(side: Side, i: nat, j: nat, quantity: nat) returns (ok: bool)
      requires Valid() && i < |Levels(side)| && j < |Levels(side)[i].slots|
      requires Place(Levels(side), i, j) < |View().Queue(side)|
      modifies Repr()
      ensures Valid() && nextTradeId == old(nextTradeId) && policy == old(policy)
      ensures var q, k := old(View()).Queue(side), old(Place(Levels(side), i, j));
              && (ok <==> quantity <= q[k].remaining)
              && View() == if ok then old(View()).With(side, FillAt(q, k, quantity)) else old(View())
    {
      hide Kept, Slots, Orders, InStore;
      OrderAt(side, i, j);
      var o := pool.storage[Levels(side)[i].slots[j]];
      if o.remaining < quantity {
        return false;
      }
      if o.remaining == quantity {
        EraseAt(side, i, j);
      } else {
        Overwrite(side, i, j, o.(remaining := o.remaining - quantity));
      }
      return true;
    }

    // ----- lookaheads -----------------------------------------------------------------------------------

    method CanFullyFill(inc: Order) returns (ok: bool)
      requires Valid()
      ensures ok <==> PriorityList.CanFullyFill(View().Queue(inc.side.Opposite()), inc)
    {
      hide Kept, Slots, Orders, InStore, PriorityList.CanFullyFill, Summed;
      var side := inc.side.Opposite();
      ghost var q := View().Queue(side);
      var available: nat := 0;
      var i := 0;
      PlaceBounds(side);
      SummedStart(q, inc);
      while i < |Levels(side)|
        invariant i <= |Levels(side)| && Place(Levels(side), i, 0) <= |q|
        invariant i == |Levels(side)| ==> Place(Levels(side), i, 0) == |q|
        invariant Summed(q, inc, Place(Levels(side), i, 0), available)
      {
        if !Crosses(inc, Levels(side)[i].price) {
          LevelHead(side, i);
          SummedStop(q, inc, Place(Levels(side), i, 0), available);
          return false;
        }
        var j := 0;
        while j < |Levels(side)[i].slots|
          invariant j <= |Levels(side)[i].slots| && Place(Levels(side), i, j) <= |q|
          invariant Summed(q, inc, Place(Levels(side), i, j), available)
        {
          OrderAt(side, i, j);
          SummedStep(q, inc, Place(Levels(side), i, j), available);
          available := available + pool.storage[Levels(side)[i].slots[j]].remaining;
          if available >= inc.remaining {
            return true;
          }
          j := j + 1;
        }
        StepLevel(side, i);
        i := i + 1;
      }
      SummedStop(q, inc, |q|, available);
      return false;
    }

    /** The first order of a level carries the level's price. */
    lemma LevelHead(side: Side, i: nat)
      requires Valid() && i < |Levels(side)|
      ensures var k := Place(Levels(side), i, 0);
              k < |View().Queue(side)| && View().Queue(side)[k].price == Levels(side)[i].price
    {
      assert LevelOk(Levels(side)[i], pool.storage[..]);
      OrderAt(side, i, 0);
    }

    method WouldSelfTrade(inc: Order) returns (yes: bool)
      requires Valid()
      ensures yes <==> PriorityList.WouldSelfTrade(View().Queue(inc.side.Opposite()), inc, inc.remaining)
    {
      hide Kept, Slots, Orders, InStore, PriorityList.WouldSelfTrade, Undecided;
      var side := inc.side.Opposite();
      ghost var q := View().Queue(side);
      var remaining: nat := inc.remaining;
      var i := 0;
      PlaceBounds(side);
      UndecidedStart(q, inc);
      while i < |Levels(side)|
        invariant i <= |Levels(side)| && Place(Levels(side), i, 0) <= |q|
        invariant i == |Levels(side)| ==> Place(Levels(side), i, 0) == |q|
        invariant Undecided(q, inc, Place(Levels(side), i, 0), remaining)
      {
        if !Crosses(inc, Levels(side)[i].price) {
          LevelHead(side, i);
          UndecidedStop(q, inc, Place(Levels(side), i, 0), remaining);
          return false;
        }
        var j := 0;
        while j < |Levels(side)[i].slots|
          invariant j <= |Levels(side)[i].slots| && Place(Levels(side), i, j) <= |q|
          invariant Undecided(q, inc, Place(Levels(side), i, j), remaining)
        {
          OrderAt(side, i, j);
          UndecidedStep(q, inc, Place(Levels(side), i, j), remaining);
          var o := pool.storage[Levels(side)[i].slots[j]];
          if o.remaining != 0 {
            if o.trader == inc.trader {
              return true;
            }
            remaining := remaining - Min(remaining, o.remaining);
            if remaining == 0 {
              return false;
            }
          }
          j := j + 1;
        }
        StepLevel(side, i);
        i := i + 1;
      }
      UndecidedStop(q, inc, |q|, remaining);
      return false;
    }

    // ----- self-trade prevention --------------------------------------------------------------------------

    /** Where (i, j) stays after the order there is erased. */
    lemma PlaceAfterErase(levels: seq<Level>, i: nat, j: nat)
      requires i < |levels| && j < |levels[i].slots|
      ensures i <= |Erase(levels, i, j)| && Place(Erase(levels, i, j), i, j) == Place(levels, i, j)
      ensures |levels[i].slots| == 1 ==> j == 0
      ensures |levels[i].slots| > 1 ==> i < |Erase(levels, i, j)| && Erase(levels, i, j)[i].price == levels[i].price
                                        && |Erase(levels, i, j)[i].slots| == |levels[i].slots| - 1
    {}

    /** The prefix before place (i, j) is settled; the rest is still to be thinned out. */
    ghost predicate Thinning(inc: Order, all: bool, i: nat, j: nat, target: seq<Order>)
      reads Repr()
    {
      && Valid() && i <= |Levels(inc.side.Opposite())|
      && Place(Levels(inc.side.Opposite()), i, j) <= |View().Queue(inc.side.Opposite())|
      && Settled(View().Queue(inc.side.Opposite()), Place(Levels(inc.side.Opposite()), i, j), inc, all, target)
    }

    ghost function Ahead(side: Side, i: nat, j: nat): int
      requires Valid() && i <= |Levels(side)|
      reads Repr()
    {
      |View().Queue(side)| - Place(Levels(side), i, j)
    }

    /** The level at (i, j) when the scan of `price` begins or goes on there. */
    predicate AtPrice(side: Side, i: nat, j: nat, price: int)
      reads this
    {
      i < |Levels(side)| && Levels(side)[i].price == price && j < |Levels(side)[i].slots|
    }

    /** Looks at one order: cancels it if it is the trader's own and live. */
    method CancelIfOwn(inc: Order, all: bool, i: nat, j: nat, price: int, ghost target: seq<Order>)
      returns (done: bool, next: nat)
      requires Thinning(inc, all, i, j, target) && AtPrice(inc.side.Opposite(), i, j, price) && Crosses(inc, price)
      modifies Repr()
      ensures Valid() && nextTradeId == old(nextTradeId) && policy == old(policy)
      ensures View() == old(View()).With(inc.side.Opposite(), View().Queue(inc.side.Opposite()))
      ensures done ==> View().Queue(inc.side.Opposite()) == target
      ensures !done ==> Thinning(inc, all, i, next, target)
                        && Ahead(inc.side.Opposite(), i, next) < old(Ahead(inc.side.Opposite(), i, j))
      ensures !done && next > 0 ==> var ls := Levels(inc.side.Opposite());
                                    i < |ls| && ls[i].price == price && next <= |ls[i].slots|
    {
      hide Kept, Slots, Orders, InStore, Erase, Settled;
      var side := inc.side.Opposite();
      OrderAt(side, i, j);
      SettledStep(View().Queue(side), Place(Levels(side), i, j), inc, all, target);
      var o := pool.storage[Levels(side)[i].slots[j]];
      if o.trader == inc.trader && o.remaining > 0 {
        PlaceAfterErase(Levels(side), i, j);
        EraseAt(side, i, j);
        return !all, j;
      }
      return false, j + 1;
    }

    /** One level's worth of cancellations; `next` is the level to continue with. */
    method CancelOwnIn(inc: Order, all: bool, i: nat, ghost target: seq<Order>) returns (done: bool, next: nat)
      requires Thinning(inc, all, i, 0, target) && i < |Levels(inc.side.Opposite())|
      requires Crosses(inc, Levels(inc.side.Opposite())[i].price)
      modifies Repr()
      ensures Valid() && nextTradeId == old(nextTradeId) && policy == old(policy)
      ensures View() == old(View()).With(inc.side.Opposite(), View().Queue(inc.side.Opposite()))
      ensures done ==> View().Queue(inc.side.Opposite()) == target
      ensures !done ==> Thinning(inc, all, next, 0, target)
                        && Ahead(inc.side.Opposite(), next, 0) < old(Ahead(inc.side.Opposite(), i, 0))
    {
      hide Kept, Slots, Orders, InStore, Settled;
      var side := inc.side.Opposite();
      ghost var v0, ahead := View(), Ahead(side, i, 0);
      FrontOf(side, i);
      var price := Levels(side)[i].price;
      var j: nat := 0;
      while i < |Levels(side)| && Levels(side)[i].price == price && j < |Levels(side)[i].slots|
        invariant Thinning(inc, all, i, j, target) && nextTradeId == old(nextTradeId) && policy == old(policy)
        invariant j > 0 ==> i < |Levels(side)| && Levels(side)[i].price == price && j <= |Levels(side)[i].slots|
        invariant View() == v0.With(side, View().Queue(side))
        invariant Ahead(side, i, j) < ahead || (Ahead(side, i, j) == ahead && AtPrice(side, i, j, price))
        decreases Ahead(side, i, j)
      {
        done, j := CancelIfOwn(inc, all, i, j, price, target);
        if done {
          return true, i;
        }
      }
      if i < |Levels(side)| && Levels(side)[i].price == price {
        StepLevel(side, i);
        return false, i + 1;
      }
      return false, i;
    }

    lemma FrontOf(side: Side, i: nat)
      requires Valid() && i < |Levels(side)|
      ensures Levels(side)[i].slots != []
    {}

    /** Cancels the incoming trader's live orders within its limit: all of them, or only the first. */
    method CancelOwn(inc: Order, all: bool)
      requires Valid()
      modifies Repr()
      ensures Valid() && nextTradeId == old(nextTradeId) && policy == old(policy)
      ensures var side := inc.side.Opposite();
              View() == old(View()).With(side, Dropped(old(View()).Queue(side), inc, all))
    {
      hide Kept, Slots, Orders, InStore, Dropped, Settled;
      var side := inc.side.Opposite();
      ghost var v0, q0 := View(), View().Queue(side);
      ghost var target := Dropped(q0, inc, all);
      PlaceBounds(side);
      SettledStart(q0, inc, all);
      var i: nat := 0;
      while i < |Levels(side)|
        invariant Thinning(inc, all, i, 0, target) && nextTradeId == old(nextTradeId) && policy == old(policy)
        invariant View() == v0.With(side, View().Queue(side))
        decreases Ahead(side, i, 0)
      {
        LevelHead(side, i);
        if !Crosses(inc, Levels(side)[i].price) {
          break;
        }
        var done, next := CancelOwnIn(inc, all, i, target);
        if done {
          return;
        }
        i := next;
      }
      if i == |Levels(side)| { AllPlaces(side); }
      SettledStop(View().Queue(side), Place(Levels(side), i, 0), inc, all, target);
    }

    lemma AllPlaces(side: Side)
      requires Valid()
      ensures Place(Levels(side), |Levels(side)|, 0) == |View().Queue(side)|
    {
      assert Levels(side)[..|Levels(side)|] == Levels(side);
    }

    // ----- matching ---------------------------------------------------------------------------------------

    /** Trades with the best level from the front until nothing is left or nothing crosses. */
    method MatchLoop(inc: Order) returns (trades: seq<Trade>, left: nat)
      requires Valid()
      modifies Repr()
      ensures Valid() && policy == old(policy)
      ensures var s := Sweep(old(View()).Queue(inc.side.Opposite()), inc, inc.remaining);
              && View() == old(View()).With(inc.side.Opposite(), s.rest) && left == s.left
              && trades == TradesOf(inc, s.fills, old(nextTradeId)) && nextTradeId == old(nextTradeId) + |s.fills|
    {
      hide Kept, Slots, Orders, InStore, Sweep, SweptTo, TradesOf, TradeOf;
      var side := inc.side.Opposite();
      NoTrades(inc, nextTradeId);
      ghost var v0, id0, fills := View(), nextTradeId, [];
      ghost var q0 := v0.Queue(side);
      trades, left := [], inc.remaining;
      assert SweptTo(q0, inc, fills, q0, left) by { StartSweep(q0, inc); }
      while left > 0 && Levels(side) != []
        invariant Valid() && policy == old(policy) && View() == v0.With(side, View().Queue(side))
        invariant SweptTo(q0, inc, fills, View().Queue(side), left)
        invariant trades == TradesOf(inc, fills, id0) && nextTradeId == id0 + |fills|
        decreases |View().Queue(side)|, left
      {
        FrontOrder(side);
        var price := Levels(side)[0].price;
        if !Crosses(inc, price) {
          break;
        }
        var trade;
        ghost var f;
        trade, left, f := Advance(inc, left, price, q0, fills);
        if trade.Some? {
          TradesSnoc(inc, fills, f, id0);
          fills := fills + [f];
          trades := trades + [trade.value];
        }
      }
      if Levels(side) == [] { PlaceBounds(side); }
      SweptDone(q0, inc, fills, View().Queue(side), left);
    }

    /** One round at the best level: pops what is already at zero, then trades unless that emptied the level. */
    method Advance(inc: Order, need: nat, price: int, ghost q0: seq<Order>, ghost fills: seq<Fill>)
      returns (trade: Option<Trade>, left: nat, ghost f: Fill)
      requires Valid() && need > 0 && Levels(inc.side.Opposite()) != [] && Levels(inc.side.Opposite())[0].price == price
      requires Crosses(inc, price) && SweptTo(q0, inc, fills, View().Queue(inc.side.Opposite()), need)
      modifies Repr()
      ensures Valid() && policy == old(policy)
      ensures View() == old(View()).With(inc.side.Opposite(), View().Queue(inc.side.Opposite()))
      ensures SweptTo(q0, inc, if trade.Some? then fills + [f] else fills, View().Queue(inc.side.Opposite()), left)
      ensures if trade.Some? then
                && trade.value == TradeOf(inc, f, old(nextTradeId)) && nextTradeId == old(nextTradeId) + 1
                && left < need
                && |View().Queue(inc.side.Opposite())| <= |old(View()).Queue(inc.side.Opposite())|
              else
                && nextTradeId == old(nextTradeId) && left == need
                && |View().Queue(inc.side.Opposite())| < |old(View()).Queue(inc.side.Opposite())|
    {
      hide Kept, Slots, Orders, InStore, Sweep, SweptTo, TradeOf;
      var side := inc.side.Opposite();
      DropDead(inc, need, price, q0, fills);
      if Levels(side) == [] || Levels(side)[0].price != price {
        return None, need, Fill(inc, 0);
      }
      var t;
      t, left, f := Hit(inc, need, q0, fills);
      trade := Some(t);
    }

    /** One trade with the front order, for as much as both sides have. */
    method Hit(inc: Order, need: nat, ghost q0: seq<Order>, ghost fills: seq<Fill>)
      returns (trade: Trade, left: nat, ghost f: Fill)
      requires Valid() && need > 0 && Levels(inc.side.Opposite()) != []
      requires Crosses(inc, Levels(inc.side.Opposite())[0].price)
      requires View().Queue(inc.side.Opposite()) != [] && View().Queue(inc.side.Opposite())[0].remaining > 0
      requires SweptTo(q0, inc, fills, View().Queue(inc.side.Opposite()), need)
      modifies Repr()
      ensures Valid() && policy == old(policy) && nextTradeId == old(nextTradeId) + 1 && left < need
      ensures trade == TradeOf(inc, f, old(nextTradeId))
      ensures View() == old(View()).With(inc.side.Opposite(), View().Queue(inc.side.Opposite()))
      ensures |View().Queue(inc.side.Opposite())| <= |old(View()).Queue(inc.side.Opposite())|
      ensures SweptTo(q0, inc, fills + [f], View().Queue(inc.side.Opposite()), left)
    {
      hide Kept, Slots, Orders, InStore, Sweep, SweptTo;
      var side := inc.side.Opposite();
      FrontOrder(side);
      var o := pool.storage[Levels(side)[0].slots[0]];
      var n := Min(need, o.remaining);
      SweptTrade(q0, inc, fills, View().Queue(side), need);
      f := Fill(o, n);
      trade := TradeOf(inc, Fill(o, n), nextTradeId);
      left := need - n;
      nextTradeId := nextTradeId + 1;
      Execute(side, n);
    }

    lemma StartSweep(q: seq<Order>, inc: Order)
      ensures SweptTo(q, inc, [], q, inc.remaining)
    {}

    /** The front order of the best level heads the flat list. */
    lemma FrontOrder(side: Side)
      requires Valid() && Levels(side) != []
      ensures Levels(side)[0].slots != [] && Levels(side)[0].slots[0] < pool.storage.Length
      ensures View().Queue(side) != [] && View().Queue(side)[0] == pool.storage[Levels(side)[0].slots[0]]
      ensures View().Queue(side)[0].price == Levels(side)[0].price && Place(Levels(side), 0, 0) == 0
    {}

    /** Pops orders already at zero from the front of the level at `price`. */
    method DropDead(inc: Order, left: nat, price: int, ghost q0: seq<Order>, ghost fills: seq<Fill>)
      requires Valid() && left > 0 && Crosses(inc, price)
      requires SweptTo(q0, inc, fills, View().Queue(inc.side.Opposite()), left)
      modifies Repr()
      ensures Valid() && nextTradeId == old(nextTradeId) && policy == old(policy)
      ensures View() == old(View()).With(inc.side.Opposite(), View().Queue(inc.side.Opposite()))
      ensures SweptTo(q0, inc, fills, View().Queue(inc.side.Opposite()), left)
      ensures |View().Queue(inc.side.Opposite())| <= |old(View()).Queue(inc.side.Opposite())|
      ensures var ls := Levels(inc.side.Opposite());
              if ls == [] || ls[0].price != price
              then old(Levels(inc.side.Opposite())) == [] || old(Levels(inc.side.Opposite()))[0].price != price
                   || |View().Queue(inc.side.Opposite())| < |old(View()).Queue(inc.side.Opposite())|
              else View().Queue(inc.side.Opposite()) != [] && View().Queue(inc.side.Opposite())[0].remaining > 0
    {
      hide Kept, Slots, Orders, InStore, Erase, Sweep, SweptTo;
      var side := inc.side.Opposite();
      ghost var v0 := View();
      if Levels(side) != [] { FrontOrder(side); }
      while Levels(side) != [] && Levels(side)[0].price == price
            && pool.storage[Levels(side)[0].slots[0]].remaining == 0
        invariant Valid() && nextTradeId == old(nextTradeId) && policy == old(policy)
        invariant Levels(side) != [] ==> Levels(side)[0].slots != [] && Levels(side)[0].slots[0] < pool.storage.Length
        invariant View() == v0.With(side, View().Queue(side)) && SweptTo(q0, inc, fills, View().Queue(side), left)
        invariant Levels(side) == old(Levels(side)) || |View().Queue(side)| < |v0.Queue(side)|
        invariant |View().Queue(side)| <= |v0.Queue(side)|
        decreases |View().Queue(side)|
      {
        FrontOrder(side);
        SweptDead(q0, inc, fills, View().Queue(side), left);
        EraseAt(side, 0, 0);
        if Levels(side) != [] { FrontOrder(side); }
      }
      if Levels(side) != [] { FrontOrder(side); }
    }

    /** Takes `n` from the front order, popping it when nothing remains. */
    method Execute(side: Side, n: nat)
      requires Valid() && Levels(side) != [] && View().Queue(side) != [] && n <= View().Queue(side)[0].remaining
      modifies Repr()
      ensures Valid() && nextTradeId == old(nextTradeId) && policy == old(policy)
      ensures var q := old(View()).Queue(side);
              View() == old(View()).With(side, if n == q[0].remaining then RemoveAt(q, 0)
                                               else q[0 := q[0].(remaining := q[0].remaining - n)])
    {
      hide Kept, Slots, Orders, InStore, Erase;
      FrontOrder(side);
      ghost var q := View().Queue(side);
      var o := pool.storage[Levels(side)[0].slots[0]];
      Overwrite(side, 0, 0, o.(remaining := o.remaining - n));
      if o.remaining == n {
        FrontOrder(side);
        EraseAt(side, 0, 0);
        assert RemoveAt(q[0 := o.(remaining := 0)], 0) == RemoveAt(q, 0);
      }
    }

    /** Trades, then rests what is left of a LIMIT order; a failure to rest goes unnoticed. */
    method TradeAndRest(inc: Order) returns (trades: seq<Trade>, left: nat)
      requires Valid()
      modifies Repr()
      ensures Valid() && policy == old(policy)
      ensures var m := Flat.TradeAndRest(old(View()), inc, Capacity());
              && View() == m.book && left == m.left
              && trades == TradesOf(inc, m.fills, old(nextTradeId)) && nextTradeId == old(nextTradeId) + |m.fills|
    {
      hide Kept, Slots, Orders, InStore, Sweep, Flat.AddOrder;
      trades, left := MatchLoop(inc);
      if left > 0 && !inc.kind.Market? && !inc.kind.Ioc? && !inc.kind.Fok? {
        var ok := AddOrder(inc.(remaining := left));
      }
    }

    /** Fill-or-kill check, self-trade policy, matching, resting. */
    method MatchOrder(inc: Order) returns (trades: seq<Trade>, left: nat)
      requires Valid()
      modifies Repr()
      ensures Valid() && policy == old(policy)
      ensures var m := Match(old(View()), inc, policy, Capacity());
              && View() == m.book && left == m.left
              && trades == TradesOf(inc, m.fills, old(nextTradeId)) && nextTradeId == old(nextTradeId) + |m.fills|
    {
      hide Kept, Slots, Orders, InStore, Sweep, Flat.TradeAndRest;
      if inc.kind.Fok? {
        var ok := CanFullyFill(inc);
        if !ok {
          return [], inc.remaining;
        }
      }
      if !policy.NoStp? {
        var own := WouldSelfTrade(inc);
        if own {
          match policy {
            case CancelNewest => return [], inc.remaining;
            case CancelBoth =>
              CancelOwn(inc, true);
              return [], inc.remaining;
            case CancelOldest => CancelOwn(inc, false);
            case NoStp => assert false;
          }
        }
      }
      trades, left := TradeAndRest(inc);
    }

    // ----- replace ------------------------------------------------------------------------------------------

    /** New terms for a resting order: refused, removed, reduced in place, or matched anew and put at the back. */
    method ReplaceOrder(id: nat, price: int, quantity: nat, priority: nat)
      returns (ok: bool, trades: seq<Trade>, left: nat)
      requires Valid() && (View().Contains(id) ==> View().Lookup(id).remaining <= View().Lookup(id).quantity)
      modifies Repr()
      ensures Valid() && policy == old(policy)
      ensures var r := Flat.ReplaceOrder(old(View()), id, price, quantity, priority, policy, Capacity());
              if r.Refused? then
                !ok && View() == old(View()) && trades == [] && left == 0 && nextTradeId == old(nextTradeId)
              else && ok && View() == r.book && left == r.left
                   && trades == TradesOf(old(View()).Lookup(id), r.fills, old(nextTradeId))
                   && nextTradeId == old(nextTradeId) + |r.fills|
    {
      hide Kept, Slots, Orders, InStore, Match, Erase, Has, RemoveAt, TradesOf;
      if quantity > 0 && price <= 0 {
        return false, [], 0;
      }
      var found, side, i, j := Find(id);
      if !found {
        return false, [], 0;
      }
      OrderAt(side, i, j);
      var o := pool.storage[Levels(side)[i].slots[j]];
      NoTrades(o, nextTradeId);
      var filled := o.quantity - o.remaining;
      if 0 < quantity < filled {
        return false, [], 0;
      }
      if quantity == 0 {
        EraseAt(side, i, j);
        return true, [], 0;
      }
      if price == o.price && quantity < o.quantity {
        Overwrite(side, i, j, o.(quantity := quantity, remaining := quantity - filled));
        return true, [], quantity - filled;
      }
      EraseAt(side, i, j);
      ok := true;
      trades, left := Reenter(o, price, quantity, priority);
    }

    /** Matches the reissued order, unless all of its new quantity had already traded. */
    method Reenter(o: Order, price: int, quantity: nat, priority: nat) returns (trades: seq<Trade>, left: nat)
      requires Valid() && o.quantity - o.remaining <= quantity
      modifies Repr()
      ensures Valid() && policy == old(policy)
      ensures var m := if quantity == o.quantity - o.remaining then Matched(old(View()), [], 0)
                       else Match(old(View()), Reissue(o, price, quantity, priority), policy, Capacity());
              && View() == m.book && left == m.left
              && trades == TradesOf(o, m.fills, old(nextTradeId)) && nextTradeId == old(nextTradeId) + |m.fills|
    {
      hide Kept, Slots, Orders, InStore, Match;
      if quantity == o.quantity - o.remaining {
        return [], 0;
      }
      trades, left := MatchOrder(Reissue(o, price, quantity, priority));
    }
  }

  /** Each trade names the fill it reports: buyer and seller as the sides say, each with its trader, at the resting
      order's price, numbered in order. */
  lemma TradesName(inc: Order, fs: seq<Fill>, id: nat)
    ensures var ts := TradesOf(inc, fs, id);
            && |ts| == |fs|
            && forall i :: 0 <= i < |ts| ==>
                 var buyer := if inc.side == Buy then inc else fs[i].resting;
                 var seller := if inc.side == Buy then fs[i].resting else inc;
                 && ts[i].tradeId == id + i && ts[i].price == fs[i].resting.price && ts[i].quantity == fs[i].quantity
                 && ts[i].buyId == buyer.id && ts[i].buyTrader == buyer.trader
                 && ts[i].sellId == seller.id && ts[i].sellTrader == seller.trader
  {}

  /** The exceptions of the trade constructor are out of reach. */
  lemma TradesAreValid(b: Book, inc: Order, policy: StpPolicy, capacity: nat, id: nat)
    requires BookOk(b) && !b.Contains(inc.id) && id > 0
    ensures var ts := TradesOf(inc, Match(b, inc, policy, capacity).fills, id);
            forall i :: 0 <= i < |ts| ==>
              ts[i].tradeId > 0 && ts[i].buyId != ts[i].sellId && ts[i].quantity > 0 && ts[i].price > 0
  {
    var side := inc.side.Opposite();
    var q := b.Queue(side);
    FillBounds(q, inc, inc.remaining);
    FillBounds(DropFirstOwn(q, inc), inc, inc.remaining);
    DroppedFirstOwn(q, inc);
    forall f | f in Match(b, inc, policy, capacity).fills
      ensures f.resting.id != inc.id && f.quantity > 0 && f.resting.price > 0 {
      var o := f.resting;
      if o !in q { o := Origin(DropFirstOwn(q, inc), q, o); }
      assert Resting(side, o) && Has(q, o.id);
    }
  }
}
