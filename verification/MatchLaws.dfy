/** What a match and a replace mean, stated on the orders of the book alone: by quantities ahead, limits and positions,
    without the loop, the lookaheads or the functions that drop, sweep and insert. */
module MatchLaws {
  import opened Types
  import opened PriorityList
  import opened SweepLaws
  import opened Thinning
  import opened Book
  import opened BookInvariant
  import MatchGuarantees
  import opened EngineInvariant

  // ----- the meaning of a match ---------------------------------------------------------------------------

  /** Quantity of all resting orders within the limit. */
  function Offered(q: seq<Order>, inc: Order): nat {
    if q == [] then 0 else (if Crosses(inc, q[0].price) then q[0].remaining else 0) + Offered(q[1..], inc)
  }

  /** A fill-or-kill order that the side cannot fill in full. */
  predicate TooShort(q: seq<Order>, inc: Order) { inc.kind.Fok? && Offered(q, inc) < inc.remaining }

  /** The order would come to an order of its own trader. */
  ghost predicate OwnReached(q: seq<Order>, inc: Order) {
    exists j :: 0 <= j < |q| && Reached(q, inc, inc.remaining, j) && q[j].trader == inc.trader
  }

  ghost predicate FirstOwnAt(q: seq<Order>, inc: Order, k: nat) {
    && k < |q| && Reached(q, inc, inc.remaining, k) && q[k].trader == inc.trader
    && forall i :: 0 <= i < k ==> q[i].trader != inc.trader || q[i].remaining == 0
  }

  /** Every order but the live own ones within the limit, in its place. */
  function WithoutOwn(q: seq<Order>, inc: Order): seq<Order> {
    if q == [] then []
    else (if q[0].trader == inc.trader && q[0].remaining > 0 && Crosses(inc, q[0].price) then [] else [q[0]])
         + WithoutOwn(q[1..], inc)
  }

  /** `o` has joined the list, ahead of everyone worse and behind everyone else. */
  ghost predicate JoinsAt(side: Side, q: seq<Order>, o: Order, q': seq<Order>, k: nat) {
    && k <= |q| && q' == q[..k] + [o] + q[k..]
    && (forall i :: 0 <= i < k ==> !Better(side, o.price, q[i].price))
    && (forall i :: k <= i < |q| ==> Better(side, o.price, q[i].price))
  }

  ghost predicate Joins(side: Side, q: seq<Order>, o: Order, q': seq<Order>) {
    exists k: nat :: JoinsAt(side, q, o, q', k)
  }

  /** `m` is what is left of the book when `inc` has traded with `q`: shares paid, used-up orders gone, and what is left
      of a LIMIT order resting on its own side if a slot is free. */
  ghost predicate Traded(b: Book, q: seq<Order>, inc: Order, capacity: nat, m: Matched) {
    var own, opp := b.Queue(inc.side), m.book.Queue(inc.side.Opposite());
    && m.fills == Shares(q, inc, inc.remaining, |q|) && m.left + Filled(m.fills) == inc.remaining
    && opp == Leftover(q, inc, inc.remaining, |q|)
    && if inc.kind.Limit? && m.left > 0 && |own| + |opp| < capacity
       then Joins(inc.side, own, inc.(remaining := m.left), m.book.Queue(inc.side))
       else m.book.Queue(inc.side) == own
  }

  ghost predicate MatchMeans(b: Book, inc: Order, policy: StpPolicy, capacity: nat, m: Matched) {
    var q := b.Queue(inc.side.Opposite());
    if TooShort(q, inc) then m == Matched(b, [], inc.remaining)
    else if policy.NoStp? || !OwnReached(q, inc) then Traded(b, q, inc, capacity, m)
    else match policy
      case CancelNewest => m == Matched(b, [], inc.remaining)
      case CancelBoth => m == Matched(b.With(inc.side.Opposite(), WithoutOwn(q, inc)), [], inc.remaining)
      case CancelOldest => exists k: nat :: FirstOwnAt(q, inc, k) && Traded(b, q[..k] + q[k + 1..], inc, capacity, m)
      case NoStp => false
  }

  lemma {:induction false} OfferedIsDepth(q: seq<Order>, inc: Order)
    requires Sorted(inc.side.Opposite(), q)
    ensures Offered(q, inc) == Depth(q, inc)
  {
    if q != [] {
      SortedTail(inc.side.Opposite(), q);
      OfferedIsDepth(q[1..], inc);
      if !Crosses(inc, q[0].price) { CrossingIsPrefix(q, inc); NothingOffered(q, inc); }
    }
  }

  lemma {:induction false} NothingOffered(q: seq<Order>, inc: Order)
    requires forall o <- q :: !Crosses(inc, o.price)
    ensures Offered(q, inc) == 0
  {
    if q != [] { NothingOffered(q[1..], inc); }
  }

  lemma OwnReachedIff(q: seq<Order>, inc: Order)
    requires Sorted(inc.side.Opposite(), q) && inc.remaining > 0
    ensures OwnReached(q, inc) <==> WouldSelfTrade(q, inc, inc.remaining)
  {
    hide Reached, Share, WouldSelfTrade, Sweep, Sorted;
    var fs := Sweep(q, inc, inc.remaining).fills;
    WouldSelfTradeIff(q, inc, inc.remaining);
    if j :| 0 <= j < |q| && Reached(q, inc, inc.remaining, j) && q[j].trader == inc.trader {
      ReachedFills(q, inc, inc.remaining, j);
      assert Fill(q[j], Share(q, inc, inc.remaining, j)) in fs;
    }
    if f :| f in fs && f.resting.trader == inc.trader {
      var j := FillReached(q, inc, inc.remaining, f);
    }
  }

  lemma {:induction false} DropAllIsFilter(q: seq<Order>, inc: Order)
    requires Sorted(inc.side.Opposite(), q)
    ensures DropAllOwn(q, inc) == WithoutOwn(q, inc)
  {
    if q != [] {
      SortedTail(inc.side.Opposite(), q);
      if Crosses(inc, q[0].price) { DropAllIsFilter(q[1..], inc); }
      else { CrossingIsPrefix(q, inc); NothingOwn(q, inc); }
    }
  }

  lemma {:induction false} NothingOwn(q: seq<Order>, inc: Order)
    requires forall o <- q :: !Crosses(inc, o.price)
    ensures WithoutOwn(q, inc) == q
  {
    if q != [] { NothingOwn(q[1..], inc); }
  }

  lemma InsertJoins(side: Side, q: seq<Order>, o: Order)
    requires Sorted(side, q)
    ensures Joins(side, q, o, Insert(side, q, o))
  {
    InsertSplit(side, q, o.price);
    assert JoinsAt(side, q, o, Insert(side, q, o), InsertPoint(side, q, o.price));
  }

  lemma TradeAndRestMeans(b: Book, q: seq<Order>, inc: Order, capacity: nat)
    requires Sorted(inc.side, b.Queue(inc.side)) && Sorted(inc.side.Opposite(), q) && 0 < inc.quantity
    ensures Traded(b, q, inc, capacity, TradeAndRest(b.With(inc.side.Opposite(), q), inc, capacity))
  {
    hide Sweep, Shares, Leftover, Insert, Joins, Sorted, Filled, Total;
    SweepPaysShares(q, inc, inc.remaining);
    SweepLeavesRest(q, inc, inc.remaining);
    SweepConserves(q, inc, inc.remaining);
    var left := Sweep(q, inc, inc.remaining).left;
    InsertJoins(inc.side, b.Queue(inc.side), inc.(remaining := left));
  }

  lemma OldestMeans(q: seq<Order>, inc: Order)
    requires Sorted(inc.side.Opposite(), q) && inc.remaining > 0 && OwnReached(q, inc)
    ensures var k := FirstOwn(q, inc);
            && FirstOwnAt(q, inc, k) && DropFirstOwn(q, inc) == q[..k] + q[k + 1..]
            && Sorted(inc.side.Opposite(), DropFirstOwn(q, inc))
  {
    OwnReachedIff(q, inc);
    DropFirstOwnHits(q, inc, inc.remaining);
    DroppedFirstOwn(q, inc);
    ThinnedSorted(inc.side.Opposite(), DropFirstOwn(q, inc), q);
  }

  lemma KilledIff(b: Book, inc: Order)
    requires Sorted(inc.side.Opposite(), b.Queue(inc.side.Opposite())) && inc.remaining > 0
    ensures Killed(b, inc) <==> TooShort(b.Queue(inc.side.Opposite()), inc)
  {
    OfferedIsDepth(b.Queue(inc.side.Opposite()), inc);
  }

  /** A match, for every order type and policy, does exactly this. */
  lemma MatchIs(b: Book, inc: Order, policy: StpPolicy, capacity: nat)
    requires Sorted(Buy, b.bids) && Sorted(Sell, b.asks) && inc.remaining > 0 && inc.quantity > 0
    ensures MatchMeans(b, inc, policy, capacity, Match(b, inc, policy, capacity))
  {
    hide Traded, TradeAndRest, Sorted, OwnReached, TooShort, Killed, DropAllOwn, DropFirstOwn, FirstOwnAt, FirstOwn;
    hide WithoutOwn, WouldSelfTrade;
    var opp := inc.side.Opposite();
    var q := b.Queue(opp);
    KilledIff(b, inc);
    OwnReachedIff(q, inc);
    DropAllIsFilter(q, inc);
    TradeAndRestMeans(b, q, inc, capacity);
    assert b.With(opp, q) == b;
    if OwnReached(q, inc) {
      OldestMeans(q, inc);
      TradeAndRestMeans(b, DropFirstOwn(q, inc), inc, capacity);
    }
  }

  // ----- it leaves nothing open -----------------------------------------------------------------------------

  lemma JoinsOnce(side: Side, q: seq<Order>, o: Order, a: seq<Order>, b: seq<Order>)
    requires Joins(side, q, o, a) && Joins(side, q, o, b)
    ensures a == b
  {
    var i: nat :| JoinsAt(side, q, o, a, i);
    var j: nat :| JoinsAt(side, q, o, b, j);
    var k := if i <= j then i else j;
    if k < |q| { assert Better(side, o.price, q[k].price) <==> i <= k && j <= k; }
  }

  lemma TradedOnce(b: Book, q: seq<Order>, inc: Order, capacity: nat, m: Matched, n: Matched)
    requires Traded(b, q, inc, capacity, m) && Traded(b, q, inc, capacity, n)
    ensures m == n
  {
    hide Shares, Leftover, Joins;
    assert m.left == n.left;
    if inc.kind.Limit? && m.left > 0 && |b.Queue(inc.side)| + |m.book.Queue(inc.side.Opposite())| < capacity {
      JoinsOnce(inc.side, b.Queue(inc.side), inc.(remaining := m.left), m.book.Queue(inc.side), n.book.Queue(inc.side));
    }
    assert m.book == n.book;
  }

  /** The meaning of a match allows one outcome only. */
  lemma MatchMeansOnce(b: Book, inc: Order, policy: StpPolicy, capacity: nat, m: Matched, n: Matched)
    requires MatchMeans(b, inc, policy, capacity, m) && MatchMeans(b, inc, policy, capacity, n)
    ensures m == n
  {
    hide Traded, OwnReached, TooShort, WithoutOwn, Reached;
    var q := b.Queue(inc.side.Opposite());
    if TooShort(q, inc) {
    } else if policy.NoStp? || !OwnReached(q, inc) {
      TradedOnce(b, q, inc, capacity, m, n);
    } else if policy.CancelOldest? {
      var i: nat :| FirstOwnAt(q, inc, i) && Traded(b, q[..i] + q[i + 1..], inc, capacity, m);
      var j: nat :| FirstOwnAt(q, inc, j) && Traded(b, q[..j] + q[j + 1..], inc, capacity, n);
      FirstOwnOnce(q, inc, i, j);
      TradedOnce(b, q[..i] + q[i + 1..], inc, capacity, m, n);
    }
  }

  lemma FirstOwnOnce(q: seq<Order>, inc: Order, i: nat, j: nat)
    requires FirstOwnAt(q, inc, i) && FirstOwnAt(q, inc, j)
    ensures i == j
  {}

  // ----- which orders trade ---------------------------------------------------------------------------------

  /** The order trades with nobody: the side is too short for it, or the policy refuses it. */
  ghost predicate TurnedAway(b: Book, inc: Order, policy: StpPolicy) {
    var q := b.Queue(inc.side.Opposite());
    TooShort(q, inc) || (OwnReached(q, inc) && (policy.CancelNewest? || policy.CancelBoth?))
  }

  /** What an order that is not turned away trades with: the other side, or that side without its first own order. */
  ghost function Faced(b: Book, inc: Order, policy: StpPolicy): seq<Order> {
    var q := b.Queue(inc.side.Opposite());
    var k := FirstOwn(q, inc);
    if policy.CancelOldest? && OwnReached(q, inc) && k < |q| then q[..k] + q[k + 1..] else q
  }

  lemma FacedTraded(b: Book, inc: Order, policy: StpPolicy, capacity: nat)
    requires Sorted(Buy, b.bids) && Sorted(Sell, b.asks) && inc.remaining > 0 && inc.quantity > 0
    requires !TurnedAway(b, inc, policy)
    ensures Sorted(inc.side.Opposite(), Faced(b, inc, policy))
    ensures Traded(b, Faced(b, inc, policy), inc, capacity, Match(b, inc, policy, capacity))
  {
    hide Traded, Sorted, OwnReached, TooShort, Match;
    var q, m := b.Queue(inc.side.Opposite()), Match(b, inc, policy, capacity);
    MatchIs(b, inc, policy, capacity);
    if policy.CancelOldest? && OwnReached(q, inc) {
      OldestMeans(q, inc);
      var k: nat :| FirstOwnAt(q, inc, k) && Traded(b, q[..k] + q[k + 1..], inc, capacity, m);
      FirstOwnOnce(q, inc, k, FirstOwn(q, inc));
    }
  }

  lemma NoFillsAway(b: Book, inc: Order, policy: StpPolicy, capacity: nat)
    requires Sorted(Buy, b.bids) && Sorted(Sell, b.asks) && inc.remaining > 0 && inc.quantity > 0
    requires TurnedAway(b, inc, policy)
    ensures var m := Match(b, inc, policy, capacity); m.fills == [] && m.left == inc.remaining
  {
    hide Traded, OwnReached, TooShort, Match;
    MatchIs(b, inc, policy, capacity);
  }

  /** For every order type and policy, an order of the book trades if and only if the incoming order is not turned away
      and comes to it, and then for exactly its share. */
  lemma FillsIff(b: Book, inc: Order, policy: StpPolicy, capacity: nat, f: Fill)
    requires Sorted(Buy, b.bids) && Sorted(Sell, b.asks) && inc.remaining > 0 && inc.quantity > 0
    ensures var q := Faced(b, inc, policy);
            f in Match(b, inc, policy, capacity).fills <==>
            !TurnedAway(b, inc, policy)
            && exists j :: 0 <= j < |q| && Reached(q, inc, inc.remaining, j)
                           && f == Fill(q[j], Share(q, inc, inc.remaining, j))
  {
    hide Match, Faced, TurnedAway, Sorted;
    if TurnedAway(b, inc, policy) {
      NoFillsAway(b, inc, policy, capacity);
    } else {
      FacedTraded(b, inc, policy, capacity);
      var q := Faced(b, inc, policy);
      SweepPaysShares(q, inc, inc.remaining);
      hide Traded, Reached, Share, Sweep;
      FillIffReached(q, inc, inc.remaining, f);
      SharesOf(b, q, inc, capacity, Match(b, inc, policy, capacity));
    }
  }

  lemma SharesOf(b: Book, q: seq<Order>, inc: Order, capacity: nat, m: Matched)
    requires Traded(b, q, inc, capacity, m)
    ensures m.fills == Shares(q, inc, inc.remaining, |q|) && m.left + Filled(m.fills) == inc.remaining
    ensures m.book.Queue(inc.side.Opposite()) == Leftover(q, inc, inc.remaining, |q|)
  {}

  /** There is no trade exactly when the order is turned away or nothing within its limit is on offer. */
  lemma NoFillsIff(b: Book, inc: Order, policy: StpPolicy, capacity: nat)
    requires Sorted(Buy, b.bids) && Sorted(Sell, b.asks) && inc.remaining > 0 && inc.quantity > 0
    ensures Match(b, inc, policy, capacity).fills == [] <==>
            TurnedAway(b, inc, policy) || Offered(Faced(b, inc, policy), inc) == 0
  {
    hide Match, Faced, TurnedAway, Sorted;
    if TurnedAway(b, inc, policy) {
      NoFillsAway(b, inc, policy, capacity);
    } else {
      FacedTraded(b, inc, policy, capacity);
      var q := Faced(b, inc, policy);
      SweepPaysShares(q, inc, inc.remaining);
      OfferedIsDepth(q, inc);
      MatchGuarantees.NoFillsIff(q, inc, inc.remaining);
      hide Traded;
      SharesOf(b, q, inc, capacity, Match(b, inc, policy, capacity));
    }
  }

  // ----- limits ---------------------------------------------------------------------------------------------

  /** `price` is as good as the order asks for; a MARKET order takes any. */
  predicate WithinLimit(inc: Order, price: int) {
    match (inc.kind, inc.side)
    case (Market, _) => true
    case (_, Buy) => price <= inc.price
    case (_, Sell) => price >= inc.price
  }

  /** No trade is beyond the limit; and an order that is not turned away and has something left has left nothing within
      its limit on the other side, so a MARKET order has emptied it. */
  lemma LimitsKept(b: Book, inc: Order, policy: StpPolicy, capacity: nat)
    requires Sorted(Buy, b.bids) && Sorted(Sell, b.asks) && inc.remaining > 0 && inc.quantity > 0
    ensures var m := Match(b, inc, policy, capacity);
            && (forall f <- m.fills :: WithinLimit(inc, f.resting.price))
            && (!TurnedAway(b, inc, policy) && m.left > 0 ==>
                  forall o <- m.book.Queue(inc.side.Opposite()) :: !WithinLimit(inc, o.price))
  {
    hide Match, Faced, TurnedAway, Sorted;
    var m := Match(b, inc, policy, capacity);
    if TurnedAway(b, inc, policy) {
      NoFillsAway(b, inc, policy, capacity);
    } else {
      FacedTraded(b, inc, policy, capacity);
      var q := Faced(b, inc, policy);
      hide Traded, Sweep, Shares, Leftover;
      SharesOf(b, q, inc, capacity, m);
      SweepPaysShares(q, inc, inc.remaining);
      SweepLeavesRest(q, inc, inc.remaining);
      SweepConserves(q, inc, inc.remaining);
      FillBounds(q, inc, inc.remaining);
      if m.left > 0 { NothingCrosses(q, inc, inc.remaining); }
    }
  }

  // ----- the meaning of a replace -----------------------------------------------------------------------------

  /** What had traded of an order before it is replaced. */
  function Done(was: Order): int { was.quantity - was.remaining }

  /** The replace is turned down: bad price, unknown id, or less than had already traded. */
  ghost predicate TurnedDown(b: Book, id: nat, price: int, quantity: nat) {
    || (quantity > 0 && price <= 0)
    || (forall o <- b.bids + b.asks :: o.id != id)
    || (exists o <- b.bids + b.asks :: o.id == id && 0 < quantity < Done(o))
  }

  /** One order has new quantities, every other order and every place is as before. */
  ghost predicate OnlyResized(q: seq<Order>, q': seq<Order>, id: nat, quantity: nat) {
    && |q'| == |q|
    && forall i :: 0 <= i < |q| ==>
         if q[i].id == id then q'[i] == q[i].(quantity := quantity, remaining := q'[i].remaining)
                               && q'[i].remaining == quantity - Done(q[i])
         else q'[i] == q[i]
  }

  /** The outcome of a replace of `was` that is not turned down. */
  ghost predicate ReplaceMeans(b: Book, was: Order, price: int, quantity: nat, priority: nat, policy: StpPolicy,
                               capacity: nat, book: Book, fills: seq<Fill>, left: nat)
  {
    var others := Book(Without(b.bids, was.id), Without(b.asks, was.id));
    if quantity == 0 then book == others && fills == [] && left == 0
    else if price == was.price && quantity < was.quantity then
      && fills == [] && left == quantity - Done(was)
      && OnlyResized(b.bids, book.bids, was.id, quantity) && OnlyResized(b.asks, book.asks, was.id, quantity)
    else if quantity == Done(was) then book == others && fills == [] && left == 0
    else
      exists o: Order ::
        && o == Order(was.id, was.trader, was.symbol, was.side, was.kind, price, quantity, o.remaining, priority)
        && o.remaining + Done(was) == quantity && MatchMeans(others, o, policy, capacity, Matched(book, fills, left))
  }

  lemma TurnedDownIff(b: Book, id: nat, price: int, quantity: nat)
    requires BookOk(b)
    ensures TurnedDown(b, id, price, quantity) <==> ReplaceRefused(b, id, price, quantity)
  {
    if b.Contains(id) {
      LookupFacts(b, id);
      assert b.Lookup(id) in b.bids + b.asks;
      forall o | o in b.bids + b.asks && o.id == id ensures o == b.Lookup(id) { OnlyOne(b, o); }
    } else {
      forall o | o in b.bids + b.asks ensures o.id != id { assert Has(b.bids, o.id) || Has(b.asks, o.id); }
    }
  }

  lemma OnlyOne(b: Book, o: Order)
    requires DistinctIds(b.bids) && DistinctIds(b.asks) && Separate(b) && o in b.bids + b.asks
    ensures b.Contains(o.id) && b.Lookup(o.id) == o
  {
    assert Has(b.bids, o.id) || Has(b.asks, o.id);
    var q := b.Queue(b.SideOf(o.id));
    assert q[Position(q, o.id)].id == o.id;
    if o in b.bids { assert Has(b.bids, o.id); } else { assert Has(b.asks, o.id); }
    var i :| 0 <= i < |q| && q[i] == o;
  }

  lemma ResizedInPlace(q: seq<Order>, k: nat, id: nat, o: Order)
    requires DistinctIds(q) && k < |q| && q[k].id == id && o == q[k].(quantity := o.quantity, remaining := o.remaining)
    requires o.remaining == o.quantity - Done(q[k])
    ensures OnlyResized(q, q[k := o], id, o.quantity)
  {}

  lemma NotResized(q: seq<Order>, id: nat, quantity: nat)
    requires !Has(q, id)
    ensures OnlyResized(q, q, id, quantity)
  {
    forall i | 0 <= i < |q| ensures q[i].id != id { assert Has(q, q[i].id); }
  }

  lemma InPlaceMeans(b: Book, id: nat, price: int, quantity: nat, priority: nat, policy: StpPolicy, capacity: nat)
    requires BookOk(b) && b.Contains(id) && b.Lookup(id).remaining <= b.Lookup(id).quantity
    requires !ReplaceRefused(b, id, price, quantity) && ReplaceInPlace(b, id, price, quantity)
    ensures var r := ReplaceOrder(b, id, price, quantity, priority, policy, capacity);
            && r.Replaced?
            && ReplaceMeans(b, b.Lookup(id), price, quantity, priority, policy, capacity, r.book, r.fills, r.left)
  {
    hide MatchMeans, Match, CancelOrder, Without;
    var was, side := b.Lookup(id), b.SideOf(id);
    var q := b.Queue(side);
    ResizedInPlace(q, Position(q, id), id, was.(quantity := quantity, remaining := quantity - Done(was)));
    NotResized(b.Queue(side.Opposite()), id, quantity);
  }

  lemma RenewedMeans(b: Book, id: nat, o: Order, policy: StpPolicy, capacity: nat)
    requires BookOk(b) && o.remaining > 0 && o.quantity > 0
    ensures MatchMeans(Book(Without(b.bids, id), Without(b.asks, id)), o, policy, capacity,
                       Match(CancelOrder(b, id), o, policy, capacity))
  {
    hide MatchMeans, Match, CancelOrder, Without;
    CancelKeeps(b, id);
    MatchIs(CancelOrder(b, id), o, policy, capacity);
  }

  /** A replace is refused exactly when it is turned down, and otherwise does exactly this: what had traded stays
      traded, the terms are the new ones, and identity, trader, symbol and side are kept. */
  lemma ReplaceIs(b: Book, id: nat, price: int, quantity: nat, priority: nat, policy: StpPolicy, capacity: nat)
    requires BookOk(b)
    ensures b.Contains(id) ==> b.Lookup(id).remaining <= b.Lookup(id).quantity
    ensures var r := ReplaceOrder(b, id, price, quantity, priority, policy, capacity);
            && (r.Refused? <==> TurnedDown(b, id, price, quantity))
            && (r.Replaced? ==> b.Contains(id) && b.Lookup(id).id == id
                                && ReplaceMeans(b, b.Lookup(id), price, quantity, priority, policy, capacity, r.book,
                                                r.fills, r.left))
  {
    hide BookOk, MatchMeans, Match, CancelOrder, Without, TurnedDown, OnlyResized;
    if b.Contains(id) { LookupFacts(b, id); }
    TurnedDownIff(b, id, price, quantity);
    if !ReplaceRefused(b, id, price, quantity) {
      var was := b.Lookup(id);
      CancelKeeps(b, id);
      if ReplaceInPlace(b, id, price, quantity) { InPlaceMeans(b, id, price, quantity, priority, policy, capacity); }
      else if quantity > was.quantity - was.remaining {
        RenewedMeans(b, id, Reissue(was, price, quantity, priority), policy, capacity);
      }
    }
  }

  /** What is executed and what is left of a renewed order make up its new quantity less what had already traded. */
  lemma RenewedConserves(b: Book, id: nat, price: int, quantity: nat, priority: nat, policy: StpPolicy, capacity: nat)
    requires BookOk(b) && b.Contains(id) && b.Lookup(id).remaining <= b.Lookup(id).quantity && quantity > 0 && price > 0
    requires Done(b.Lookup(id)) <= quantity
    ensures var r := ReplaceOrder(b, id, price, quantity, priority, policy, capacity);
            r.Replaced? && r.left + Filled(r.fills) == quantity - Done(b.Lookup(id))
  {
    LookupFacts(b, id);
    var was := b.Lookup(id);
    hide BookOk, Match, CancelOrder, Without;
    if quantity > Done(was) && !ReplaceInPlace(b, id, price, quantity) {
      CancelKeeps(b, id);
      MatchConserves(CancelOrder(b, id), Reissue(was, price, quantity, priority), policy, capacity);
    }
  }

  lemma MatchConserves(b: Book, inc: Order, policy: StpPolicy, capacity: nat)
    requires Sorted(Buy, b.bids) && Sorted(Sell, b.asks) && inc.remaining > 0 && inc.quantity > 0
    ensures var m := Match(b, inc, policy, capacity); m.left + Filled(m.fills) == inc.remaining
  {
    hide Match, TurnedAway, Sorted, Faced, Traded;
    if TurnedAway(b, inc, policy) { NoFillsAway(b, inc, policy, capacity); }
    else {
      FacedTraded(b, inc, policy, capacity);
      SharesOf(b, Faced(b, inc, policy), inc, capacity, Match(b, inc, policy, capacity));
    }
  }

  /** A renewed order that rests has the new terms, its old identity, and exactly what is left as remaining. */
  lemma RenewedRests(b: Book, id: nat, price: int, quantity: nat, priority: nat, policy: StpPolicy, capacity: nat,
                     o: Order)
    requires BookOk(b) && b.Contains(id) && b.Lookup(id).remaining <= b.Lookup(id).quantity && quantity > 0 && price > 0
    requires Done(b.Lookup(id)) < quantity && !(price == b.Lookup(id).price && quantity < b.Lookup(id).quantity)
    requires var r := ReplaceOrder(b, id, price, quantity, priority, policy, capacity);
             r.Replaced? && o in r.book.bids + r.book.asks && o.id == id
    ensures var r, was := ReplaceOrder(b, id, price, quantity, priority, policy, capacity), b.Lookup(id);
            o == Order(id, was.trader, was.symbol, was.side, was.kind, price, quantity, r.left, priority)
  {
    LookupFacts(b, id);
    var was := b.Lookup(id);
    var x := Reissue(was, price, quantity, priority);
    hide BookOk, Match, CancelOrder, Without;
    CancelKeeps(b, id);
    var b1 := CancelOrder(b, id);
    OnlyNewcomer(b1, x, policy, capacity, o);
  }

  /** An order that was not in the book and is there after its match is what is left of the incoming one. */
  lemma OnlyNewcomer(b: Book, inc: Order, policy: StpPolicy, capacity: nat, o: Order)
    requires BookOk(b) && !b.Contains(inc.id) && inc.remaining > 0 && inc.quantity > 0
    requires var m := Match(b, inc, policy, capacity); o in m.book.bids + m.book.asks && o.id == inc.id
    ensures o == inc.(remaining := Match(b, inc, policy, capacity).left)
  {
    hide Match, BookOk, Insert, Thinned;
    var opp, own := b.Queue(inc.side.Opposite()), b.Queue(inc.side);
    forall x | x in own ensures x.id != inc.id { HasMember(own, x); }
    forall x | x in opp ensures x.id != inc.id { HasMember(opp, x); }
    var q1, q2, left := MatchForm(b, inc, policy, capacity);
    OldIds(q1, opp, inc.id);
    OldIds(q2, q1, inc.id);
    InsertMembers(inc.side, own, inc.(remaining := left), o);
  }

  lemma HasMember(q: seq<Order>, x: Order)
    requires x in q
    ensures Has(q, x.id)
  {}

  lemma OldIds(q': seq<Order>, q: seq<Order>, id: nat)
    requires Thinned(q', q) && forall x <- q :: x.id != id
    ensures forall x <- q' :: x.id != id
  {
    forall x | x in q' ensures x.id != id { var o := Origin(q', q, x); }
  }

  lemma ResizedOnce(q: seq<Order>, id: nat, quantity: nat, a: seq<Order>, b: seq<Order>)
    requires OnlyResized(q, a, id, quantity) && OnlyResized(q, b, id, quantity)
    ensures a == b
  {}

  /** The meaning of a replace allows one outcome only. */
  lemma ReplaceMeansOnce(b: Book, was: Order, price: int, quantity: nat, priority: nat, policy: StpPolicy,
                         capacity: nat, m: Matched, n: Matched)
    requires ReplaceMeans(b, was, price, quantity, priority, policy, capacity, m.book, m.fills, m.left)
    requires ReplaceMeans(b, was, price, quantity, priority, policy, capacity, n.book, n.fills, n.left)
    ensures m == n
  {
    hide MatchMeans, OnlyResized, Without;
    if quantity == 0 {
    } else if price == was.price && quantity < was.quantity {
      ResizedOnce(b.bids, was.id, quantity, m.book.bids, n.book.bids);
      ResizedOnce(b.asks, was.id, quantity, m.book.asks, n.book.asks);
    } else if quantity != Done(was) {
      var others := Book(Without(b.bids, was.id), Without(b.asks, was.id));
      var left := quantity - Done(was);
      if left >= 0 {
        var o := Order(was.id, was.trader, was.symbol, was.side, was.kind, price, quantity, left, priority);
        assert MatchMeans(others, o, policy, capacity, Matched(m.book, m.fills, m.left));
        MatchMeansOnce(others, o, policy, capacity, m, n);
      }
    }
  }

  // ----- resting and filling by id -----------------------------------------------------------------------------

  /** Resting succeeds for a live order when a slot is free, and puts it behind everyone at its price. */
  lemma AddIs(b: Book, o: Order, capacity: nat)
    requires Sorted(Buy, b.bids) && Sorted(Sell, b.asks)
    ensures var b' := AddOrder(b, o, capacity);
            if o.quantity > 0 && o.remaining > 0 && |b.bids| + |b.asks| < capacity then
              && Joins(o.side, b.Queue(o.side), o, b'.Queue(o.side))
              && b'.Queue(o.side.Opposite()) == b.Queue(o.side.Opposite())
            else b' == b
  {
    hide Insert, Joins, Sorted;
    InsertJoins(o.side, b.Queue(o.side), o);
  }

  /** One order has `n` less remaining, every other order and every place is as before. */
  ghost predicate OnlyReduced(q: seq<Order>, q': seq<Order>, id: nat, n: nat) {
    && |q'| == |q|
    && forall i :: 0 <= i < |q| ==>
         if q[i].id == id then q'[i] == q[i].(remaining := q'[i].remaining) && q'[i].remaining + n == q[i].remaining
         else q'[i] == q[i]
  }

  /** A fill by id is refused for a zero quantity, an unknown id or more than remains; it removes the order when nothing
      remains, and otherwise reduces that order and nothing else. */
  lemma FillIs(b: Book, id: nat, n: nat)
    requires DistinctIds(b.bids) && DistinctIds(b.asks) && Separate(b)
    ensures var b' := ApplyFill(b, id, n);
            if n == 0 || (forall o <- b.bids + b.asks :: o.id == id ==> o.remaining < n) then b' == b
            else if exists o <- b.bids + b.asks :: o.id == id && o.remaining == n then
              b' == Book(Without(b.bids, id), Without(b.asks, id))
            else OnlyReduced(b.bids, b'.bids, id, n) && OnlyReduced(b.asks, b'.asks, id, n)
  {
    hide Without;
    if b.Contains(id) {
      Looked(b, id);
      var side := b.SideOf(id);
      var q, o := b.Queue(side), b.Lookup(id);
      forall x | x in b.bids + b.asks && x.id == id ensures x == o { OnlyOne(b, x); }
      CancelExact(b, id);
      if CanFill(b, id, n) && n < o.remaining {
        Reduced(q, Position(q, id), id, n);
        NotReduced(b.Queue(side.Opposite()), id, n);
      }
    } else {
      forall o | o in b.bids + b.asks ensures o.id != id { assert Has(b.bids, o.id) || Has(b.asks, o.id); }
    }
  }

  lemma Looked(b: Book, id: nat)
    requires b.Contains(id)
    ensures b.Lookup(id) in b.bids + b.asks && b.Lookup(id).id == id
  {
    var q := b.Queue(b.SideOf(id));
    assert q[Position(q, id)] in q;
  }

  lemma Reduced(q: seq<Order>, k: nat, id: nat, n: nat)
    requires DistinctIds(q) && k < |q| && q[k].id == id && n < q[k].remaining
    ensures OnlyReduced(q, FillAt(q, k, n), id, n)
  {}

  lemma NotReduced(q: seq<Order>, id: nat, n: nat)
    requires !Has(q, id)
    ensures OnlyReduced(q, q, id, n)
  {
    forall i | 0 <= i < |q| ensures q[i].id != id { assert Has(q, q[i].id); }
  }
}
