/** The order book as two flat lists, and the meaning of every operation on it. */
module Book {
  import opened Types
  import opened PriorityList

  datatype Book = Book(bids: seq<Order>, asks: seq<Order>) {
    function Queue(side: Side): seq<Order> { if side.Buy? then bids else asks }
    function With(side: Side, q: seq<Order>): Book { if side.Buy? then Book(q, asks) else Book(bids, q) }
    function Count(): nat { |bids| + |asks| }
    predicate Contains(id: nat) { Has(bids, id) || Has(asks, id) }
    /** The side on which `id` is found; bids are searched first. */
    function SideOf(id: nat): Side requires Contains(id) { if Has(bids, id) then Buy else Sell }
    function Lookup(id: nat): Order
      requires Contains(id)
    {
      var q := Queue(SideOf(id));
      q[Position(q, id)]
    }
  }

  const EMPTY: Book := Book([], [])

  // ----- operations -----------------------------------------------------------------------------

  predicate CanRest(b: Book, o: Order, capacity: nat) {
    o.quantity > 0 && o.remaining > 0 && b.Count() < capacity
  }

  /** Rests the order unless its quantity is zero or the pool is exhausted. */
  function AddOrder(b: Book, o: Order, capacity: nat): Book {
    if CanRest(b, o, capacity) then b.With(o.side, Insert(o.side, b.Queue(o.side), o)) else b
  }

  function CancelOrder(b: Book, id: nat): Book {
    if b.Contains(id) then b.With(b.SideOf(id), Remove(b.Queue(b.SideOf(id)), id)) else b
  }

  predicate CanFill(b: Book, id: nat, quantity: nat) {
    quantity > 0 && b.Contains(id) && quantity <= b.Lookup(id).remaining
  }

  function ApplyFill(b: Book, id: nat, quantity: nat): Book {
    if CanFill(b, id, quantity) then
      var q := b.Queue(b.SideOf(id));
      b.With(b.SideOf(id), FillAt(q, Position(q, id), quantity))
    else b
  }

  datatype Matched = Matched(book: Book, fills: seq<Fill>, left: nat)

  /** The matching loop, then resting what is left of a LIMIT order. */
  function TradeAndRest(b: Book, inc: Order, capacity: nat): Matched {
    var opp := inc.side.Opposite();
    var s := Sweep(b.Queue(opp), inc, inc.remaining);
    var b1 := b.With(opp, s.rest);
    Matched(if s.left > 0 && inc.kind.Limit? then AddOrder(b1, inc.(remaining := s.left), capacity) else b1,
            s.fills, s.left)
  }

  /** A FOK order that cannot be filled in full is turned away first. */
  predicate Killed(b: Book, inc: Order) {
    inc.kind.Fok? && !CanFullyFill(b.Queue(inc.side.Opposite()), inc)
  }

  /** The self-trade policy intervenes. */
  predicate StpFires(b: Book, inc: Order, policy: StpPolicy) {
    && !Killed(b, inc) && !policy.NoStp?
    && WouldSelfTrade(b.Queue(inc.side.Opposite()), inc, inc.remaining)
  }

  function Match(b: Book, inc: Order, policy: StpPolicy, capacity: nat): Matched {
    var opp := inc.side.Opposite();
    var q := b.Queue(opp);
    if Killed(b, inc) then Matched(b, [], inc.remaining)
    else if !StpFires(b, inc, policy) then TradeAndRest(b, inc, capacity)
    else if policy.CancelOldest? then TradeAndRest(b.With(opp, DropFirstOwn(q, inc)), inc, capacity)
    else if policy.CancelBoth? then Matched(b.With(opp, DropAllOwn(q, inc)), [], inc.remaining)
    else Matched(b, [], inc.remaining)
  }

  datatype Replaced = Refused | Replaced(book: Book, fills: seq<Fill>, left: nat)

  /** The order that re-enters the book when a replace gives up its place. */
  function Reissue(o: Order, price: int, quantity: nat, priority: nat): Order
    requires o.quantity - o.remaining <= quantity
  {
    o.(price := price, quantity := quantity, remaining := quantity - (o.quantity - o.remaining), priority := priority)
  }

  predicate ReplaceRefused(b: Book, id: nat, price: int, quantity: nat) {
    || (quantity > 0 && price <= 0)
    || !b.Contains(id)
    || (0 < quantity < b.Lookup(id).quantity - b.Lookup(id).remaining)
  }

  /** A quantity decrease at the same price is done in place. */
  predicate ReplaceInPlace(b: Book, id: nat, price: int, quantity: nat) {
    b.Contains(id) && 0 < quantity < b.Lookup(id).quantity && price == b.Lookup(id).price
  }

  function ReplaceOrder(b: Book, id: nat, price: int, quantity: nat, priority: nat,
                        policy: StpPolicy, capacity: nat): Replaced
    requires b.Contains(id) ==> b.Lookup(id).remaining <= b.Lookup(id).quantity
  {
    if ReplaceRefused(b, id, price, quantity) then Refused
    else
      var o := b.Lookup(id);
      var side := b.SideOf(id);
      var filled := o.quantity - o.remaining;
      if quantity == 0 then Replaced(CancelOrder(b, id), [], 0)
      else if ReplaceInPlace(b, id, price, quantity) then
        var q := b.Queue(side);
        var o' := o.(quantity := quantity, remaining := quantity - filled);
        Replaced(b.With(side, q[Position(q, id) := o']), [], o'.remaining)
      else
        var b1 := CancelOrder(b, id);
        if quantity == filled then Replaced(b1, [], 0)
        else
          var m := Match(b1, Reissue(o, price, quantity, priority), policy, capacity);
          Replaced(m.book, m.fills, m.left)
  }

  // ----- well-formed books ------------------------------------------------------------------------

  ghost predicate Shaped(side: Side, q: seq<Order>) {
    Sorted(side, q) && AllResting(side, q) && DistinctIds(q)
  }

  ghost predicate Separate(b: Book) { forall id :: !(Has(b.bids, id) && Has(b.asks, id)) }

  /** Best bid strictly below best ask. */
  ghost predicate Uncrossed(b: Book) {
    forall i, j :: 0 <= i < |b.bids| && 0 <= j < |b.asks| ==> b.bids[i].price < b.asks[j].price
  }

  ghost predicate BookOk(b: Book) {
    Shaped(Buy, b.bids) && Shaped(Sell, b.asks) && Separate(b) && Uncrossed(b)
  }

  /** What `Order`'s constructor guarantees of an order given to the book. */
  predicate Submittable(o: Order) {
    o.id > 0 && o.trader > 0 && 0 < o.remaining <= o.quantity && (o.kind.Market? || o.price > 0)
  }
}

/** Every book operation, under every self-trade policy, keeps the book well formed. */
module BookInvariant {
  import opened Types
  import opened PriorityList
  import opened SweepLaws
  import opened Thinning
  import opened Book

  lemma LookupFacts(b: Book, id: nat)
    requires BookOk(b) && b.Contains(id)
    ensures var o := b.Lookup(id);
            o in b.Queue(b.SideOf(id)) && o.id == id && Resting(b.SideOf(id), o)
  {}

  /** No id comes in. */
  ghost predicate Narrows(b': Book, b: Book) { forall id :: b'.Contains(id) ==> b.Contains(id) }

  lemma ThinKeeps(b: Book, side: Side, q: seq<Order>)
    requires BookOk(b) && Thinned(q, b.Queue(side))
    ensures BookOk(b.With(side, q))
    ensures forall id :: b.With(side, q).Contains(id) ==> b.Contains(id)
    ensures b.With(side, q).Count() <= b.Count()
  {
    var p, b' := b.Queue(side), b.With(side, q);
    ThinnedSorted(side, q, p);
    ThinnedDistinct(q, p);
    ThinnedResting(side, q, p);
    ThinnedLength(q, p);
    forall id | Has(q, id) ensures Has(p, id) { ThinnedHas(q, p, id); }
    var f := Embedding(q, p);
    forall i, j | 0 <= i < |b'.bids| && 0 <= j < |b'.asks| ensures b'.bids[i].price < b'.asks[j].price {
      if side.Buy? { assert b.bids[f[i]].price < b.asks[j].price; }
      else { assert b.bids[i].price < b.asks[f[j]].price; }
    }
  }

  lemma RestKeeps(b: Book, o: Order, capacity: nat)
    requires BookOk(b) && Resting(o.side, o) && !b.Contains(o.id)
    requires forall x <- b.Queue(o.side.Opposite()) :: !Crosses(o, x.price)
    ensures BookOk(AddOrder(b, o, capacity))
    ensures forall id :: AddOrder(b, o, capacity).Contains(id) ==> b.Contains(id) || id == o.id
  {
    if CanRest(b, o, capacity) {
      var q := b.Queue(o.side);
      var q', b' := Insert(o.side, q, o), AddOrder(b, o, capacity);
      InsertSorted(o.side, q, o);
      InsertDistinct(o.side, q, o);
      forall x | x in q' ensures Resting(o.side, x) { InsertMembers(o.side, q, o, x); }
      forall id | Has(q', id) ensures Has(q, id) || id == o.id { InsertHas(o.side, q, o, id); }
      forall i, j | 0 <= i < |b'.bids| && 0 <= j < |b'.asks| ensures b'.bids[i].price < b'.asks[j].price {
        RestUncrossed(b, o, b'.bids[i], b'.asks[j]);
      }
    }
  }

  lemma RestUncrossed(b: Book, o: Order, x: Order, y: Order)
    requires BookOk(b) && o.kind.Limit?
    requires forall z <- b.Queue(o.side.Opposite()) :: !Crosses(o, z.price)
    requires x in (if o.side.Buy? then Insert(Buy, b.bids, o) else b.bids)
    requires y in (if o.side.Buy? then b.asks else Insert(Sell, b.asks, o))
    ensures x.price < y.price
  {
    if o.side.Buy? { InsertMembers(Buy, b.bids, o, x); } else { InsertMembers(Sell, b.asks, o, y); }
  }

  /** Nothing left on the other side crosses an order that still has quantity to rest. */
  lemma NothingCrosses(q: seq<Order>, inc: Order, need: nat)
    requires Sorted(inc.side.Opposite(), q) && Sweep(q, inc, need).left > 0
    ensures forall x <- Sweep(q, inc, need).rest :: !Crosses(inc, x.price)
  {}

  lemma TradeAndRestKeeps(b: Book, inc: Order, capacity: nat)
    requires BookOk(b) && Submittable(inc) && !b.Contains(inc.id)
    ensures BookOk(TradeAndRest(b, inc, capacity).book)
    ensures forall id :: TradeAndRest(b, inc, capacity).book.Contains(id) ==> b.Contains(id) || id == inc.id
  {
    var opp := inc.side.Opposite();
    var s := Sweep(b.Queue(opp), inc, inc.remaining);
    var b1 := b.With(opp, s.rest);
    Swept(b.Queue(opp), inc, inc.remaining);
    ThinKeeps(b, opp, s.rest);
    if s.left > 0 && inc.kind.Limit? {
      var o := inc.(remaining := s.left);
      SweepConserves(b.Queue(opp), inc, inc.remaining);
      NothingCrosses(b.Queue(opp), inc, inc.remaining);
      assert forall x <- b1.Queue(opp) :: !Crosses(o, x.price);
      RestKeeps(b1, o, capacity);
    }
  }

  /** Matching keeps the book well formed under every policy. */
  lemma MatchKeeps(b: Book, inc: Order, policy: StpPolicy, capacity: nat)
    requires BookOk(b) && Submittable(inc) && !b.Contains(inc.id)
    ensures BookOk(Match(b, inc, policy, capacity).book)
    ensures forall id :: Match(b, inc, policy, capacity).book.Contains(id) ==> b.Contains(id) || id == inc.id
  {
    var opp := inc.side.Opposite();
    var q := b.Queue(opp);
    DroppedFirstOwn(q, inc);
    DroppedAllOwn(q, inc);
    if Killed(b, inc) {
    } else if !StpFires(b, inc, policy) {
      TradeAndRestKeeps(b, inc, capacity);
    } else if policy.CancelOldest? {
      ThinKeeps(b, opp, DropFirstOwn(q, inc));
      TradeAndRestKeeps(b.With(opp, DropFirstOwn(q, inc)), inc, capacity);
    } else if policy.CancelBoth? {
      ThinKeeps(b, opp, DropAllOwn(q, inc));
    }
  }

  /** Every order but `id`, in its place. */
  function Without(q: seq<Order>, id: nat): seq<Order> {
    if q == [] then [] else if q[0].id == id then Without(q[1..], id) else [q[0]] + Without(q[1..], id)
  }

  lemma {:induction false} WithoutAbsent(q: seq<Order>, id: nat)
    requires forall i :: 0 <= i < |q| ==> q[i].id != id
    ensures Without(q, id) == q
  {
    if q != [] { WithoutAbsent(q[1..], id); }
  }

  lemma {:induction false} RemoveIsWithout(q: seq<Order>, k: nat)
    requires DistinctIds(q) && k < |q|
    ensures RemoveAt(q, k) == Without(q, q[k].id)
  {
    if k == 0 {
      WithoutAbsent(q[1..], q[0].id);
    } else {
      assert q[1..][k - 1] == q[k] && DistinctIds(q[1..]);
      RemoveIsWithout(q[1..], k - 1);
      assert RemoveAt(q, k) == [q[0]] + RemoveAt(q[1..], k - 1);
    }
  }

  /** Cancelling leaves exactly the other orders, in their places. */
  lemma CancelExact(b: Book, id: nat)
    requires DistinctIds(b.bids) && DistinctIds(b.asks) && Separate(b)
    ensures CancelOrder(b, id) == Book(Without(b.bids, id), Without(b.asks, id))
  {
    forall side: Side ensures Without(b.Queue(side), id) == CancelOrder(b, id).Queue(side) {
      var q := b.Queue(side);
      if Has(q, id) { RemoveIsWithout(q, Position(q, id)); } else { WithoutAbsent(q, id); }
    }
    assert CancelOrder(b, id).Queue(Buy) == Without(b.Queue(Buy), id);
    assert CancelOrder(b, id).Queue(Sell) == Without(b.Queue(Sell), id);
  }

  lemma CancelKeeps(b: Book, id: nat)
    requires BookOk(b)
    ensures CancelOrder(b, id) == Book(Without(b.bids, id), Without(b.asks, id))
    ensures BookOk(CancelOrder(b, id)) && !CancelOrder(b, id).Contains(id)
    ensures Narrows(CancelOrder(b, id), b)
    ensures CancelOrder(b, id).Count() == b.Count() - (if b.Contains(id) then 1 else 0)
  {
    CancelExact(b, id);
    if b.Contains(id) {
      var side, q := b.SideOf(id), b.Queue(b.SideOf(id));
      var k := Position(q, id);
      RemovedAt(q, k);
      RemovedGone(q, k);
      hide Without, BookOk, Thinned, RemoveAt;
      ThinKeeps(b, side, RemoveAt(q, k));
    }
  }

  lemma RemovedGone(q: seq<Order>, k: nat)
    requires DistinctIds(q) && k < |q|
    ensures |RemoveAt(q, k)| == |q| - 1 && !Has(RemoveAt(q, k), q[k].id)
  {
    forall i | 0 <= i < |RemoveAt(q, k)| ensures RemoveAt(q, k)[i].id != q[k].id {
      assert RemoveAt(q, k)[i] == q[if i < k then i else i + 1];
    }
  }

  lemma FillKeeps(b: Book, id: nat, quantity: nat)
    requires BookOk(b)
    ensures BookOk(ApplyFill(b, id, quantity))
    ensures forall x :: ApplyFill(b, id, quantity).Contains(x) ==> b.Contains(x)
  {
    if CanFill(b, id, quantity) {
      var side := b.SideOf(id);
      var q := b.Queue(side);
      FilledAt(q, Position(q, id), quantity);
      ThinKeeps(b, side, FillAt(q, Position(q, id), quantity));
    }
  }

  /** New quantities in place. */
  lemma RescaleKeeps(b: Book, id: nat, o: Order)
    requires BookOk(b) && b.Contains(id) && Keeps(o, b.Lookup(id))
    ensures var q := b.Queue(b.SideOf(id));
            var b' := b.With(b.SideOf(id), q[Position(q, id) := o]);
            BookOk(b') && Narrows(b', b)
  {
    var q := b.Queue(b.SideOf(id));
    Rescaled(q, Position(q, id), o);
    ThinKeeps(b, b.SideOf(id), q[Position(q, id) := o]);
  }

  /** Taken out and matched anew. */
  lemma RenewKeeps(b: Book, id: nat, o: Order, policy: StpPolicy, capacity: nat)
    requires BookOk(b) && b.Contains(id) && o.id == id && Submittable(o)
    ensures var b' := Match(CancelOrder(b, id), o, policy, capacity).book;
            BookOk(b') && Narrows(b', b)
  {
    hide BookOk, Match, CancelOrder, Without;
    CancelKeeps(b, id);
    MatchKeeps(CancelOrder(b, id), o, policy, capacity);
  }

  lemma ReplaceKeeps(b: Book, id: nat, price: int, quantity: nat, priority: nat, policy: StpPolicy, capacity: nat)
    requires BookOk(b) && (b.Contains(id) ==> b.Lookup(id).trader > 0) && id > 0
    ensures b.Contains(id) ==> b.Lookup(id).remaining <= b.Lookup(id).quantity
    ensures var r := ReplaceOrder(b, id, price, quantity, priority, policy, capacity);
            r.Replaced? ==> BookOk(r.book) && Narrows(r.book, b)
  {
    hide BookOk, Match, CancelOrder, Without, Narrows, Has;
    if b.Contains(id) { LookupFacts(b, id); }
    if !ReplaceRefused(b, id, price, quantity) {
      var o := b.Lookup(id);
      if ReplaceInPlace(b, id, price, quantity) {
        RescaleKeeps(b, id, o.(quantity := quantity, remaining := quantity - (o.quantity - o.remaining)));
      } else if quantity > o.quantity - o.remaining {
        RenewKeeps(b, id, Reissue(o, price, quantity, priority), policy, capacity);
      } else {
        CancelKeeps(b, id);
      }
    }
  }
}

/** Guarantees of fill-or-kill and of self-trade prevention, and where the code falls short of them. */
module MatchGuarantees {
  import opened Types
  import opened PriorityList
  import opened SweepLaws
  import opened Thinning
  import opened Book

  lemma {:induction false} NoFillsIff(q: seq<Order>, inc: Order, need: nat)
    requires need > 0
    ensures Sweep(q, inc, need).fills == [] <==> Depth(q, inc) == 0
  {
    if q != [] && Crosses(inc, q[0].price) && q[0].remaining == 0 { NoFillsIff(q[1..], inc, need); }
  }

  lemma {:induction false} DepthDropFirstOwn(q: seq<Order>, inc: Order)
    ensures var k := FirstOwn(q, inc);
            Depth(q, inc) == Depth(DropFirstOwn(q, inc), inc) + (if k < |q| then q[k].remaining else 0)
  {
    if q == [] || !Crosses(inc, q[0].price) || Own(inc, q[0]) {
    } else {
      DepthDropFirstOwn(q[1..], inc);
      var d := DropFirstOwn(q, inc);
      assert d[1..] == DropFirstOwn(q[1..], inc);
    }
  }

  /** CANCEL_OLDEST has taken away so much that a FOK order admitted by the check cannot complete. */
  predicate FokTorn(b: Book, inc: Order, policy: StpPolicy) {
    var q := b.Queue(inc.side.Opposite());
    var k := FirstOwn(q, inc);
    && policy.CancelOldest? && StpFires(b, inc, policy) && k < |q|
    && 0 < Depth(q, inc) - q[k].remaining < inc.remaining
  }

  /** A FOK order trades in full or not at all, except exactly when CANCEL_OLDEST tears it. */
  lemma FokAtomicIff(b: Book, inc: Order, policy: StpPolicy, capacity: nat)
    requires inc.kind.Fok? && inc.remaining > 0
    ensures var m := Match(b, inc, policy, capacity);
            (m.fills == [] || m.left == 0) <==> !FokTorn(b, inc, policy)
  {
    var q := b.Queue(inc.side.Opposite());
    LeftIsShortfall(q, inc, inc.remaining);
    if StpFires(b, inc, policy) && policy.CancelOldest? {
      var q' := DropFirstOwn(q, inc);
      DropFirstOwnHits(q, inc, inc.remaining);
      DepthDropFirstOwn(q, inc);
      LeftIsShortfall(q', inc, inc.remaining);
      NoFillsIff(q', inc, inc.remaining);
    }
  }

  /** A torn FOK: trader 7 rests 5 and trader 8 rests 5; trader 7's FOK for 10 executes only 5. */
  lemma FokTornExample()
    ensures var q := [Order(1, 7, 0, Sell, Limit, 100, 5, 5, 0), Order(2, 8, 0, Sell, Limit, 100, 5, 5, 1)];
            var inc := Order(3, 7, 0, Buy, Fok, 100, 10, 10, 2);
            var m := Match(Book([], q), inc, CancelOldest, 10);
            m.fills == [Fill(q[1], 5)] && m.left == 5
  {}

  /** CANCEL_NEWEST and CANCEL_BOTH never let a trader trade with itself. */
  lemma NoSelfTrade(b: Book, inc: Order, policy: StpPolicy, capacity: nat)
    requires inc.remaining > 0 && (policy.CancelNewest? || policy.CancelBoth?)
    ensures !SelfTrades(inc, Match(b, inc, policy, capacity).fills)
  {
    WouldSelfTradeIff(b.Queue(inc.side.Opposite()), inc, inc.remaining);
  }

  /** Nor does an order that re-enters through a replace. */
  lemma ReplaceNoSelfTrade(b: Book, id: nat, price: int, quantity: nat, priority: nat, policy: StpPolicy, capacity: nat)
    requires policy.CancelNewest? || policy.CancelBoth?
    requires b.Contains(id) && b.Lookup(id).remaining <= b.Lookup(id).quantity
    ensures var r := ReplaceOrder(b, id, price, quantity, priority, policy, capacity);
            r.Replaced? ==> !SelfTrades(b.Lookup(id), r.fills)
  {
    var o := b.Lookup(id);
    hide Match, CancelOrder;
    if o.quantity - o.remaining < quantity {
      NoSelfTrade(CancelOrder(b, id), Reissue(o, price, quantity, priority), policy, capacity);
    }
  }

  lemma {:induction false} TotalRemoveAt(q: seq<Order>, k: nat, j: nat)
    requires k < j <= |q|
    ensures Total(RemoveAt(q, k)[..j - 1]) == Total(q[..j]) - q[k].remaining
  {
    var p := RemoveAt(q, k)[..j - 1];
    assert p == q[..k] + q[k + 1..j];
    TotalSplit(p, k);
    TotalSplit(q[..j], k);
    assert p[..k] == q[..j][..k] && p[k..] == q[..j][k..][1..];
  }

  /** Own order `j` is reached once the first own order, at `k`, is out of the way. */
  predicate SecondOwnReached(q: seq<Order>, inc: Order, k: nat, j: nat)
    requires k < j < |q|
  {
    Own(inc, q[j]) && Crosses(inc, q[j].price) && Total(q[..j]) - q[k].remaining < inc.remaining
  }

  lemma ReachedBehind(q: seq<Order>, inc: Order, k: nat, i: nat)
    requires k < |q| && i < |RemoveAt(q, k)| && forall n :: 0 <= n < k ==> !Own(inc, q[n])
    requires Reached(RemoveAt(q, k), inc, inc.remaining, i) && RemoveAt(q, k)[i].trader == inc.trader
    ensures k < i + 1 < |q| && SecondOwnReached(q, inc, k, i + 1)
  {
    assert RemoveAt(q, k)[i] == q[if i < k then i else i + 1];
    assert k <= i;
    TotalRemoveAt(q, k, i + 1);
  }

  lemma RemainingSelfTrade(q: seq<Order>, inc: Order, k: nat, f: Fill) returns (j: nat)
    requires k < |q| && Sorted(inc.side.Opposite(), RemoveAt(q, k))
    requires forall n :: 0 <= n < k ==> !Own(inc, q[n])
    requires f in Sweep(RemoveAt(q, k), inc, inc.remaining).fills && f.resting.trader == inc.trader
    ensures k < j < |q| && SecondOwnReached(q, inc, k, j)
  {
    var q', need := RemoveAt(q, k), inc.remaining;
    var i := FillReached(q', inc, need, f);
    ReachedBehind(q, inc, k, i);
    j := i + 1;
  }

  lemma SecondOwnTrades(q: seq<Order>, inc: Order, need: nat, j: nat)
    requires need > 0 && WouldSelfTrade(q, inc, need) && inc.remaining == need
    requires Sorted(inc.side.Opposite(), q)
    requires FirstOwn(q, inc) < j < |q| && SecondOwnReached(q, inc, FirstOwn(q, inc), j)
    ensures SelfTrades(inc, Sweep(DropFirstOwn(q, inc), inc, need).fills)
  {
    hide Sweep, WouldSelfTrade, DropFirstOwn, FirstOwn, Thinned;
    var k, q' := FirstOwn(q, inc), DropFirstOwn(q, inc);
    DropFirstOwnHits(q, inc, need);
    DroppedFirstOwn(q, inc);
    ThinnedSorted(inc.side.Opposite(), q', q);
    TotalRemoveAt(q, k, j);
    assert q'[j - 1] == q[j];
    assert Reached(q', inc, need, j - 1);
    ReachedFills(q', inc, need, j - 1);
  }

  /** CANCEL_OLDEST lets a trader trade with itself exactly when a second own order is reached. */
  lemma OldestSelfTradesIff(b: Book, inc: Order, capacity: nat)
    requires inc.remaining > 0 && Sorted(inc.side.Opposite(), b.Queue(inc.side.Opposite()))
    ensures var q := b.Queue(inc.side.Opposite());
            var k := FirstOwn(q, inc);
            SelfTrades(inc, Match(b, inc, CancelOldest, capacity).fills) <==>
            StpFires(b, inc, CancelOldest) && exists j :: k < j < |q| && SecondOwnReached(q, inc, k, j)
  {
    var q := b.Queue(inc.side.Opposite());
    if !StpFires(b, inc, CancelOldest) {
      WouldSelfTradeIff(q, inc, inc.remaining);
    } else {
      var fs := Sweep(DropFirstOwn(q, inc), inc, inc.remaining).fills;
      if f :| f in fs && f.resting.trader == inc.trader {
        DropFirstOwnHits(q, inc, inc.remaining);
        DroppedFirstOwn(q, inc);
        ThinnedSorted(inc.side.Opposite(), DropFirstOwn(q, inc), q);
        var j := RemainingSelfTrade(q, inc, FirstOwn(q, inc), f);
      }
      if j :| FirstOwn(q, inc) < j < |q| && SecondOwnReached(q, inc, FirstOwn(q, inc), j) {
        SecondOwnTrades(q, inc, inc.remaining, j);
      }
    }
  }

  /** Trader 7 rests two orders of 5; its own order for 10 cancels the first and trades with the second. */
  lemma OldestSelfTradeExample()
    ensures var q := [Order(1, 7, 0, Sell, Limit, 100, 5, 5, 0), Order(2, 7, 0, Sell, Limit, 100, 5, 5, 1)];
            var inc := Order(3, 7, 0, Buy, Limit, 100, 10, 10, 2);
            Match(Book([], q), inc, CancelOldest, 10).fills == [Fill(q[1], 5)] && SelfTrades(inc, [Fill(q[1], 5)])
  {
    var q := [Order(1, 7, 0, Sell, Limit, 100, 5, 5, 0), Order(2, 7, 0, Sell, Limit, 100, 5, 5, 1)];
    var inc := Order(3, 7, 0, Buy, Limit, 100, 10, 10, 2);
    assert Sweep([q[1]], inc, 10) == Outcome([Fill(q[1], 5)], [], 5) by { assert [q[1]][1..] == []; }
    assert Fill(q[1], 5).resting.trader == inc.trader;
  }
}
