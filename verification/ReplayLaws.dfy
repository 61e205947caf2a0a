/** What replay accepts, what each accepted event does to the book, and what every replayed book is like. */
module ReplayLaws {
  import opened Types
  import opened PriorityList
  import opened Thinning
  import opened Book
  import opened BookInvariant
  import opened EngineInvariant
  import opened Replay
  import opened MatchLaws

  // ----- one event ------------------------------------------------------------------------------------------

  /** The event fits the history and the book: next in sequence, and either a live LIMIT order with a new priority, a
      new id and room for it, or a fill or cancellation of a resting order. */
  ghost predicate Fits(r: Replayer, e: Event, capacity: nat) {
    var resting := r.book.bids + r.book.asks;
    && (r.first || (r.lastSequence != U64 - 1 && e.sequence == r.lastSequence + 1))
    && match e
       case Accepted(_, _, id, _, trader, _, ticks, quantity, remaining, kind, priority) =>
         && 0 < remaining <= quantity && kind == Limit && id > 0 && trader > 0 && ticks > 0
         && (r.newOrders == 0 || priority > r.maxPriority)
         && (forall o <- resting :: o.id != id) && |resting| < capacity
       case Traded(_, _, id, _, _, _, n, _, _) => exists o <- resting :: o.id == id && 0 < n <= o.remaining
       case Cancelled(_, _, id, _, _, _) => exists o <- resting :: o.id == id
       case Rejected(_, _, _, _, _) => false
  }

  /** The book after the event. */
  ghost predicate BookAfter(b: Book, e: Event, b': Book) {
    match e
    case Accepted(_, _, id, symbol, trader, isBuy, ticks, quantity, remaining, kind, priority) =>
      var side := if isBuy then Buy else Sell;
      && b'.Queue(side.Opposite()) == b.Queue(side.Opposite())
      && Joins(side, b.Queue(side), Order(id, trader, symbol, side, kind, ticks, quantity, remaining, priority),
               b'.Queue(side))
    case Traded(_, _, id, _, _, _, n, _, _) =>
      if exists o <- b.bids + b.asks :: o.id == id && o.remaining == n then
        b' == Book(Without(b.bids, id), Without(b.asks, id))
      else OnlyReduced(b.bids, b'.bids, id, n) && OnlyReduced(b.asks, b'.asks, id, n)
    case Cancelled(_, _, id, _, _, _) => b' == Book(Without(b.bids, id), Without(b.asks, id))
    case Rejected(_, _, _, _, _) => false
  }

  ghost predicate Unique(b: Book) { DistinctIds(b.bids) && DistinctIds(b.asks) && Separate(b) }

  lemma PresentIff(b: Book, id: nat)
    requires Unique(b)
    ensures b.Contains(id) <==> exists o :: o in b.bids + b.asks && o.id == id
    ensures forall o <- b.bids + b.asks :: o.id == id ==> b.Contains(id) && o == b.Lookup(id)
    ensures b.Contains(id) ==> b.Lookup(id) in b.bids + b.asks && b.Lookup(id).id == id
  {
    if b.Contains(id) { Looked(b, id); }
    forall o | o in b.bids + b.asks && o.id == id ensures b.Contains(id) && o == b.Lookup(id) { OnlyOne(b, o); }
  }

  lemma AcceptIs(r: Replayer, e: Event, capacity: nat)
    requires Unique(r.book) && Sorted(Buy, r.book.bids) && Sorted(Sell, r.book.asks) && e.Accepted?
    ensures var a := Apply(r, e, capacity);
            (a.verdict.Done? <==> Fits(r, e, capacity)) && (a.verdict.Done? ==> BookAfter(r.book, e, a.at.book))
  {
    PresentIff(r.book, e.id);
    hide Unique, Sorted, Insert, Joins;
    AddIs(r.book, Restored(e), capacity);
  }

  lemma RemoveIs(r: Replayer, e: Event, capacity: nat)
    requires Unique(r.book) && !e.Accepted?
    ensures var a := Apply(r, e, capacity);
            (a.verdict.Done? <==> Fits(r, e, capacity)) && (a.verdict.Done? ==> BookAfter(r.book, e, a.at.book))
  {
    hide Unique, Without, OnlyReduced;
    match e
    case Traded(_, _, id, _, _, _, n, _, _) =>
      PresentIff(r.book, id);
      UniqueFill(r.book, id, n);
    case Cancelled(_, _, id, _, _, _) =>
      PresentIff(r.book, id);
      UniqueCancel(r.book, id);
    case Rejected(_, _, _, _, _) =>
  }

  lemma UniqueFill(b: Book, id: nat, n: nat)
    requires Unique(b)
    ensures var b' := ApplyFill(b, id, n);
            n == 0 || (forall o <- b.bids + b.asks :: o.id == id ==> o.remaining < n)
            || (if exists o <- b.bids + b.asks :: o.id == id && o.remaining == n then
                  b' == Book(Without(b.bids, id), Without(b.asks, id))
                else OnlyReduced(b.bids, b'.bids, id, n) && OnlyReduced(b.asks, b'.asks, id, n))
  {
    FillIs(b, id, n);
    hide OnlyReduced, Without, ApplyFill;
  }

  lemma UniqueCancel(b: Book, id: nat)
    requires Unique(b)
    ensures CancelOrder(b, id) == Book(Without(b.bids, id), Without(b.asks, id))
  {
    CancelExact(b, id);
  }

  /** Replay applies exactly the events that fit, each with exactly its effect, and counts them. */
  lemma ApplyIs(r: Replayer, e: Event, capacity: nat)
    requires Unique(r.book) && Sorted(Buy, r.book.bids) && Sorted(Sell, r.book.asks)
    ensures var a := Apply(r, e, capacity);
            && (a.verdict.Done? <==> Fits(r, e, capacity)) && (!a.verdict.Done? ==> a.at == r)
            && (a.verdict.Done? ==>
                  && BookAfter(r.book, e, a.at.book) && a.at.records == r.records + 1 && a.at.lastSequence == e.sequence
                  && a.at.newOrders == r.newOrders + (if e.Accepted? then 1 else 0)
                  && a.at.maxPriority == if e.Accepted? then e.priority else r.maxPriority)
  {
    if e.Accepted? { AcceptIs(r, e, capacity); } else { RemoveIs(r, e, capacity); }
    hide Unique, Fits, BookAfter, Sorted;
  }

  // ----- every replayed book ----------------------------------------------------------------------------------

  /** Sorted sides of well-formed LIMIT orders with unique positive ids and positive traders, within the pool. */
  ghost predicate WellShaped(b: Book, capacity: nat) {
    Shaped(Buy, b.bids) && Shaped(Sell, b.asks) && Separate(b) && Identified(b) && b.Count() <= capacity
  }

  lemma ThinShaped(b: Book, side: Side, q: seq<Order>, capacity: nat)
    requires WellShaped(b, capacity) && Thinned(q, b.Queue(side))
    ensures WellShaped(b.With(side, q), capacity)
  {
    var p := b.Queue(side);
    ThinnedSorted(side, q, p);
    ThinnedDistinct(q, p);
    ThinnedResting(side, q, p);
    ThinnedLength(q, p);
    forall id | Has(q, id) ensures Has(p, id) { ThinnedHas(q, p, id); }
    forall x | x in q ensures x.id > 0 && x.trader > 0 { var o := Origin(q, p, x); }
  }

  lemma AddShaped(b: Book, o: Order, capacity: nat)
    requires WellShaped(b, capacity) && Resting(o.side, o) && !b.Contains(o.id) && o.id > 0 && o.trader > 0
    requires CanRest(b, o, capacity)
    ensures WellShaped(AddOrder(b, o, capacity), capacity)
  {
    var q := b.Queue(o.side);
    var q' := Insert(o.side, q, o);
    InsertSorted(o.side, q, o);
    InsertDistinct(o.side, q, o);
    forall x ensures x in q' <==> x in q || x == o { InsertMembers(o.side, q, o, x); }
    forall id ensures Has(q', id) <==> Has(q, id) || id == o.id { InsertHas(o.side, q, o, id); }
    hide Sorted, DistinctIds, Has, Insert;
  }

  lemma ApplyShaped(r: Replayer, e: Event, capacity: nat)
    requires WellShaped(r.book, capacity) && Apply(r, e, capacity).verdict.Done?
    ensures WellShaped(Apply(r, e, capacity).at.book, capacity)
  {
    hide WellShaped;
    match e
    case Accepted(_, _, _, _, _, _, _, _, _, _, _) => AddShaped(r.book, Restored(e), capacity);
    case Traded(_, _, id, _, _, _, n, _, _) =>
      var q := r.book.Queue(r.book.SideOf(id));
      FilledAt(q, Position(q, id), n);
      ThinShaped(r.book, r.book.SideOf(id), FillAt(q, Position(q, id), n), capacity);
    case Cancelled(_, _, id, _, _, _) =>
      var q := r.book.Queue(r.book.SideOf(id));
      RemovedAt(q, Position(q, id));
      ThinShaped(r.book, r.book.SideOf(id), Remove(q, id), capacity);
    case Rejected(_, _, _, _, _) =>
  }

  /** Any journal that replays, whoever wrote it, rebuilds such a book. Only crossing is not checked. */
  lemma {:induction false} ReplayShaped(r: Replayer, es: seq<Event>, capacity: nat)
    requires WellShaped(r.book, capacity) && ReplayAll(r, es, capacity).verdict.Done?
    ensures WellShaped(ReplayAll(r, es, capacity).at.book, capacity)
    decreases |es|
  {
    hide Apply, WellShaped;
    if es != [] {
      ApplyShaped(r, es[0], capacity);
      ReplayShaped(Apply(r, es[0], capacity).at, es[1..], capacity);
    }
  }

  /** A journal that replays and rebuilds a crossed book: a bid at 101 over an ask at 100. */
  lemma CrossedExample()
    ensures var x := Accepted(0, 0, 1, 0, 7, false, 100, 5, 5, Limit, 0);
            var y := Accepted(0, 1, 2, 0, 8, true, 101, 5, 5, Limit, 1);
            var v := ReplayAll(FRESH, [x, y], 10);
            v.verdict.Done? && WellShaped(v.at.book, 10) && !Uncrossed(v.at.book)
  {
    var x, y := Accepted(0, 0, 1, 0, 7, false, 100, 5, 5, Limit, 0), Accepted(0, 1, 2, 0, 8, true, 101, 5, 5, Limit, 1);
    var r1 := Replayer(Book([], [Restored(x)]), 1, 1, false, 0, 0);
    var r2 := Replayer(Book([Restored(y)], [Restored(x)]), 2, 2, false, 1, 1);
    Crossing(x, y);
    hide Apply, WellShaped;
    assert ReplayAll(FRESH, [x, y], 10).at == r2 && ReplayAll(FRESH, [x, y], 10).verdict.Done? by {
      assert [x, y][1..] == [y] && [y][1..] == [];
      assert ReplayAll(r2, [], 10) == Replayed(Done, r2);
      assert ReplayAll(r1, [y], 10) == ReplayAll(r2, [], 10);
    }
    assert r2.book.bids[0].price > r2.book.asks[0].price;
    NothingShaped(10);
    ReplayShaped(FRESH, [x, y], 10);
  }

  lemma NothingShaped(capacity: nat)
    ensures WellShaped(EMPTY, capacity)
  {}

  lemma Crossing(x: Event, y: Event)
    requires x == Accepted(0, 0, 1, 0, 7, false, 100, 5, 5, Limit, 0)
    requires y == Accepted(0, 1, 2, 0, 8, true, 101, 5, 5, Limit, 1)
    ensures Apply(FRESH, x, 10) == Replayed(Done, Replayer(Book([], [Restored(x)]), 1, 1, false, 0, 0))
    ensures Apply(Replayer(Book([], [Restored(x)]), 1, 1, false, 0, 0), y, 10)
            == Replayed(Done, Replayer(Book([Restored(y)], [Restored(x)]), 2, 2, false, 1, 1))
  {
    hide Insert, Apply;
    FirstOnSide(FRESH, x);
    FirstOnSide(Replayer(Book([], [Restored(x)]), 1, 1, false, 0, 0), y);
  }

  /** A good acceptance on an empty side. */
  lemma FirstOnSide(r: Replayer, e: Event)
    requires e.Accepted? && r.book.Queue(Restored(e).side) == [] && r.book.Count() < 10
    requires SequenceOk(r, e.sequence) && PriorityOk(r, e.priority) && 0 < e.remaining <= e.quantity && e.kind.Limit?
    requires e.id > 0 && e.trader > 0 && e.ticks > 0 && !r.book.Contains(e.id)
    ensures Apply(r, e, 10)
            == Replayed(Done, Replayer(r.book.With(Restored(e).side, [Restored(e)]), r.records + 1, r.newOrders + 1,
                                       false, e.sequence, e.priority))
  {
    assert Insert(Restored(e).side, [], Restored(e)) == [Restored(e)];
  }
}
