/** The matching engine: commands, the events they publish, and the counters it hands out. */
module Engine {
  import opened Types
  import opened Book

  datatype State = Recovering | Ready | Halted

  /** `sequence` is the shared event counter; `tradeId` the book's next trade number. */
  datatype Engine = Engine(book: Book, priority: nat, sequence: nat, tradeId: nat, policy: StpPolicy, state: State)

  /** `healthy` is the journal's answer to the health check that opens every command; `now` the clock. */
  datatype Command =
    | Process(order: Order, healthy: bool, now: nat)
    | Cancel(id: nat, healthy: bool, now: nat)
    | Replace(id: nat, price: int, quantity: nat, healthy: bool, now: nat)
    | SetPolicy(policy: StpPolicy)

  const MAX_PRIORITY: nat := U64 - 1

  // ----- events ---------------------------------------------------------------------------------

  function TradeEvent(o: Order, f: Fill, sequence: nat, now: nat): Event {
    Traded(now, sequence, f.resting.id, o.id, o.symbol, o.trader % U32, f.quantity, f.resting.price, o.side.Buy?)
  }

  function TradeEvents(o: Order, fs: seq<Fill>, sequence: nat, now: nat): (es: seq<Event>)
    ensures |es| == |fs|
  {
    if fs == [] then [] else [TradeEvent(o, fs[0], sequence, now)] + TradeEvents(o, fs[1..], sequence + 1, now)
  }

  function AcceptedEvent(o: Order, left: nat, sequence: nat, now: nat): Event {
    Accepted(now, sequence, o.id, o.symbol, o.trader % U32, o.side.Buy?, o.price, o.quantity, left, o.kind, o.priority)
  }

  /** Published after a match: one event per trade, then the acceptance of what remains of a LIMIT order. */
  function MatchEvents(o: Order, fs: seq<Fill>, left: nat, sequence: nat, now: nat): seq<Event> {
    TradeEvents(o, fs, sequence, now) +
    (if left > 0 && o.kind.Limit? then [AcceptedEvent(o, left, sequence + |fs|, now)] else [])
  }

  function CancelEvent(o: Order, sequence: nat, now: nat): Event {
    Cancelled(now, sequence, o.id, o.symbol, o.trader % U32, o.remaining)
  }

  // ----- commands -------------------------------------------------------------------------------

  datatype Stepped = Stepped(engine: Engine, events: seq<Event>)

  function DoProcess(e: Engine, order: Order, now: nat, capacity: nat): Stepped {
    if e.priority == MAX_PRIORITY then Stepped(e.(state := Halted), [])
    else
      var o := order.(priority := e.priority);
      var m := Match(e.book, o, e.policy, capacity);
      var es := MatchEvents(o, m.fills, m.left, e.sequence, now);
      Stepped(e.(book := m.book, priority := e.priority + 1, sequence := e.sequence + |es|,
                 tradeId := e.tradeId + |m.fills|), es)
  }

  function DoCancel(e: Engine, id: nat, now: nat): Stepped {
    if !e.book.Contains(id) then Stepped(e, [])
    else Stepped(e.(book := CancelOrder(e.book, id), sequence := e.sequence + 1),
                 [CancelEvent(e.book.Lookup(id), e.sequence, now)])
  }

  predicate LosesPriority(b: Book, id: nat, price: int, quantity: nat) {
    b.Contains(id) && quantity > 0 && (price != b.Lookup(id).price || quantity > b.Lookup(id).quantity)
  }

  /** A cancellation of the old order, then the events of matching the new one. */
  function DoReplace(e: Engine, id: nat, price: int, quantity: nat, now: nat, capacity: nat): Stepped
    requires e.book.Contains(id) ==> e.book.Lookup(id).remaining <= e.book.Lookup(id).quantity
  {
    if !e.book.Contains(id) || (quantity > 0 && price <= 0) then Stepped(e, [])
    else if LosesPriority(e.book, id, price, quantity) && e.priority == MAX_PRIORITY then
      Stepped(e.(state := Halted), [])
    else
      var was := e.book.Lookup(id);
      if LosesPriority(e.book, id, price, quantity) then
        PublishReplace(e.(priority := e.priority + 1), was, price, quantity, e.priority, now, capacity)
      else PublishReplace(e, was, price, quantity, was.priority, now, capacity)
  }

  function PublishReplace(e: Engine, was: Order, price: int, quantity: nat, priority: nat, now: nat,
                          capacity: nat): Stepped
    requires e.book.Contains(was.id) && was == e.book.Lookup(was.id) && was.remaining <= was.quantity
  {
    var r := ReplaceOrder(e.book, was.id, price, quantity, priority, e.policy, capacity);
    if r.Refused? then Stepped(e, [])
    else
      var issued := if quantity == 0 then was else Reissue(was, price, quantity, priority);
      var es := [CancelEvent(was, e.sequence, now)] +
                MatchEvents(issued, r.fills, if quantity > 0 then r.left else 0, e.sequence + 1, now);
      Stepped(e.(book := r.book, sequence := e.sequence + |es|, tradeId := e.tradeId + |r.fills|), es)
  }

  /** Resting orders never have more remaining than their quantity. */
  ghost predicate WellFilled(b: Book) {
    (forall o <- b.bids :: o.remaining <= o.quantity) && (forall o <- b.asks :: o.remaining <= o.quantity)
  }

  function Step(e: Engine, c: Command, capacity: nat): Stepped
    requires WellFilled(e.book)
  {
    match c
    case SetPolicy(policy) => Stepped(e.(policy := policy), [])
    case Process(order, healthy, now) =>
      if e.state.Halted? || !healthy then Stepped(e, []) else DoProcess(e, order, now, capacity)
    case Cancel(id, healthy, now) =>
      if e.state.Halted? || !healthy then Stepped(e, []) else DoCancel(e, id, now)
    case Replace(id, price, quantity, healthy, now) =>
      if e.state.Halted? || !healthy then Stepped(e, []) else DoReplace(e, id, price, quantity, now, capacity)
  }

  /** Commands as a caller can issue them: a constructed order whose id is not already resting. */
  predicate Admissible(b: Book, c: Command) {
    match c
    case Process(order, _, _) => Submittable(order) && !b.Contains(order.id)
    case _ => true
  }
}

/** Well-formedness and FIFO of the engine's book, command by command. */
module EngineInvariant {
  import opened Types
  import opened PriorityList
  import opened Thinning
  import opened Book
  import opened BookInvariant
  import opened Engine

  ghost predicate Identified(b: Book) {
    (forall o <- b.bids :: o.id > 0 && o.trader > 0) && (forall o <- b.asks :: o.id > 0 && o.trader > 0)
  }

  lemma OkFilled(b: Book)
    requires BookOk(b)
    ensures WellFilled(b)
  {}

  /** Whatever the policy, matching thins the other side and at most inserts what is left of the order on its own. */
  lemma MatchForm(b: Book, inc: Order, policy: StpPolicy, capacity: nat)
    returns (q1: seq<Order>, q2: seq<Order>, left: nat)
    ensures Thinned(q1, b.Queue(inc.side.Opposite())) && Thinned(q2, q1)
    ensures var b' := Match(b, inc, policy, capacity).book;
            && b'.Queue(inc.side.Opposite()) == q2
            && (|| b'.Queue(inc.side) == b.Queue(inc.side)
                || (&& left == Match(b, inc, policy, capacity).left
                    && b'.Queue(inc.side) == Insert(inc.side, b.Queue(inc.side), inc.(remaining := left))
                    && |b.Queue(inc.side)| + |q2| < capacity))
  {
    var q := b.Queue(inc.side.Opposite());
    var stp := StpFires(b, inc, policy);
    q1 := if stp && policy.CancelOldest? then DropFirstOwn(q, inc)
          else if stp && policy.CancelBoth? then DropAllOwn(q, inc) else q;
    Same(q);
    DroppedFirstOwn(q, inc);
    DroppedAllOwn(q, inc);
    var s := Sweep(q1, inc, inc.remaining);
    Swept(q1, inc, inc.remaining);
    Same(q1);
    left := s.left;
    q2 := if Killed(b, inc) || (stp && !policy.CancelOldest?) then q1 else s.rest;
  }

  /** Attributes that matching never changes: where each order of the new book comes from. */
  lemma MatchOrigin(b: Book, inc: Order, policy: StpPolicy, capacity: nat, side: Side, x: Order) returns (o: Order)
    requires x in Match(b, inc, policy, capacity).book.Queue(side)
    ensures o == inc || o in b.Queue(side)
    ensures x == o.(remaining := x.remaining, quantity := x.quantity)
  {
    hide Match;
    var q1, q2, left := MatchForm(b, inc, policy, capacity);
    if side == inc.side {
      if x in b.Queue(side) { o := x; }
      else {
        InsertMembers(side, b.Queue(side), inc.(remaining := left), x);
        o := inc;
      }
    } else {
      var y := Origin(q2, q1, x);
      o := Origin(q1, b.Queue(side), y);
    }
  }

  ghost predicate FifoBook(b: Book) { Fifo(b.bids) && Fifo(b.asks) }

  ghost predicate PrioritiesBelow(b: Book, n: nat) {
    (forall o <- b.bids :: o.priority < n) && (forall o <- b.asks :: o.priority < n)
  }

  // ----- well-formedness ------------------------------------------------------------------------

  lemma MatchIdentified(b: Book, inc: Order, policy: StpPolicy, capacity: nat, n: nat)
    requires BookOk(b) && Identified(b) && inc.id > 0 && inc.trader > 0
    requires PrioritiesBelow(b, n) && inc.priority < n
    ensures Identified(Match(b, inc, policy, capacity).book)
    ensures PrioritiesBelow(Match(b, inc, policy, capacity).book, n)
  {
    var b' := Match(b, inc, policy, capacity).book;
    forall x | x in b'.bids ensures x.id > 0 && x.trader > 0 && x.priority < n {
      var o := MatchOrigin(b, inc, policy, capacity, Buy, x);
    }
    forall x | x in b'.asks ensures x.id > 0 && x.trader > 0 && x.priority < n {
      var o := MatchOrigin(b, inc, policy, capacity, Sell, x);
    }
  }

  lemma ThinIdentified(b: Book, side: Side, q: seq<Order>, n: nat)
    requires Identified(b) && PrioritiesBelow(b, n) && Thinned(q, b.Queue(side))
    ensures Identified(b.With(side, q)) && PrioritiesBelow(b.With(side, q), n)
  {
    forall x | x in q ensures x.id > 0 && x.trader > 0 && x.priority < n { var o := Origin(q, b.Queue(side), x); }
  }

  lemma MatchCount(b: Book, inc: Order, policy: StpPolicy, capacity: nat)
    requires b.Count() <= capacity
    ensures Match(b, inc, policy, capacity).book.Count() <= capacity
  {
    hide Match;
    var q1, q2, left := MatchForm(b, inc, policy, capacity);
    ThinnedLength(q1, b.Queue(inc.side.Opposite()));
    ThinnedLength(q2, q1);
    var b' := Match(b, inc, policy, capacity).book;
    assert b'.Count() == |b'.Queue(inc.side)| + |q2|;
  }

  /** The state every command starts from and ends in. */
  ghost predicate Sane(e: Engine, capacity: nat) {
    && BookOk(e.book) && Identified(e.book) && PrioritiesBelow(e.book, e.priority)
    && e.priority <= MAX_PRIORITY && e.book.Count() <= capacity
  }

  lemma CancelSane(b: Book, id: nat, n: nat)
    requires BookOk(b) && Identified(b) && PrioritiesBelow(b, n)
    ensures var b' := CancelOrder(b, id);
            BookOk(b') && Identified(b') && PrioritiesBelow(b', n) && b'.Count() <= b.Count() && !b'.Contains(id)
  {
    CancelKeeps(b, id);
    if b.Contains(id) {
      var q := b.Queue(b.SideOf(id));
      RemovedAt(q, Position(q, id));
      ThinIdentified(b, b.SideOf(id), RemoveAt(q, Position(q, id)), n);
    }
  }

  lemma LookupSane(b: Book, id: nat, n: nat)
    requires BookOk(b) && Identified(b) && PrioritiesBelow(b, n) && b.Contains(id)
    ensures var o := b.Lookup(id);
            o.id == id > 0 && o.trader > 0 && o.priority < n && Resting(b.SideOf(id), o)
  {}

  /** A replace that goes through publishes the cancellation, then whatever matching the new order gave. */
  lemma ReplacePublishes(e: Engine, id: nat, price: int, quantity: nat, now: nat, capacity: nat)
    requires WellFilled(e.book) && !ReplaceRefused(e.book, id, price, quantity)
    requires LosesPriority(e.book, id, price, quantity) ==> e.priority < MAX_PRIORITY
    ensures var was, renewed := e.book.Lookup(id), LosesPriority(e.book, id, price, quantity);
            var priority := if renewed then e.priority else was.priority;
            var r := ReplaceOrder(e.book, id, price, quantity, priority, e.policy, capacity);
            var s := DoReplace(e, id, price, quantity, now, capacity);
            && r.Replaced? && s.engine.book == r.book && s.engine.sequence == e.sequence + |s.events|
            && s.engine.priority == e.priority + (if renewed then 1 else 0)
            && s.events == [CancelEvent(was, e.sequence, now)] +
                           MatchEvents(if quantity == 0 then was else Reissue(was, price, quantity, priority), r.fills,
                                       if quantity > 0 then r.left else 0, e.sequence + 1, now)
  {
    hide MatchEvents, CancelOrder, Match, CancelEvent;
  }

  lemma ReplaceTurnedAway(e: Engine, id: nat, price: int, quantity: nat, now: nat, capacity: nat)
    requires WellFilled(e.book) && e.priority <= MAX_PRIORITY
    requires || ReplaceRefused(e.book, id, price, quantity)
             || (LosesPriority(e.book, id, price, quantity) && e.priority == MAX_PRIORITY)
    ensures var s := DoReplace(e, id, price, quantity, now, capacity);
            && s.events == [] && s.engine.book == e.book && s.engine.sequence == e.sequence
            && e.priority <= s.engine.priority <= MAX_PRIORITY
  {
    hide Match, CancelOrder;
  }

  lemma RenewedSane(b: Book, o: Order, policy: StpPolicy, capacity: nat, n: nat)
    requires BookOk(b) && Identified(b) && PrioritiesBelow(b, n) && b.Count() <= capacity
    requires Submittable(o) && !b.Contains(o.id) && o.priority < n
    ensures var b' := Match(b, o, policy, capacity).book;
            BookOk(b') && Identified(b') && PrioritiesBelow(b', n) && b'.Count() <= capacity
  {
    hide Match;
    MatchKeeps(b, o, policy, capacity);
    MatchIdentified(b, o, policy, capacity, n);
    MatchCount(b, o, policy, capacity);
  }

  lemma InPlaceSane(b: Book, id: nat, price: int, quantity: nat, n: nat)
    requires BookOk(b) && Identified(b) && PrioritiesBelow(b, n)
    requires !ReplaceRefused(b, id, price, quantity) && ReplaceInPlace(b, id, price, quantity)
    requires b.Lookup(id).remaining <= b.Lookup(id).quantity
    ensures var was, q := b.Lookup(id), b.Queue(b.SideOf(id));
            var o' := was.(quantity := quantity, remaining := quantity - (was.quantity - was.remaining));
            var b' := b.With(b.SideOf(id), q[Position(q, id) := o']);
            BookOk(b') && Identified(b') && PrioritiesBelow(b', n) && b'.Count() == b.Count()
  {
    var was, q := b.Lookup(id), b.Queue(b.SideOf(id));
    var o' := was.(quantity := quantity, remaining := quantity - (was.quantity - was.remaining));
    Rescaled(q, Position(q, id), o');
    hide BookOk;
    ThinKeeps(b, b.SideOf(id), q[Position(q, id) := o']);
    ThinIdentified(b, b.SideOf(id), q[Position(q, id) := o'], n);
  }

  lemma ReplaceOrderSane(b: Book, id: nat, price: int, quantity: nat, priority: nat, policy: StpPolicy,
                         capacity: nat, n: nat)
    requires BookOk(b) && Identified(b) && PrioritiesBelow(b, n) && priority < n && b.Count() <= capacity
    requires !ReplaceRefused(b, id, price, quantity) && b.Lookup(id).remaining <= b.Lookup(id).quantity
    ensures var r := ReplaceOrder(b, id, price, quantity, priority, policy, capacity);
            && r.Replaced? && BookOk(r.book) && Identified(r.book) && PrioritiesBelow(r.book, n)
            && r.book.Count() <= capacity
  {
    LookupSane(b, id, n);
    CancelSane(b, id, n);
    hide BookOk, Match, CancelOrder, Identified, PrioritiesBelow;
    var was := b.Lookup(id);
    if ReplaceInPlace(b, id, price, quantity) {
      InPlaceSane(b, id, price, quantity, n);
    } else if quantity > was.quantity - was.remaining {
      RenewedSane(CancelOrder(b, id), Reissue(was, price, quantity, priority), policy, capacity, n);
    }
  }

  lemma ReplaceSane(e: Engine, id: nat, price: int, quantity: nat, now: nat, capacity: nat)
    requires Sane(e, capacity) && WellFilled(e.book)
    ensures Sane(DoReplace(e, id, price, quantity, now, capacity).engine, capacity)
  {
    var b := e.book;
    var renewed := LosesPriority(b, id, price, quantity);
    if ReplaceRefused(b, id, price, quantity) || (renewed && e.priority == MAX_PRIORITY) {
      ReplaceTurnedAway(e, id, price, quantity, now, capacity);
    } else {
      LookupSane(b, id, e.priority);
      hide BookOk, DoReplace, ReplaceOrder, Identified;
      ReplacePublishes(e, id, price, quantity, now, capacity);
      var priority := if renewed then e.priority else b.Lookup(id).priority;
      ReplaceOrderSane(b, id, price, quantity, priority, e.policy, capacity,
                       if renewed then e.priority + 1 else e.priority);
    }
  }

  /** Under every policy, every admissible command leaves a well-formed, uncrossed book
      with distinct ids and every resting priority below the counter. */
  lemma StepSane(e: Engine, c: Command, capacity: nat)
    requires Sane(e, capacity) && Admissible(e.book, c)
    ensures WellFilled(e.book) && Sane(Step(e, c, capacity).engine, capacity)
  {
    OkFilled(e.book);
    match c
    case SetPolicy(_) =>
    case Process(order, healthy, now) =>
      if e.priority < MAX_PRIORITY {
        var o := order.(priority := e.priority);
        MatchKeeps(e.book, o, e.policy, capacity);
        MatchIdentified(e.book, o, e.policy, capacity, e.priority + 1);
        MatchCount(e.book, o, e.policy, capacity);
      }
    case Cancel(id, healthy, now) => CancelSane(e.book, id, e.priority);
    case Replace(id, price, quantity, healthy, now) => ReplaceSane(e, id, price, quantity, now, capacity);
  }

  // ----- time priority --------------------------------------------------------------------------

  lemma MatchFifo(b: Book, inc: Order, policy: StpPolicy, capacity: nat)
    requires BookOk(b) && FifoBook(b)
    requires forall x <- b.Queue(inc.side) :: x.price == inc.price ==> x.priority < inc.priority
    ensures FifoBook(Match(b, inc, policy, capacity).book)
  {
    hide Match;
    var q1, q2, left := MatchForm(b, inc, policy, capacity);
    ThinnedFifo(q1, b.Queue(inc.side.Opposite()));
    ThinnedFifo(q2, q1);
    InsertFifo(inc.side, b.Queue(inc.side), inc.(remaining := left));
  }

  /** A replace on unchanged terms of an order that is not the last at its price. */
  predicate Shuffles(e: Engine, c: Command) {
    && c.Replace? && !e.state.Halted? && c.healthy && e.book.Contains(c.id)
    && var o, q := e.book.Lookup(c.id), e.book.Queue(e.book.SideOf(c.id));
       var k := Position(q, c.id);
       && c.price == o.price && c.quantity == o.quantity > 0 && o.remaining > 0
       && k + 1 < |q| && q[k + 1].price == o.price
  }

  /** On unchanged terms the order finds nothing to trade with and goes to the back, old priority and all. */
  lemma SameTerms(b: Book, id: nat, policy: StpPolicy, capacity: nat)
    requires BookOk(b) && b.Count() <= capacity && b.Contains(id) && b.Lookup(id).remaining > 0
    ensures var o, b1 := b.Lookup(id), CancelOrder(b, id);
            Match(b1, o, policy, capacity)
            == Matched(b1.With(o.side, Insert(o.side, b1.Queue(o.side), o)), [], o.remaining)
  {
    var o, b1 := b.Lookup(id), CancelOrder(b, id);
    LookupFacts(b, id);
    CancelKeeps(b, id);
    if b.Queue(o.side.Opposite()) != [] {
      if o.side.Buy? { assert b.bids[Position(b.bids, id)].price < b.asks[0].price; }
      else { assert b.bids[0].price < b.asks[Position(b.asks, id)].price; }
    }
    NoCrossRests(b1, o, policy, capacity);
  }

  lemma NoCrossRests(b: Book, o: Order, policy: StpPolicy, capacity: nat)
    requires o.kind.Limit? && CanRest(b, o, capacity)
    requires var opp := b.Queue(o.side.Opposite()); opp == [] || !Crosses(o, opp[0].price)
    ensures Match(b, o, policy, capacity)
            == Matched(b.With(o.side, Insert(o.side, b.Queue(o.side), o)), [], o.remaining)
  {}

  lemma NoneBehind(side: Side, q: seq<Order>, k: nat, j: nat)
    requires Sorted(side, q) && k < j < |q| && q[k + 1].price != q[k].price
    ensures q[j].price != q[k].price
  {}

  lemma SameTermsFifo(side: Side, q: seq<Order>, k: nat)
    requires Sorted(side, q) && Fifo(q) && k < |q|
    ensures Fifo(Insert(side, RemoveAt(q, k), q[k])) <==> !(k + 1 < |q| && q[k + 1].price == q[k].price)
  {
    var p, o := RemoveAt(q, k), q[k];
    RemovedAt(q, k);
    ThinnedSorted(side, p, q);
    ThinnedFifo(p, q);
    if k + 1 < |q| && q[k + 1].price == o.price {
      var m, q' := InsertPoint(side, p, o.price), Insert(side, p, o);
      InsertIndices(side, p, o);
      InsertSplit(side, p, o.price);
      assert p[k] == q[k + 1] && q[k].priority < q[k + 1].priority;
      assert k < m;
      assert q'[k] == p[k] && q'[m] == o;
    } else {
      forall i | 0 <= i < |p| ensures p[i].price == o.price ==> p[i].priority < o.priority {
        assert p[i] == q[if i < k then i else i + 1];
        if i >= k { NoneBehind(side, q, k, i + 1); }
      }
      InsertFifo(side, p, o);
    }
  }

  lemma CancelFifo(b: Book, id: nat)
    requires FifoBook(b)
    ensures FifoBook(CancelOrder(b, id))
  {
    if b.Contains(id) {
      var q := b.Queue(b.SideOf(id));
      RemovedAt(q, Position(q, id));
      ThinnedFifo(RemoveAt(q, Position(q, id)), q);
    }
  }

  lemma ReissueFifo(b: Book, id: nat, o': Order, policy: StpPolicy, capacity: nat)
    requires BookOk(b) && FifoBook(b) && PrioritiesBelow(b, o'.priority)
    ensures FifoBook(Match(CancelOrder(b, id), o', policy, capacity).book)
  {
    hide BookOk, FifoBook, Match, CancelOrder, Without;
    CancelKeeps(b, id);
    CancelFifo(b, id);
    CancelBelow(b, id, o'.priority);
    MatchFifo(CancelOrder(b, id), o', policy, capacity);
  }

  lemma CancelBelow(b: Book, id: nat, n: nat)
    requires PrioritiesBelow(b, n)
    ensures PrioritiesBelow(CancelOrder(b, id), n)
  {
    if b.Contains(id) {
      var q := b.Queue(b.SideOf(id));
      forall x | x in RemoveAt(q, Position(q, id)) ensures x.priority < n { assert x in q; }
    }
  }

  lemma InPlaceFifo(b: Book, side: Side, k: nat, o': Order)
    requires FifoBook(b) && k < |b.Queue(side)| && Keeps(o', b.Queue(side)[k])
    ensures FifoBook(b.With(side, b.Queue(side)[k := o']))
  {}

  lemma SameTermsReplace(e: Engine, id: nat, capacity: nat)
    requires BookOk(e.book) && FifoBook(e.book) && e.book.Count() <= capacity && e.book.Contains(id)
    requires e.book.Lookup(id).remaining > 0
    ensures var b := e.book;
            var o := b.Lookup(id);
            var q := b.Queue(b.SideOf(id));
            var k := Position(q, id);
            && o.price > 0 && 0 < o.remaining <= o.quantity && Reissue(o, o.price, o.quantity, o.priority) == o
            && (FifoBook(Match(CancelOrder(b, id), o, e.policy, capacity).book)
                <==> !(k + 1 < |q| && q[k + 1].price == q[k].price))
  {
    var b := e.book;
    var q := b.Queue(b.SideOf(id));
    LookupFacts(b, id);
    SameTerms(b, id, e.policy, capacity);
    SameTermsFifo(b.SideOf(id), q, Position(q, id));
  }

  lemma RenewedFifo(e: Engine, id: nat, price: int, quantity: nat, now: nat, capacity: nat)
    requires Sane(e, capacity) && FifoBook(e.book) && WellFilled(e.book) && e.book.Contains(id)
    requires LosesPriority(e.book, id, price, quantity)
    ensures FifoBook(DoReplace(e, id, price, quantity, now, capacity).engine.book)
  {
    hide Match, CancelOrder, DoReplace, MatchEvents, CancelEvent;
    if ReplaceRefused(e.book, id, price, quantity) || e.priority == MAX_PRIORITY {
      ReplaceTurnedAway(e, id, price, quantity, now, capacity);
    } else {
      ReplacePublishes(e, id, price, quantity, now, capacity);
      var was := e.book.Lookup(id);
      CancelFifo(e.book, id);
      if quantity > was.quantity - was.remaining {
        ReissueFifo(e.book, id, Reissue(was, price, quantity, e.priority), e.policy, capacity);
      }
    }
  }

  lemma KeptFifo(e: Engine, id: nat, price: int, quantity: nat, now: nat, capacity: nat)
    requires Sane(e, capacity) && FifoBook(e.book) && WellFilled(e.book) && e.book.Contains(id)
    requires quantity == 0 || (price == e.book.Lookup(id).price && quantity < e.book.Lookup(id).quantity)
    ensures FifoBook(DoReplace(e, id, price, quantity, now, capacity).engine.book)
  {
    hide Match, CancelOrder, MatchEvents;
    var b := e.book;
    var was, side := b.Lookup(id), b.SideOf(id);
    CancelFifo(b, id);
    if 0 < quantity && was.quantity - was.remaining <= quantity {
      var q := b.Queue(side);
      InPlaceFifo(b, side, Position(q, id),
                  was.(quantity := quantity, remaining := quantity - (was.quantity - was.remaining)));
    }
  }

  lemma UnchangedFifo(e: Engine, id: nat, now: nat, capacity: nat)
    requires Sane(e, capacity) && FifoBook(e.book) && WellFilled(e.book) && e.book.Contains(id) && !e.state.Halted?
    ensures var o := e.book.Lookup(id);
            FifoBook(DoReplace(e, id, o.price, o.quantity, now, capacity).engine.book)
            <==> !Shuffles(e, Replace(id, o.price, o.quantity, true, now))
  {
    LookupFacts(e.book, id);
    hide Match, CancelOrder, MatchEvents, BookOk;
    if e.book.Lookup(id).remaining > 0 { SameTermsReplace(e, id, capacity); } else { CancelFifo(e.book, id); }
  }

  lemma ReplaceFifo(e: Engine, id: nat, price: int, quantity: nat, now: nat, capacity: nat)
    requires Sane(e, capacity) && FifoBook(e.book) && WellFilled(e.book) && e.book.Contains(id) && !e.state.Halted?
    ensures FifoBook(DoReplace(e, id, price, quantity, now, capacity).engine.book)
            <==> !Shuffles(e, Replace(id, price, quantity, true, now))
  {
    var was := e.book.Lookup(id);
    if LosesPriority(e.book, id, price, quantity) { RenewedFifo(e, id, price, quantity, now, capacity); }
    else if quantity > 0 && quantity == was.quantity { UnchangedFifo(e, id, now, capacity); }
    else { KeptFifo(e, id, price, quantity, now, capacity); }
  }

  /** Time priority survives a command exactly when it is not an unchanged-terms replace
      of an order with others behind it at its price. */
  lemma FifoIff(e: Engine, c: Command, capacity: nat)
    requires Sane(e, capacity) && FifoBook(e.book) && Admissible(e.book, c)
    ensures WellFilled(e.book)
    ensures FifoBook(Step(e, c, capacity).engine.book) <==> !Shuffles(e, c)
  {
    OkFilled(e.book);
    match c
    case SetPolicy(_) =>
    case Process(order, healthy, now) =>
      if e.priority < MAX_PRIORITY { MatchFifo(e.book, order.(priority := e.priority), e.policy, capacity); }
    case Cancel(id, healthy, now) => CancelFifo(e.book, id);
    case Replace(id, price, quantity, healthy, now) =>
      if !e.state.Halted? && healthy && e.book.Contains(id) {
        ReplaceFifo(e, id, price, quantity, now, capacity);
      }
  }
}
