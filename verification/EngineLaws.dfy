/** What each command of the engine means: for the book, the counters, and the events, field by field. */
module EngineLaws {
  import opened Types
  import opened Book
  import opened BookInvariant
  import opened Engine
  import opened EngineInvariant
  import opened MatchLaws

  // ----- what the events say ------------------------------------------------------------------------------

  predicate TradeSays(e: Event, o: Order, f: Fill, sequence: nat, now: nat) {
    && e.Traded? && e.time == now && e.sequence == sequence && e.restingId == f.resting.id && e.aggressorId == o.id
    && e.symbol == o.symbol && e.trader == o.trader % U32 && e.quantity == f.quantity && e.ticks == f.resting.price
    && (e.aggressorIsBuy <==> o.side == Buy)
  }

  predicate AcceptSays(e: Event, o: Order, left: nat, sequence: nat, now: nat) {
    && e.Accepted? && e.time == now && e.sequence == sequence && e.id == o.id && e.symbol == o.symbol
    && e.trader == o.trader % U32 && (e.isBuy <==> o.side == Buy) && e.ticks == o.price && e.quantity == o.quantity
    && e.remaining == left && e.kind == o.kind && e.priority == o.priority
  }

  predicate CancelSays(e: Event, o: Order, sequence: nat, now: nat) {
    && e.Cancelled? && e.time == now && e.sequence == sequence && e.id == o.id && e.symbol == o.symbol
    && e.trader == o.trader % U32 && e.quantity == o.remaining
  }

  /** One event for each fill, in order, and one more if something of a LIMIT order is left. */
  ghost predicate EventsTell(es: seq<Event>, o: Order, fs: seq<Fill>, left: nat, sequence: nat, now: nat) {
    var accepted := left > 0 && o.kind.Limit?;
    && |es| == |fs| + (if accepted then 1 else 0)
    && (forall i :: 0 <= i < |fs| ==> TradeSays(es[i], o, fs[i], sequence + i, now))
    && (accepted ==> AcceptSays(es[|fs|], o, left, sequence + |fs|, now))
  }

  lemma {:induction false} TradesTell(o: Order, fs: seq<Fill>, sequence: nat, now: nat)
    ensures var es := TradeEvents(o, fs, sequence, now);
            forall i :: 0 <= i < |fs| ==> TradeSays(es[i], o, fs[i], sequence + i, now)
  {
    if fs != [] { TradesTell(o, fs[1..], sequence + 1, now); }
  }

  lemma MatchEventsTell(o: Order, fs: seq<Fill>, left: nat, sequence: nat, now: nat)
    ensures EventsTell(MatchEvents(o, fs, left, sequence, now), o, fs, left, sequence, now)
  {
    TradesTell(o, fs, sequence, now);
  }

  // ----- what the commands do -----------------------------------------------------------------------------

  ghost predicate ProcessMeans(e: Engine, order: Order, now: nat, capacity: nat, s: Stepped) {
    if e.priority == MAX_PRIORITY then s == Stepped(e.(state := Halted), [])
    else
      var o := order.(priority := e.priority);
      exists m: Matched ::
        && MatchMeans(e.book, o, e.policy, capacity, m) && EventsTell(s.events, o, m.fills, m.left, e.sequence, now)
        && s.engine == Engine(m.book, e.priority + 1, e.sequence + |s.events|, e.tradeId + |m.fills|, e.policy, e.state)
  }

  ghost predicate CancelMeans(e: Engine, id: nat, now: nat, s: Stepped) {
    if forall o <- e.book.bids + e.book.asks :: o.id != id then s == Stepped(e, [])
    else
      && s.engine == e.(book := Book(Without(e.book.bids, id), Without(e.book.asks, id)), sequence := e.sequence + 1)
      && |s.events| == 1
      && exists o <- e.book.bids + e.book.asks :: o.id == id && CancelSays(s.events[0], o, e.sequence, now)
  }

  /** The order as it is reissued: new terms, less what had traded. */
  predicate IsReissued(o: Order, was: Order, price: int, quantity: nat, priority: nat) {
    && o == Order(was.id, was.trader, was.symbol, was.side, was.kind, price, quantity, o.remaining, priority)
    && o.remaining + Done(was) == quantity
  }

  ghost predicate ReplaceDone(e: Engine, was: Order, price: int, quantity: nat, priority: nat, now: nat, capacity: nat,
                              s: Stepped, m: Matched, o: Order)
  {
    && ReplaceMeans(e.book, was, price, quantity, priority, e.policy, capacity, m.book, m.fills, m.left)
    && (if quantity == 0 then o == was else IsReissued(o, was, price, quantity, priority))
    && |s.events| > 0 && CancelSays(s.events[0], was, e.sequence, now)
    && EventsTell(s.events[1..], o, m.fills, if quantity > 0 then m.left else 0, e.sequence + 1, now)
    && s.engine == e.(book := m.book, sequence := e.sequence + |s.events|, tradeId := e.tradeId + |m.fills|)
  }

  ghost predicate ReplaceStep(e: Engine, was: Order, price: int, quantity: nat, now: nat, capacity: nat, s: Stepped) {
    var renewed := quantity > 0 && (price != was.price || quantity > was.quantity);
    if renewed && e.priority == MAX_PRIORITY then s == Stepped(e.(state := Halted), [])
    else
      var priority := if renewed then e.priority else was.priority;
      var e1 := e.(priority := e.priority + (if renewed then 1 else 0));
      if 0 < quantity < Done(was) then s == Stepped(e1, [])
      else exists m: Matched, o: Order :: ReplaceDone(e1, was, price, quantity, priority, now, capacity, s, m, o)
  }

  /** A replace that gives up its place takes a new priority, even if the book then turns it down; none left halts. */
  ghost predicate ReplaceIsStep(e: Engine, id: nat, price: int, quantity: nat, now: nat, capacity: nat, s: Stepped) {
    if (quantity > 0 && price <= 0) || (forall o <- e.book.bids + e.book.asks :: o.id != id) then s == Stepped(e, [])
    else
      exists was <- e.book.bids + e.book.asks ::
        was.id == id && ReplaceStep(e, was, price, quantity, now, capacity, s)
  }

  ghost predicate StepMeans(e: Engine, c: Command, capacity: nat, s: Stepped) {
    match c
    case SetPolicy(policy) => s == Stepped(e.(policy := policy), [])
    case Process(o, healthy, now) =>
      if e.state.Halted? || !healthy then s == Stepped(e, []) else ProcessMeans(e, o, now, capacity, s)
    case Cancel(id, healthy, now) =>
      if e.state.Halted? || !healthy then s == Stepped(e, []) else CancelMeans(e, id, now, s)
    case Replace(id, price, quantity, healthy, now) =>
      if e.state.Halted? || !healthy then s == Stepped(e, [])
      else ReplaceIsStep(e, id, price, quantity, now, capacity, s)
  }

  lemma ProcessIs(e: Engine, order: Order, now: nat, capacity: nat)
    requires BookOk(e.book) && order.remaining > 0 && order.quantity > 0
    ensures ProcessMeans(e, order, now, capacity, DoProcess(e, order, now, capacity))
  {
    hide Match, MatchMeans, MatchEvents, EventsTell;
    var o := order.(priority := e.priority);
    var m := Match(e.book, o, e.policy, capacity);
    MatchIs(e.book, o, e.policy, capacity);
    MatchEventsTell(o, m.fills, m.left, e.sequence, now);
  }

  lemma Present(b: Book, id: nat)
    requires BookOk(b)
    ensures b.Contains(id) <==> exists o :: o in b.bids + b.asks && o.id == id
    ensures b.Contains(id) ==> b.Lookup(id) in b.bids + b.asks && b.Lookup(id).id == id
    ensures b.Contains(id) ==> b.Lookup(id).remaining <= b.Lookup(id).quantity
  {
    if b.Contains(id) {
      LookupFacts(b, id);
      assert b.Lookup(id) in b.bids + b.asks;
    }
    forall o | o in b.bids + b.asks && o.id == id ensures b.Contains(id) { OnlyOne(b, o); }
  }

  lemma CancelIs(e: Engine, id: nat, now: nat)
    requires BookOk(e.book)
    ensures CancelMeans(e, id, now, DoCancel(e, id, now))
  {
    Present(e.book, id);
    hide BookOk, CancelOrder, Without;
    CancelKeeps(e.book, id);
    if e.book.Contains(id) {
      var x := CancelEvent(e.book.Lookup(id), e.sequence, now);
      assert CancelSays(x, e.book.Lookup(id), e.sequence, now);
    }
  }

  lemma PublishedIs(e: Engine, was: Order, price: int, quantity: nat, priority: nat, now: nat, capacity: nat)
    requires BookOk(e.book) && e.book.Contains(was.id) && was == e.book.Lookup(was.id) && was.remaining <= was.quantity
    requires !ReplaceRefused(e.book, was.id, price, quantity)
    ensures var s := PublishReplace(e, was, price, quantity, priority, now, capacity);
            exists m: Matched, o: Order :: ReplaceDone(e, was, price, quantity, priority, now, capacity, s, m, o)
  {
    hide BookOk, MatchEvents, EventsTell, ReplaceMeans, Match, CancelOrder;
    ReplaceIs(e.book, was.id, price, quantity, priority, e.policy, capacity);
    var r := ReplaceOrder(e.book, was.id, price, quantity, priority, e.policy, capacity);
    var s := PublishReplace(e, was, price, quantity, priority, now, capacity);
    var o := if quantity == 0 then was else Reissue(was, price, quantity, priority);
    var left := if quantity > 0 then r.left else 0;
    MatchEventsTell(o, r.fills, left, e.sequence + 1, now);
    assert s.events[1..] == MatchEvents(o, r.fills, left, e.sequence + 1, now);
    assert ReplaceDone(e, was, price, quantity, priority, now, capacity, s, Matched(r.book, r.fills, r.left), o);
  }

  lemma ReplaceStepIs(e: Engine, id: nat, price: int, quantity: nat, now: nat, capacity: nat)
    requires BookOk(e.book) && e.book.Contains(id) && e.book.Lookup(id).remaining <= e.book.Lookup(id).quantity
    requires e.book.Lookup(id).id == id && !(quantity > 0 && price <= 0)
    ensures ReplaceStep(e, e.book.Lookup(id), price, quantity, now, capacity,
                        DoReplace(e, id, price, quantity, now, capacity))
  {
    hide BookOk, ReplaceDone, PublishReplace;
    var was, renewed := e.book.Lookup(id), LosesPriority(e.book, id, price, quantity);
    if 0 < quantity < Done(was) {
      PublishRefused(e.(priority := e.priority + (if renewed then 1 else 0)), was, price, quantity,
                     if renewed then e.priority else was.priority, now, capacity);
    } else if !(renewed && e.priority == MAX_PRIORITY) {
      PublishedIs(e.(priority := e.priority + (if renewed then 1 else 0)), was, price, quantity,
                  if renewed then e.priority else was.priority, now, capacity);
    }
  }

  lemma PublishRefused(e: Engine, was: Order, price: int, quantity: nat, priority: nat, now: nat, capacity: nat)
    requires e.book.Contains(was.id) && was == e.book.Lookup(was.id) && was.remaining <= was.quantity
    requires 0 < quantity < Done(was)
    ensures PublishReplace(e, was, price, quantity, priority, now, capacity) == Stepped(e, [])
  {}

  lemma ReplaceCommandIs(e: Engine, id: nat, price: int, quantity: nat, now: nat, capacity: nat)
    requires BookOk(e.book)
    ensures e.book.Contains(id) ==> e.book.Lookup(id).remaining <= e.book.Lookup(id).quantity
    ensures ReplaceIsStep(e, id, price, quantity, now, capacity, DoReplace(e, id, price, quantity, now, capacity))
  {
    hide BookOk, ReplaceStep, PublishReplace;
    Present(e.book, id);
    if e.book.Contains(id) && !(quantity > 0 && price <= 0) { ReplaceStepIs(e, id, price, quantity, now, capacity); }
  }

  /** Every command, in every state and under every policy, does and publishes exactly this. */
  lemma StepIs(e: Engine, c: Command, capacity: nat)
    requires BookOk(e.book) && (c.Process? ==> c.order.remaining > 0 && c.order.quantity > 0)
    ensures WellFilled(e.book) && StepMeans(e, c, capacity, Step(e, c, capacity))
  {
    OkFilled(e.book);
    hide ProcessMeans, CancelMeans, ReplaceIsStep, DoProcess, DoCancel, DoReplace, BookOk;
    match c
    case SetPolicy(_) =>
    case Process(o, _, now) => ProcessIs(e, o, now, capacity);
    case Cancel(id, _, now) => CancelIs(e, id, now);
    case Replace(id, price, quantity, _, now) => ReplaceCommandIs(e, id, price, quantity, now, capacity);
  }

  /** A healthy cancel of a resting order leaves the book without it, and publishes it. */
  lemma CancelRemoves(e: Engine, id: nat, now: nat, capacity: nat)
    requires BookOk(e.book) && !e.state.Halted? && e.book.Contains(id)
    ensures WellFilled(e.book)
    ensures var s := Step(e, Cancel(id, true, now), capacity); !s.engine.book.Contains(id) && |s.events| == 1
  {
    OkFilled(e.book);
    CancelKeeps(e.book, id);
  }
}
