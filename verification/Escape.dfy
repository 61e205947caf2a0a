/** The exception that leaves `replay`: exactly which journals let it out, and exactly which commands write them. */
module Escape {
  import opened Types
  import opened PriorityList
  import opened SweepLaws
  import opened Book
  import opened Engine
  import opened EngineInvariant
  import opened Replay
  import opened MatchReplay
  import opened EngineReplay
  import opened CrashConsistency
  import opened Wire
  import opened FileReplay
  import opened Recovery

  // ----- which journals -----------------------------------------------------------------------------------

  /** An acceptance that passes every check of replay and is then refused by the order constructor. */
  predicate Throws(r: Replayer, e: Event) {
    && e.Accepted? && SequenceOk(r, e.sequence) && e.quantity > 0 && 0 < e.remaining <= e.quantity && e.kind.Limit?
    && PriorityOk(r, e.priority) && (e.id == 0 || e.trader == 0 || e.ticks <= 0)
  }

  /** The first `k` events replay, and the next one throws. */
  ghost predicate ThrowsAt(r: Replayer, es: seq<Event>, k: nat, capacity: nat) {
    && k < |es| && ReplayAll(r, es[..k], capacity).verdict.Done?
    && Throws(ReplayAll(r, es[..k], capacity).at, es[k])
  }

  lemma ThrowsIff(r: Replayer, e: Event, capacity: nat)
    ensures Apply(r, e, capacity).verdict.Threw? <==> Throws(r, e)
  {}

  lemma ThrowsLater(r: Replayer, es: seq<Event>, k: nat, capacity: nat)
    requires es != [] && Apply(r, es[0], capacity).verdict.Done?
    ensures ThrowsAt(Apply(r, es[0], capacity).at, es[1..], k, capacity) <==> ThrowsAt(r, es, k + 1, capacity)
  {
    hide Apply, Throws;
    if k + 1 < |es| {
      assert es[..k + 1][1..] == es[1..][..k];
    }
  }

  /** The exception escapes exactly when some prefix replays and the next event is an acceptance that passes the
      sequence, field and priority checks with a zero id, a zero trader or a price that is not positive. */
  lemma {:induction false} EscapesIff(r: Replayer, es: seq<Event>, capacity: nat)
    ensures ReplayAll(r, es, capacity).verdict.Threw? <==> exists k: nat :: ThrowsAt(r, es, k, capacity)
    decreases |es|
  {
    hide Apply, Throws;
    if es != [] {
      var a := Apply(r, es[0], capacity);
      ThrowsIff(r, es[0], capacity);
      assert es[..0] == [];
      assert ThrowsAt(r, es, 0, capacity) <==> a.verdict.Threw?;
      if a.verdict.Done? {
        EscapesIff(a.at, es[1..], capacity);
        if k: nat :| ThrowsAt(a.at, es[1..], k, capacity) { ThrowsLater(r, es, k, capacity); }
        if k: nat :| ThrowsAt(r, es, k, capacity) { ThrowsLater(r, es, k - 1, capacity); }
      } else if k: nat :| ThrowsAt(r, es, k, capacity) {
        if k > 0 { assert es[..k][0] == es[0]; }
      }
    }
  }

  /** A journal file escapes exactly when its events do; the engine is left as the last record left it, RECOVERING if
      it was READY, so that it still takes commands. */
  lemma FileEscapesIff(e: Engine, es: seq<Event>, capacity: nat)
    requires AllEncodable(es)
    ensures var s := ReplayAll(FRESH.(book := e.book), es, capacity);
            var v := Recover(e, Some(HEADER + EncodeAll(es)), capacity);
            && (v.outcome.Escaped? <==> s.verdict.Threw?)
            && (v.outcome.Escaped? ==> v.engine == BeginRecovery(e).(book := s.at.book))
            && (v.outcome.Escaped? && e.state.Ready? ==> v.engine.state.Recovering?)
  {
    hide ReplayAll, ReplayFile, EncodeAll;
    FileIsEvents(FRESH.(book := e.book), es, capacity);
  }

  // ----- which commands -------------------------------------------------------------------------------------

  /** The command is a LIMIT order that will rest, of a trader whose id is a multiple of 2^32. */
  predicate Poisons(e: Engine, c: Command) {
    && c.Process? && !e.state.Halted? && c.healthy && e.priority < MAX_PRIORITY
    && c.order.trader % U32 == 0 && Rests(e.book, c.order)
  }

  /** No event is an acceptance that the order constructor would refuse. */
  ghost predicate GoodAcceptances(es: seq<Event>) {
    forall i :: 0 <= i < |es| && es[i].Accepted? ==> es[i].id > 0 && es[i].trader > 0 && es[i].ticks > 0
  }

  /** Only an acceptance with a bad field can throw. */
  lemma NoBadAcceptance(r: Replayer, es: seq<Event>, capacity: nat)
    requires GoodAcceptances(es)
    ensures !ReplayAll(r, es, capacity).verdict.Threw?
  {
    hide ReplayAll, Apply;
    EscapesIff(r, es, capacity);
  }

  /** A trader in the lookahead's way has an order in the book. */
  lemma FiresOwn(b: Book, inc: Order, policy: StpPolicy)
    requires StpFires(b, inc, policy) && inc.remaining > 0
    ensures exists o :: o in b.Queue(inc.side.Opposite()) && o.trader == inc.trader
  {
    var q := b.Queue(inc.side.Opposite());
    WouldSelfTradeIff(q, inc, inc.remaining);
    FillBounds(q, inc, inc.remaining);
  }

  /** A trader id out of range has no order in a live book, so the self-trade policy does not intervene. */
  lemma NoFire(b: Book, inc: Order, policy: StpPolicy, capacity: nat)
    requires Live(b) && Submittable(inc) && inc.kind.Limit? && inc.trader % U32 == 0
    ensures Match(b, inc, policy, capacity) == TradeAndRest(b, inc, capacity)
  {
    if StpFires(b, inc, policy) { FiresOwn(b, inc, policy); }
  }

  /** A poisonous order trades what it can, and its acceptance then throws. */
  lemma PoisonThrows(r: Replayer, inc: Order, m: Matched, sequence: nat, now: nat, capacity: nat)
    requires m == TradeAndRest(r.book, inc, capacity)
    requires Poised(r, inc, sequence, |MatchEvents(inc, m.fills, m.left, sequence, now)|)
    requires inc.trader % U32 == 0 && Rests(r.book, inc)
    ensures ReplayAll(r, MatchEvents(inc, m.fills, m.left, sequence, now), capacity).verdict.Threw?
  {
    hide Apply, TradeAndRest, BookOk, ReplayAll, SweptBook, Rests, TradeEvents, MatchEvents, AddOrder;
    MatchEventsForm(inc, m.fills, m.left, sequence, now);
    FillsReplay(r, inc, sequence, now, capacity);
    LeftRests(r.book, inc, capacity);
    assert inc.kind.Limit? by { RestsLimit(r.book, inc); }
    var ts, x := TradeEvents(inc, m.fills, sequence, now), AcceptedEvent(inc, m.left, sequence + |m.fills|, now);
    var r1 := After(r, SweptBook(r.book, inc), |m.fills|, sequence);
    ReplayConcat(r, ts, [x], capacity);
    OneThrows(r1, x, capacity);
  }

  lemma RestsLimit(b: Book, inc: Order)
    requires Rests(b, inc)
    ensures inc.kind.Limit?
  {}

  lemma OneThrows(r: Replayer, e: Event, capacity: nat)
    requires Throws(r, e)
    ensures ReplayAll(r, [e], capacity).verdict.Threw?
  {
    ThrowsIff(r, e, capacity);
    hide Apply, Throws;
  }

  lemma MatchEventsGood(o: Order, fs: seq<Fill>, left: nat, sequence: nat, now: nat)
    requires o.id > 0 && (left > 0 && o.kind.Limit? ==> o.price > 0)
    ensures GoodAcceptances(MatchEvents(o, fs, left, sequence, now)) <==>
            !(left > 0 && o.kind.Limit? && o.trader % U32 == 0)
  {
    TradeEventsShape(o, fs, sequence, now);
    var es := MatchEvents(o, fs, left, sequence, now);
    if left > 0 && o.kind.Limit? { assert es[|fs|] == AcceptedEvent(o, left, sequence + |fs|, now); }
  }

  lemma ProcessGood(e: Engine, r: Replayer, order: Order, now: nat, capacity: nat)
    requires Linked(e, r, capacity) && Submittable(order) && e.priority < MAX_PRIORITY
    ensures GoodAcceptances(DoProcess(e, order, now, capacity).events) <==>
            !(order.trader % U32 == 0 && Rests(e.book, order))
  {
    var o := order.(priority := e.priority);
    var m := Match(e.book, o, e.policy, capacity);
    MatchEventsGood(o, m.fills, m.left, e.sequence, now);
    RestsAnyway(e.book, order, e.priority);
    if order.trader % U32 == 0 && o.kind.Limit? {
      NoFire(e.book, o, e.policy, capacity);
      hide Match, TradeAndRest, MatchEvents, GoodAcceptances, Linked, Rests;
      LeftRests(e.book, o, capacity);
    }
    hide Match, TradeAndRest, MatchEvents, GoodAcceptances, Linked;
  }

  /** A replace reissues an order that is resting, whose trader id is in range. */
  lemma ReplaceGood(e: Engine, r: Replayer, id: nat, price: int, quantity: nat, now: nat, capacity: nat)
    requires Linked(e, r, capacity) && WellFilled(e.book)
    ensures GoodAcceptances(DoReplace(e, id, price, quantity, now, capacity).events)
  {
    hide ReplaceOrder, DoReplace, MatchEvents, BookOk, Live, GoodAcceptances, PrioritiesBelow;
    NothingGood();
    var renewed := LosesPriority(e.book, id, price, quantity);
    if ReplaceRefused(e.book, id, price, quantity) || (renewed && e.priority == MAX_PRIORITY) {
      ReplaceTurnedAway(e, id, price, quantity, now, capacity);
    } else {
      LookupNarrow(e.book, id, Ceiling(r));
      ReplacePublishes(e, id, price, quantity, now, capacity);
      var was := e.book.Lookup(id);
      var priority := if renewed then e.priority else was.priority;
      var v := ReplaceOrder(e.book, id, price, quantity, priority, e.policy, capacity);
      var issued := if quantity == 0 then was else Reissue(was, price, quantity, priority);
      var left := if quantity > 0 then v.left else 0;
      MatchEventsGood(issued, v.fills, left, e.sequence + 1, now);
      CancelThenGood(CancelEvent(was, e.sequence, now), MatchEvents(issued, v.fills, left, e.sequence + 1, now));
    }
  }

  lemma LookupNarrow(b: Book, id: nat, n: nat)
    requires Live(b) && PrioritiesBelow(b, n) && b.Contains(id)
    ensures var o := b.Lookup(id); o.id > 0 && 0 < o.trader < U32 && o.price > 0 && o.remaining <= o.quantity
  {
    LookupSane(b, id, n);
  }

  lemma CancelThenGood(x: Event, es: seq<Event>)
    requires !x.Accepted? && GoodAcceptances(es)
    ensures GoodAcceptances([x] + es)
  {}

  /** From any state in which journal and engine agree, a command's events make replay throw exactly when the command
      is a resting LIMIT order of a trader whose id is a multiple of 2^32; exactly then it publishes trader zero. */
  lemma CommandEscapesIff(e: Engine, r: Replayer, c: Command, capacity: nat)
    requires Linked(e, r, capacity) && WellFilled(e.book) && Admissible(e.book, c)
    requires e.sequence + |Step(e, c, capacity).events| + 1 < U64
    ensures var es := Step(e, c, capacity).events;
            && (ReplayAll(r, es, capacity).verdict.Threw? <==> Poisons(e, c))
            && (GoodAcceptances(es) <==> !Poisons(e, c))
  {
    hide Match, ReplayAll, Rests, DoReplace, MatchEvents, GoodAcceptances;
    var es := Step(e, c, capacity).events;
    if GoodAcceptances(es) { NoBadAcceptance(r, es, capacity); }
    NothingGood();
    match c {
      case Process(order, healthy, now) =>
        if !e.state.Halted? && healthy && e.priority < MAX_PRIORITY {
          ProcessGood(e, r, order, now, capacity);
          if Poisons(e, c) { ProcessThrows(e, r, order, now, capacity); }
        }
      case Replace(id, price, quantity, healthy, now) =>
        if !e.state.Halted? && healthy { ReplaceGood(e, r, id, price, quantity, now, capacity); }
      case Cancel(id, _, now) =>
        if e.book.Contains(id) {
          var x := CancelEvent(e.book.Lookup(id), e.sequence, now);
          assert [x] + [] == [x];
          CancelThenGood(x, []);
        }
      case SetPolicy(_) =>
    }
  }

  lemma NothingGood()
    ensures GoodAcceptances([])
  {}

  lemma ProcessThrows(e: Engine, r: Replayer, order: Order, now: nat, capacity: nat)
    requires Linked(e, r, capacity) && Submittable(order) && !e.book.Contains(order.id) && e.priority < MAX_PRIORITY
    requires e.sequence + |DoProcess(e, order, now, capacity).events| + 1 < U64
    requires order.trader % U32 == 0 && Rests(e.book, order)
    ensures ReplayAll(r, DoProcess(e, order, now, capacity).events, capacity).verdict.Threw?
  {
    var o := order.(priority := e.priority);
    RestsAnyway(e.book, order, e.priority);
    RestsLimit(e.book, order);
    NoFire(e.book, o, e.policy, capacity);
    hide Match, TradeAndRest, Rests, MatchEvents, ReplayAll, BookOk;
    PoisonThrows(r, o, TradeAndRest(e.book, o, capacity), e.sequence, now, capacity);
  }

  lemma RestsAnyway(b: Book, o: Order, priority: nat)
    ensures Rests(b, o.(priority := priority)) == Rests(b, o)
  {
    SameDepth(b.Queue(o.side.Opposite()), o, priority);
  }

  lemma SameDepth(q: seq<Order>, o: Order, priority: nat)
    ensures Depth(q, o.(priority := priority)) == Depth(q, o)
  {}

  // ----- an input -------------------------------------------------------------------------------------------

  /** Any first LIMIT order of such a trader rests in the live book and makes the journal unreadable: recovery lets the
      exception out, and the engine it leaves RECOVERING with an empty book still takes orders. */
  lemma WideTraderEscapes(o: Order, now: nat, capacity: nat)
    requires Submittable(o) && o.kind.Limit? && o.trader % U32 == 0 && capacity > 0
    requires AllEncodable(Step(NEW_ENGINE, Process(o, true, now), capacity).events)
    ensures var s := Step(NEW_ENGINE, Process(o, true, now), capacity);
            var v := Recover(NEW_ENGINE, Some(HEADER + EncodeAll(s.events)), capacity);
            && s.engine.book.Contains(o.id) && ReplayAll(FRESH, s.events, capacity).verdict.Threw?
            && v.outcome.Escaped? && v.engine.state == Recovering && v.engine.book == EMPTY
            && Step(v.engine, Process(o, true, now), capacity).engine.book.Contains(o.id)
  {
    var c, x := Process(o, true, now), o.(priority := 0);
    NoCrossRests(EMPTY, x, NoStp, capacity);
    assert Insert(o.side, [], x) == [x];
    assert EMPTY.With(o.side, [x]).Queue(o.side)[0].id == o.id;
    NewLinked(capacity);
    assert |Step(NEW_ENGINE, c, capacity).events| == 1;
    CommandEscapesIff(NEW_ENGINE, FRESH, c, capacity);
    assert FRESH.(book := EMPTY) == FRESH;
    FileEscapesIff(NEW_ENGINE, Step(NEW_ENGINE, c, capacity).events, capacity);
  }

  lemma EscapeExample()
    ensures var o := Order(1, U32, 0, Buy, Limit, 100, 5, 5, 0);
            var s := Step(NEW_ENGINE, Process(o, true, 0), 10);
            && s.events == [Accepted(0, 0, 1, 0, 0, true, 100, 5, 5, Limit, 0)] && AllEncodable(s.events)
            && Recover(NEW_ENGINE, Some(HEADER + EncodeAll(s.events)), 10).outcome.Escaped?
  {
    var o := Order(1, U32, 0, Buy, Limit, 100, 5, 5, 0);
    NoCrossRests(EMPTY, o, NoStp, 10);
    assert Step(NEW_ENGINE, Process(o, true, 0), 10).events == [Accepted(0, 0, 1, 0, 0, true, 100, 5, 5, Limit, 0)];
    WideTraderEscapes(o, 0, 10);
  }
}
