/** Fields that fit their machine types keep fitting: whatever an engine publishes can be written to the journal. */
module Widths {
  import opened Types
  import opened PriorityList
  import opened SweepLaws
  import opened Thinning
  import opened Book
  import opened Engine
  import opened EngineInvariant
  import opened Replay
  import opened EngineReplay
  import opened CrashConsistency
  import opened Wire
  import opened FileReplay

  /** The arguments of a command fit the types the program declares for them. */
  predicate Fits(c: Command) {
    match c
    case Process(o, _, now) =>
      o.id < U64 && o.symbol < U32 && o.price < U63 && o.quantity < U32 && now < U64
    case Cancel(_, _, now) => now < U64
    case Replace(_, price, quantity, _, now) => price < U63 && quantity < U32 && now < U64
    case SetPolicy(_) => true
  }

  ghost predicate AllFit(cs: seq<Command>) { forall c <- cs :: Fits(c) }

  predicate NarrowOrder(o: Order) { o.id < U64 && o.symbol < U32 && 0 < o.price < U63 }

  ghost predicate Narrow(b: Book) {
    (forall o <- b.bids :: NarrowOrder(o)) && (forall o <- b.asks :: NarrowOrder(o))
  }

  // ----- matching -----------------------------------------------------------------------------------------

  lemma {:induction false} FillsWithin(q: seq<Order>, inc: Order, need: nat)
    ensures forall f <- Sweep(q, inc, need).fills :: f.quantity <= need
  {
    if need == 0 || q == [] || !Crosses(inc, q[0].price) {
    } else if q[0].remaining == 0 {
      FillsWithin(q[1..], inc, need);
    } else if need >= q[0].remaining {
      FillsWithin(q[1..], inc, need - q[0].remaining);
    }
  }

  ghost predicate NarrowFills(fs: seq<Fill>) { forall f <- fs :: NarrowOrder(f.resting) && f.quantity < U32 }

  lemma SweepNarrow(q: seq<Order>, inc: Order)
    requires inc.remaining < U32 && forall o <- q :: NarrowOrder(o)
    ensures var s := Sweep(q, inc, inc.remaining); NarrowFills(s.fills) && s.left <= inc.remaining
  {
    FillsWithin(q, inc, inc.remaining);
    FillBounds(q, inc, inc.remaining);
    LeftIsShortfall(q, inc, inc.remaining);
  }

  lemma ThinNarrow(q': seq<Order>, q: seq<Order>)
    requires Thinned(q', q) && forall o <- q :: NarrowOrder(o)
    ensures forall o <- q' :: NarrowOrder(o)
  {
    forall x | x in q' ensures NarrowOrder(x) { var o := Origin(q', q, x); }
  }

  lemma MatchNarrow(b: Book, inc: Order, policy: StpPolicy, capacity: nat)
    requires Narrow(b) && inc.remaining < U32
    ensures var m := Match(b, inc, policy, capacity); NarrowFills(m.fills) && m.left <= inc.remaining
  {
    var q := b.Queue(inc.side.Opposite());
    DroppedFirstOwn(q, inc);
    ThinNarrow(DropFirstOwn(q, inc), q);
    SweepNarrow(q, inc);
    SweepNarrow(DropFirstOwn(q, inc), inc);
    hide Sweep, DropFirstOwn;
  }

  lemma MatchBookNarrow(b: Book, inc: Order, policy: StpPolicy, capacity: nat)
    requires Narrow(b) && inc.id < U64 && inc.symbol < U32 && (inc.kind.Limit? ==> 0 < inc.price < U63)
    ensures Narrow(Match(b, inc, policy, capacity).book)
  {
    var b' := Match(b, inc, policy, capacity).book;
    if inc.kind.Limit? {
      hide Match;
      forall x | x in b'.bids ensures NarrowOrder(x) { var o := MatchOrigin(b, inc, policy, capacity, Buy, x); }
      forall x | x in b'.asks ensures NarrowOrder(x) { var o := MatchOrigin(b, inc, policy, capacity, Sell, x); }
    } else {
      NeverRests(b, inc, policy, capacity);
      hide Match;
      var q1, q2, left := MatchForm(b, inc, policy, capacity);
      ThinNarrow(q1, b.Queue(inc.side.Opposite()));
      ThinNarrow(q2, q1);
    }
  }

  lemma NeverRests(b: Book, inc: Order, policy: StpPolicy, capacity: nat)
    requires !inc.kind.Limit?
    ensures Match(b, inc, policy, capacity).book.Queue(inc.side) == b.Queue(inc.side)
  {}

  lemma {:induction false} TradeEventsFit(o: Order, fs: seq<Fill>, sequence: nat, now: nat)
    requires NarrowFills(fs) && o.id < U64 && o.symbol < U32 && now < U64 && sequence + |fs| <= U64
    ensures AllEncodable(TradeEvents(o, fs, sequence, now))
  {
    if fs != [] { TradeEventsFit(o, fs[1..], sequence + 1, now); }
  }

  lemma MatchEventsFit(o: Order, fs: seq<Fill>, left: nat, sequence: nat, now: nat)
    requires NarrowFills(fs) && o.id < U64 && o.symbol < U32 && now < U64
    requires left > 0 && o.kind.Limit? ==> left <= o.quantity < U32 && o.priority < U64 && 0 < o.price < U63
    requires sequence + |MatchEvents(o, fs, left, sequence, now)| <= U64
    ensures AllEncodable(MatchEvents(o, fs, left, sequence, now))
  {
    TradeEventsFit(o, fs, sequence, now);
  }

  // ----- commands -------------------------------------------------------------------------------------------

  lemma ProcessFits(e: Engine, o: Order, now: nat, capacity: nat)
    requires Narrow(e.book) && Submittable(o) && Fits(Process(o, true, now)) && e.priority <= MAX_PRIORITY
    requires e.sequence + |DoProcess(e, o, now, capacity).events| <= U64
    ensures var s := DoProcess(e, o, now, capacity); AllEncodable(s.events) && Narrow(s.engine.book)
  {
    hide Match, MatchEvents;
    if e.priority < MAX_PRIORITY {
      var x := o.(priority := e.priority);
      MatchNarrow(e.book, x, e.policy, capacity);
      MatchBookNarrow(e.book, x, e.policy, capacity);
      var m := Match(e.book, x, e.policy, capacity);
      MatchEventsFit(x, m.fills, m.left, e.sequence, now);
    }
  }

  lemma CancelNarrow(b: Book, id: nat)
    requires Narrow(b)
    ensures Narrow(CancelOrder(b, id))
    ensures b.Contains(id) ==> NarrowOrder(b.Lookup(id))
  {
    if b.Contains(id) {
      var q := b.Queue(b.SideOf(id));
      RemovedAt(q, Position(q, id));
      ThinNarrow(RemoveAt(q, Position(q, id)), q);
    }
  }

  lemma ReplaceOrderNarrow(b: Book, id: nat, price: int, quantity: nat, priority: nat, policy: StpPolicy, capacity: nat)
    requires Narrow(b) && !ReplaceRefused(b, id, price, quantity) && price < U63 && quantity < U32
    requires b.Lookup(id).remaining <= b.Lookup(id).quantity
    ensures var r := ReplaceOrder(b, id, price, quantity, priority, policy, capacity);
            r.Replaced? && Narrow(r.book) && NarrowFills(r.fills) && (quantity > 0 ==> r.left <= quantity)
  {
    hide Match, CancelOrder, Narrow;
    CancelNarrow(b, id);
    var was := b.Lookup(id);
    if ReplaceInPlace(b, id, price, quantity) {
      RescaledNarrow(b, id, was.(quantity := quantity, remaining := quantity - (was.quantity - was.remaining)));
    } else if quantity > was.quantity - was.remaining {
      MatchNarrow(CancelOrder(b, id), Reissue(was, price, quantity, priority), policy, capacity);
      MatchBookNarrow(CancelOrder(b, id), Reissue(was, price, quantity, priority), policy, capacity);
    }
  }

  lemma RescaledNarrow(b: Book, id: nat, o: Order)
    requires Narrow(b) && b.Contains(id) && o == b.Lookup(id).(quantity := o.quantity, remaining := o.remaining)
    ensures var q := b.Queue(b.SideOf(id)); Narrow(b.With(b.SideOf(id), q[Position(q, id) := o]))
  {
    var q := b.Queue(b.SideOf(id));
    assert NarrowOrder(q[Position(q, id)]);
    forall x | x in q[Position(q, id) := o] ensures NarrowOrder(x) { assert x in q || x == o; }
  }

  lemma ReplaceFits(e: Engine, id: nat, price: int, quantity: nat, now: nat, capacity: nat)
    requires Sane(e, capacity) && WellFilled(e.book) && Narrow(e.book) && Fits(Replace(id, price, quantity, true, now))
    requires e.sequence + |DoReplace(e, id, price, quantity, now, capacity).events| <= U64
    ensures var s := DoReplace(e, id, price, quantity, now, capacity); AllEncodable(s.events) && Narrow(s.engine.book)
  {
    hide ReplaceOrder, DoReplace, MatchEvents, CancelEvent, BookOk, Narrow, NarrowFills, AllEncodable, Identified;
    var renewed := LosesPriority(e.book, id, price, quantity);
    if ReplaceRefused(e.book, id, price, quantity) || (renewed && e.priority == MAX_PRIORITY) {
      ReplaceTurnedAway(e, id, price, quantity, now, capacity);
      NothingFits();
    } else {
      LookupSane(e.book, id, e.priority);
      CancelNarrow(e.book, id);
      ReplacePublishes(e, id, price, quantity, now, capacity);
      var was := e.book.Lookup(id);
      var priority := if renewed then e.priority else was.priority;
      var r := ReplaceOrder(e.book, id, price, quantity, priority, e.policy, capacity);
      ReplaceOrderNarrow(e.book, id, price, quantity, priority, e.policy, capacity);
      var issued := if quantity == 0 then was else Reissue(was, price, quantity, priority);
      var left := if quantity > 0 then r.left else 0;
      MatchEventsFit(issued, r.fills, left, e.sequence + 1, now);
      CancelThenFits(was, MatchEvents(issued, r.fills, left, e.sequence + 1, now), e.sequence, now);
    }
  }

  lemma CancelThenFits(was: Order, es: seq<Event>, sequence: nat, now: nat)
    requires AllEncodable(es) && was.id < U64 && sequence < U64 && now < U64
    ensures AllEncodable([CancelEvent(was, sequence, now)] + es)
  {}

  lemma NothingFits()
    ensures AllEncodable([])
  {}

  /** What an engine publishes fits the journal's record format, and its book keeps to the declared widths. */
  lemma StepFits(e: Engine, c: Command, capacity: nat)
    requires Sane(e, capacity) && WellFilled(e.book) && Narrow(e.book) && Admissible(e.book, c) && Fits(c)
    requires e.sequence + |Step(e, c, capacity).events| <= U64
    ensures var s := Step(e, c, capacity); AllEncodable(s.events) && Narrow(s.engine.book)
  {
    hide Match, MatchEvents, DoReplace, DoProcess, CancelOrder, Narrow, BookOk;
    match c
    case SetPolicy(_) =>
    case Process(o, healthy, now) => if !e.state.Halted? && healthy { ProcessFits(e, o, now, capacity); }
    case Cancel(id, _, _) => CancelNarrow(e.book, id);
    case Replace(id, price, quantity, healthy, now) =>
      if !e.state.Halted? && healthy { ReplaceFits(e, id, price, quantity, now, capacity); }
  }

  lemma {:induction false} RunFits(e: Engine, cs: seq<Command>, capacity: nat)
    requires Sane(e, capacity) && Narrow(e.book) && Playable(e, cs, capacity) && AllFit(cs)
    ensures AllEncodable(Run(e, cs, capacity).events)
    decreases |cs|
  {
    hide Step, StepFaithful, Sane, Narrow, Encodable;
    if cs != [] {
      StepFits(e, cs[0], capacity);
      StepSane(e, cs[0], capacity);
      RunFits(Step(e, cs[0], capacity).engine, cs[1..], capacity);
    }
  }

  // ----- replay -----------------------------------------------------------------------------------------------

  lemma AddNarrow(b: Book, o: Order, capacity: nat)
    requires Narrow(b) && NarrowOrder(o)
    ensures Narrow(AddOrder(b, o, capacity))
  {
    var q := b.Queue(o.side);
    forall x | x in Insert(o.side, q, o) ensures x in q || x == o { InsertMembers(o.side, q, o, x); }
  }

  lemma ApplyNarrow(r: Replayer, e: Event, capacity: nat)
    requires Narrow(r.book) && Encodable(e)
    ensures Narrow(Apply(r, e, capacity).at.book)
  {
    if Apply(r, e, capacity).verdict.Done? {
      match e
      case Accepted(_, _, _, _, _, _, _, _, _, _, _) => AddNarrow(r.book, Restored(e), capacity);
      case Cancelled(_, _, id, _, _, _) => CancelNarrow(r.book, id);
      case Traded(_, _, id, _, _, _, n, _, _) =>
        var q := r.book.Queue(r.book.SideOf(id));
        FilledAt(q, Position(q, id), n);
        ThinNarrow(FillAt(q, Position(q, id), n), q);
    }
  }

  /** A book rebuilt from written records keeps to the widths too. */
  lemma {:induction false} ReplayNarrow(r: Replayer, es: seq<Event>, capacity: nat)
    requires Narrow(r.book) && AllEncodable(es)
    ensures Narrow(ReplayAll(r, es, capacity).at.book)
    decreases |es|
  {
    hide Apply, Narrow, Encodable;
    if es != [] {
      ApplyNarrow(r, es[0], capacity);
      ReplayNarrow(Apply(r, es[0], capacity).at, es[1..], capacity);
    }
  }

  /** Every life's commands fit. */
  ghost predicate LivesFit(lives: seq<Life>) { forall l <- lives :: AllFit(l.commands) }

  /** So whatever a chain of lives leaves in the journal was written in full. */
  lemma {:induction false} LivesEncodable(e: Engine, r: Replayer, lives: seq<Life>, capacity: nat)
    requires Linked(e, r, capacity) && Narrow(e.book) && Livable(e, r, lives, capacity) && LivesFit(lives)
    ensures AllEncodable(Journaled(e, r, lives, capacity))
    decreases |lives|
  {
    hide Linked, Sound, Playable, Resume, Encodable, Narrow, Sane, AllFit;
    if lives != [] {
      var life := lives[0];
      LinkedSane(e, r, capacity);
      RunFits(e, life.commands, capacity);
      var es := Run(e, life.commands, capacity).events[..life.kept];
      RunCut(e, r, life.commands, life.kept, capacity);
      LinkedBooks(e, r, capacity);
      ReplayNarrow(r, es, capacity);
      var r1 := ReplayAll(r, es, capacity).at;
      ResumeLinked(r1, capacity);
      LinkedBooks(Resume(r1), r1, capacity);
      LivesEncodable(Resume(r1), r1, lives[1..], capacity);
    }
  }
}
